/**
 * The separate-chaining hash map of Unordered_map.h.
 *
 * All entries live in one list, nodes_; storage_ holds one iterator per
 * bucket, pointing at the first entry of that bucket, or end() for an
 * empty bucket. The entries of a bucket are kept next to each other in the
 * list, so a lookup starts at the bucket's first entry and walks on while
 * the entries still hash to the same bucket.
 *
 * The list is modelled on the sequence of its entries and an iterator on
 * its position in that sequence, end() being position size(); the linking
 * itself is the same as List.h's and is modelled in ListModel. The bucket
 * heads are positions too, and BucketChains states and proves the bucket
 * invariant on them.
 */
module UnorderedMapModel {
  import opened Wrappers
  import opened SeqEdits
  import opened BucketChains
  import Limbs
  import ListModel

  /** std::pair<const Key, Value>, the value a node holds. */
  datatype Pair<K, V> = Pair(first: K, second: V)

  /** The List of Unordered_map.h, on the sequence of its elements. */
  class NodeList<T> {
    var items: seq<T>

    /** List(): empty. */
    constructor ()
      ensures items == []
    {
      items := [];
    }

    /** List(List&&): takes other's nodes and leaves other empty. */
    constructor Moved(other: NodeList<T>)
      modifies other
      ensures items == old(other.items) && other.items == []
    {
      items := other.items;
      new;
      other.items := [];
    }

    /** operator=(List&&): a self-move changes nothing; otherwise clear(), then take other's nodes. */
    method MoveFrom(other: NodeList<T>)
      modifies this, other
      ensures other == this ==> items == old(items)
      ensures other != this ==> items == old(other.items) && other.items == []
    {
      if other == this {
        return;
      }
      Clear();
      items := other.items;
      other.items := [];
    }

    /** size(). */
    function Size(): (n: nat)
      reads this
      ensures n == |items|
    {
      |items|
    }

    /** emplace(iter, node): the node is linked in just before position pos. */
    method Emplace(pos: nat, value: T)
      requires pos <= |items|
      modifies this
      ensures items == Inserted(old(items), pos, value)
    {
      items := Inserted(items, pos, value);
    }

    /** erase(iter): the node at position pos is unlinked. */
    method Erase(pos: nat)
      requires pos < |items|
      modifies this
      ensures items == Erased(old(items), pos)
    {
      items := Erased(items, pos);
    }

    /** clear(): erase(begin()) while the list is not empty. */
    method Clear()
      modifies this
      ensures items == []
    {
      while Size() > 0
        decreases |items|
      {
        Erase(0);
      }
    }
  }


  /**
    * The six link updates of List(List&&) as written, on the sentinel fake
    * of the new list and the sentinel otherFake of the moved-from list.
    * A non-empty list is handed over intact. For an empty one,
    * otherFake.prev is otherFake itself, so the third update redirects
    * otherFake.next to fake and the fourth makes fake.prev point at fake;
    * fake.next keeps the copy of otherFake.next taken first, which is
    * otherFake. The new list then starts at the other list's sentinel.
    */
  method MoveLinksAsWritten<T(0)>(fake: ListModel.Node<T>, otherFake: ListModel.Node<T>)
    requires fake != otherFake && otherFake.next != null && otherFake.prev != null
    requires otherFake.next != fake && otherFake.prev != fake
    modifies fake, otherFake, otherFake.next, otherFake.prev
    ensures otherFake.next == otherFake && otherFake.prev == otherFake
    ensures old(otherFake.next) != otherFake && old(otherFake.prev) != otherFake ==>
              fake.next == old(otherFake.next) && fake.prev == old(otherFake.prev)
              && old(otherFake.next).prev == fake && old(otherFake.prev).next == fake
    ensures old(otherFake.next) == otherFake && old(otherFake.prev) == otherFake ==>
              fake.next == otherFake && fake.prev == fake
  {
    fake.next := otherFake.next;
    fake.prev := otherFake.prev;
    otherFake.prev.next := fake;
    otherFake.next.prev := fake;
    otherFake.next := otherFake;
    otherFake.prev := otherFake;
  }

  /** Moving from a freshly made, empty list as written: the new sentinel's next is the other sentinel. */
  method MoveOfEmptyAsWritten<T(0)>() returns (fake: ListModel.Node<T>, otherFake: ListModel.Node<T>)
    ensures fake != otherFake && fake.next == otherFake && fake.prev == fake
    ensures otherFake.next == otherFake && otherFake.prev == otherFake
  {
    otherFake := new ListModel.Node.Sentinel();
    fake := new ListModel.Node.Sentinel();
    MoveLinksAsWritten(fake, otherFake);
  }

  /**
    * The move as intended: a non-empty list is handed over as written, and
    * the new sentinel of an empty one links to itself.
    */
  method MoveLinks<T(0)>(fake: ListModel.Node<T>, otherFake: ListModel.Node<T>)
    requires fake != otherFake && otherFake.next != null && otherFake.prev != null
    requires otherFake.next != fake && otherFake.prev != fake
    requires (otherFake.next == otherFake) == (otherFake.prev == otherFake)
    modifies fake, otherFake, otherFake.next, otherFake.prev
    ensures otherFake.next == otherFake && otherFake.prev == otherFake
    ensures old(otherFake.next) != otherFake ==>
              fake.next == old(otherFake.next) && fake.prev == old(otherFake.prev)
              && old(otherFake.next).prev == fake && old(otherFake.prev).next == fake
    ensures old(otherFake.next) == otherFake ==> fake.next == fake && fake.prev == fake
  {
    if otherFake.next == otherFake {
      fake.next, fake.prev := fake, fake;
    } else {
      fake.next := otherFake.next;
      fake.prev := otherFake.prev;
      otherFake.prev.next := fake;
      otherFake.next.prev := fake;
      otherFake.next := otherFake;
      otherFake.prev := otherFake;
    }
  }

  /** Moving from a freshly made, empty list as intended: the new list is empty and well linked. */
  method MoveOfEmpty<T(0)>() returns (fake: ListModel.Node<T>, otherFake: ListModel.Node<T>)
    ensures fake != otherFake && fake.next == fake && fake.prev == fake
    ensures otherFake.next == otherFake && otherFake.prev == otherFake
  {
    otherFake := new ListModel.Node.Sentinel();
    fake := new ListModel.Node.Sentinel();
    MoveLinks(fake, otherFake);
  }

  /** The bucket of each entry, for a table of n buckets. */
  function BucketsOf<K, V>(items: seq<Pair<K, V>>, hasher: K -> nat, n: nat): (hs: seq<nat>)
    requires n > 0
    ensures |hs| == |items| && forall i :: 0 <= i < |items| ==> hs[i] == hasher(items[i].first) % n
  {
    seq(|items|, i requires 0 <= i < |items| => hasher(items[i].first) % n)
  }

  /** No two entries share a key. */
  ghost predicate KeysUnique<K, V>(items: seq<Pair<K, V>>)
  {
    forall i, j :: 0 <= i < j < |items| ==> items[i].first != items[j].first
  }

  /** Some entry has the key. */
  ghost predicate HasKey<K, V>(items: seq<Pair<K, V>>, key: K)
  {
    exists i :: 0 <= i < |items| && items[i].first == key
  }

  /** The map invariant on the entries and the bucket heads: some bucket, unique keys, bucket chains. */
  ghost predicate Table<K, V>(items: seq<Pair<K, V>>, hasher: K -> nat, heads: seq<nat>)
  {
    && |heads| > 0
    && KeysUnique(items)
    && Chained(BucketsOf(items, hasher, |heads|), heads)
  }

  /** Buckets computed entry by entry follow the entries through insert. */
  lemma BucketsOfInserted<K, V>(items: seq<Pair<K, V>>, hasher: K -> nat, n: nat, p: nat, x: Pair<K, V>)
    requires n > 0 && p <= |items|
    ensures BucketsOf(Inserted(items, p, x), hasher, n) == Inserted(BucketsOf(items, hasher, n), p, hasher(x.first) % n)
  {
  }

  /** Buckets computed entry by entry follow the entries through erase. */
  lemma BucketsOfErased<K, V>(items: seq<Pair<K, V>>, hasher: K -> nat, n: nat, p: nat)
    requires n > 0 && p < |items|
    ensures BucketsOf(Erased(items, p), hasher, n) == Erased(BucketsOf(items, hasher, n), p)
  {
  }

  /** insert adds exactly its element to the multiset of elements. */
  lemma MultisetInserted<T>(c: seq<T>, p: nat, v: T)
    requires p <= |c|
    ensures multiset(Inserted(c, p, v)) == multiset(c) + multiset{v}
  {
    assert c == c[..p] + c[p..];
  }

  /** Whether a key is present depends only on the multiset of entries. */
  lemma HasKeyMultiset<K, V>(items: seq<Pair<K, V>>, items': seq<Pair<K, V>>, key: K)
    requires multiset(items) == multiset(items')
    ensures HasKey(items, key) <==> HasKey(items', key)
  {
    if HasKey(items, key) {
      var i :| 0 <= i < |items| && items[i].first == key;
      assert items[i] in multiset(items');
    }
    if HasKey(items', key) {
      var i :| 0 <= i < |items'| && items'[i].first == key;
      assert items'[i] in multiset(items);
    }
  }

  /** The entries reserve has emplaced again are values[..i], so values[i]'s key is not among them. */
  lemma ReinsertedKeyFresh<K, V>(items: seq<Pair<K, V>>, values: seq<Pair<K, V>>, i: nat)
    requires KeysUnique(values) && i < |values| && multiset(items) == multiset(values[..i])
    ensures !HasKey(items, values[i].first)
  {
    forall j | 0 <= j < |items|
      ensures items[j].first != values[i].first
    {
      assert items[j] in multiset(values[..i]);
      var k :| 0 <= k < i && values[..i][k] == items[j];
      assert values[k] == items[j];
    }
  }

  /** One more element of a sequence's prefix adds that element to the prefix's multiset. */
  lemma MultisetPrefix<T>(values: seq<T>, i: nat)
    requires i < |values|
    ensures multiset(values[..i + 1]) == multiset(values[..i]) + multiset{values[i]}
  {
    assert values[..i + 1] == values[..i] + [values[i]];
  }

  /**
   * emplace of a new key keeps the map invariant: the entry goes in at the
   * head of its bucket and becomes the head.
   */
  lemma EmplaceKeepsTable<K, V>(items: seq<Pair<K, V>>, hasher: K -> nat, heads: seq<nat>, entry: Pair<K, V>)
    requires Table(items, hasher, heads) && !HasKey(items, entry.first)
    ensures var h := hasher(entry.first) % |heads|;
      heads[h] <= |items| && Table(Inserted(items, heads[h], entry), hasher, InsertedHeads(heads, h))
  {
    var h := hasher(entry.first) % |heads|;
    var hs := BucketsOf(items, hasher, |heads|);
    BucketsOfInserted(items, hasher, |heads|, heads[h], entry);
    InsertKeepsChained(hs, heads, h);
    var items' := Inserted(items, heads[h], entry);
    forall i, j | 0 <= i < j < |items'|
      ensures items'[i].first != items'[j].first
    {
      if j == heads[h] {
        assert items'[i] == items[i];
      } else if i == heads[h] {
        assert items'[j] == items[j - 1];
      }
    }
  }

  /** erase keeps the map invariant, and the erased key is no longer present. */
  lemma EraseKeepsTable<K, V>(items: seq<Pair<K, V>>, hasher: K -> nat, heads: seq<nat>, p: nat)
    requires Table(items, hasher, heads) && p < |items|
    ensures Table(Erased(items, p), hasher, ErasedHeads(BucketsOf(items, hasher, |heads|), heads, p))
    ensures !HasKey(Erased(items, p), items[p].first)
  {
    var hs := BucketsOf(items, hasher, |heads|);
    BucketsOfErased(items, hasher, |heads|, p);
    EraseKeepsChained(hs, heads, p);
    var items' := Erased(items, p);
    forall i | 0 <= i < |items'|
      ensures items'[i].first != items[p].first
    {
      if i >= p {
        assert items'[i] == items[i + 1];
      }
    }
  }

  /**
   * load_factor() is the integer quotient size() / bucket count, so with
   * max_load_factor() at 1 emplace rehashes exactly when size() has
   * reached the bucket count.
   */
  lemma LoadFactorReached(size: nat, buckets: nat)
    requires buckets > 0
    ensures size / buckets >= 1 <==> size >= buckets
  {
    if size < buckets {
      Limbs.DivModUnique(size, buckets, 0, size);
    } else {
      Limbs.DivModUnique(size, buckets, size / buckets, size % buckets);
    }
  }

  /** The error at() reports for a missing key (std::out_of_range). */
  datatype MapError = OutOfRange

  /** UnorderedMap<Key, Value, Hash>: the entry list, the bucket heads and the hash function. */
  class UnorderedMap<K(==), V> {
    const hasher: K -> nat
    const nodes: NodeList<Pair<K, V>>
    var storage: seq<nat>

    ghost predicate Valid()
      reads this, nodes
    {
      Table(nodes.items, hasher, storage)
    }

    /** UnorderedMap(): no entries and a single bucket, whose head is end(). */
    constructor (hasher: K -> nat)
      ensures Valid() && nodes.items == [] && storage == [0] && fresh(nodes)
    {
      this.hasher := hasher;
      nodes := new NodeList();
      storage := [0];
      new;
      EmptyChained(storage);
    }

    /** get_hash(key): the key's bucket, 0 when there are no buckets. */
    function GetHash(key: K): (h: nat)
      reads this
      ensures |storage| == 0 ==> h == 0
      ensures |storage| > 0 ==> h < |storage| && h == hasher(key) % |storage|
    {
      if |storage| == 0 then 0 else hasher(key) % |storage|
    }

    /** size(). */
    function Size(): (n: nat)
      reads this, nodes
      ensures n == |nodes.items|
    {
      nodes.Size()
    }

    /**
     * find(key): walks bucket get_hash(key) from its head; the position of
     * the entry holding key, or end() when no entry does.
     */
    method Find(key: K) returns (pos: nat)
      requires Valid()
      ensures pos <= |nodes.items|
      ensures pos < |nodes.items| ==> nodes.items[pos].first == key
      ensures pos == |nodes.items| <==> !HasKey(nodes.items, key)
    {
      ghost var hs := BucketsOf(nodes.items, hasher, |storage|);
      var hash := GetHash(key);
      var iter := storage[hash];
      while iter != nodes.Size() && GetHash(nodes.items[iter].first) == hash
        invariant storage[hash] <= iter <= |nodes.items|
        invariant forall j :: storage[hash] <= j < iter ==> nodes.items[j].first != key
        decreases |nodes.items| - iter
      {
        if nodes.items[iter].first == key {
          return iter;
        }
        iter := iter + 1;
      }
      RunEnds(hs, storage, hash, iter);
      forall j | 0 <= j < |nodes.items|
        ensures nodes.items[j].first != key
      {
        if hs[j] == hash {
          assert storage[hash] <= j < iter;
        }
      }
      return nodes.Size();
    }

    /**
     * emplace(key, value): an existing key gives its position and false,
     * with nothing changed; otherwise, after a rehash to 2 * size() + 1
     * buckets when load_factor() (the integer quotient size() / bucket
     * count) has reached max_load_factor() (1), the entry is linked in at its
     * bucket's head and becomes the head, and its position and true are
     * returned.
     */
    method Emplace(key: K, value: V) returns (pos: nat, inserted: bool)
      requires Valid()
      modifies this, nodes
      ensures Valid() && pos < |nodes.items| && nodes.items[pos].first == key
      ensures inserted <==> !old(HasKey(nodes.items, key))
      ensures !inserted ==> nodes.items == old(nodes.items) && storage == old(storage)
      ensures inserted ==> nodes.items[pos].second == value
      ensures inserted ==> multiset(nodes.items) == multiset(old(nodes.items)) + multiset{Pair(key, value)}
      ensures |old(nodes.items)| < |old(storage)| ==> |storage| == |old(storage)|
      decreases |nodes.items| + 1, 0
    {
      var found := Find(key);
      if found != nodes.Size() {
        return found, false;
      }
      LoadFactorReached(nodes.Size(), |storage|);
      if nodes.Size() / |storage| >= 1 {
        Reserve(nodes.Size() * 2 + 1);
        HasKeyMultiset(old(nodes.items), nodes.items, key);
      }
      pos := LinkAtHead(key, value);
      inserted := true;
    }

    /**
     * The linking half of emplace, for a key not yet present: an entry of
     * a non-empty bucket goes in before the bucket's head and the head
     * moves back onto it; an entry of an empty bucket goes in at end() and
     * becomes the head. Either way the entry is the new head.
     */
    method LinkAtHead(key: K, value: V) returns (pos: nat)
      requires Valid() && !HasKey(nodes.items, key)
      modifies this, nodes
      ensures Valid()
      ensures var h := hasher(key) % |old(storage)|;
        && pos == old(storage)[h]
        && nodes.items == Inserted(old(nodes.items), pos, Pair(key, value))
        && storage == InsertedHeads(old(storage), h)
      ensures multiset(nodes.items) == multiset(old(nodes.items)) + multiset{Pair(key, value)}
    {
      var hash := GetHash(key);
      ghost var items, heads := nodes.items, storage;
      EmplaceKeepsTable(items, hasher, heads, Pair(key, value));
      MultisetInserted(items, heads[hash], Pair(key, value));
      if storage[hash] != nodes.Size() {
        nodes.Emplace(storage[hash], Pair(key, value));
        storage := Shifted(storage, storage[hash]);
        storage := storage[hash := storage[hash] - 1];
      } else {
        nodes.Emplace(nodes.Size(), Pair(key, value));
        storage := Shifted(storage, storage[hash]);
        storage := storage[hash := nodes.Size() - 1];
      }
      assert storage == InsertedHeads(heads, hash);
      return storage[hash];
    }

    /** insert(node_val): emplace of the pair's key and value. */
    method Insert(entry: Pair<K, V>) returns (pos: nat, inserted: bool)
      requires Valid()
      modifies this, nodes
      ensures Valid() && pos < |nodes.items| && nodes.items[pos].first == entry.first
      ensures inserted <==> !old(HasKey(nodes.items, entry.first))
      ensures !inserted ==> nodes.items == old(nodes.items)
      ensures inserted ==> nodes.items[pos] == entry && multiset(nodes.items) == multiset(old(nodes.items)) + multiset{entry}
    {
      pos, inserted := Emplace(entry.first, entry.second);
    }

    /**
     * operator[](key): the position of key's entry, emplacing (key,
     * blank) first when there is none; blank is the value-initialised Value().
     */
    method Index(key: K, blank: V) returns (pos: nat)
      requires Valid()
      modifies this, nodes
      ensures Valid() && pos < |nodes.items| && nodes.items[pos].first == key
      ensures old(HasKey(nodes.items, key)) ==> nodes.items == old(nodes.items)
      ensures !old(HasKey(nodes.items, key)) ==> nodes.items[pos].second == blank
      ensures !old(HasKey(nodes.items, key)) ==> multiset(nodes.items) == multiset(old(nodes.items)) + multiset{Pair(key, blank)}
    {
      pos := Find(key);
      if pos == nodes.Size() {
        var inserted;
        pos, inserted := Emplace(key, blank);
      }
    }

    /** at(key): the position of key's entry, or std::out_of_range when there is none. */
    method At(key: K) returns (r: Result<nat, MapError>)
      requires Valid()
      ensures r.Ok? <==> HasKey(nodes.items, key)
      ensures r.Ok? ==> r.value < |nodes.items| && nodes.items[r.value].first == key
    {
      var pos := Find(key);
      if pos == nodes.Size() {
        return Err(OutOfRange);
      }
      return Ok(pos);
    }

    /**
     * erase(iter): a bucket whose head is erased takes the next entry as
     * head when that entry is of the same bucket, and end() otherwise; the
     * erased key is gone afterwards.
     */
    method Erase(pos: nat)
      requires Valid() && pos < |nodes.items|
      modifies this, nodes
      ensures Valid() && nodes.items == Erased(old(nodes.items), pos)
      ensures storage == ErasedHeads(BucketsOf(old(nodes.items), hasher, |old(storage)|), old(storage), pos)
      ensures !HasKey(nodes.items, old(nodes.items[pos].first))
    {
      ghost var items, heads := nodes.items, storage;
      EraseKeepsTable(items, hasher, heads, pos);
      var hash := GetHash(nodes.items[pos].first);
      if storage[hash] != pos {
        nodes.Erase(pos);
        storage := Unshifted(storage, pos);
        assert heads[hash := heads[hash]] == heads;
        return;
      }
      if pos + 1 != nodes.Size() && GetHash(nodes.items[pos + 1].first) == hash {
        storage := storage[hash := pos + 1];
        nodes.Erase(pos);
        storage := Unshifted(storage, pos);
        return;
      }
      storage := storage[hash := nodes.Size()];
      nodes.Erase(pos);
      storage := Unshifted(storage, pos);
    }

    /** The first loop of reserve: moves the entries out, front first, until the list is empty. */
    method MoveOut() returns (values: seq<Pair<K, V>>)
      modifies nodes
      ensures values == old(nodes.items) && nodes.items == []
    {
      values := [];
      while nodes.Size() > 0
        invariant values + nodes.items == old(nodes.items)
        decreases |nodes.items|
      {
        values := values + [nodes.items[0]];
        nodes.Erase(0);
      }
    }

    /**
     * reserve(count): moves every entry out of the list in order, makes
     * count empty buckets, and emplaces the entries again. The entries are
     * the same afterwards, and the table has count buckets unless count was
     * below size(), when one of those emplaces rehashes once more.
     */
    method Reserve(count: nat)
      requires Valid() && count > 0
      modifies this, nodes
      ensures Valid() && multiset(nodes.items) == multiset(old(nodes.items))
      ensures count >= |old(nodes.items)| ==> |storage| == count
      decreases |nodes.items|, 1
    {
      var values := MoveOut();
      var end := nodes.Size();
      storage := seq(count, _ => end);
      EmptyChained(storage);
      var i := 0;
      while i < |values|
        invariant values == old(nodes.items) && i <= |values|
        invariant Valid() && |nodes.items| == i
        invariant multiset(nodes.items) == multiset(values[..i])
        invariant count >= |values| ==> |storage| == count
      {
        ReinsertedKeyFresh(nodes.items, values, i);
        var pos, inserted := Emplace(values[i].first, values[i].second);
        MultisetPrefix(values, i);
        i := i + 1;
      }
      assert values[..i] == values;
    }
  }
}
