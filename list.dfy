/**
 * The sentinel doubly-linked list of List.h.
 *
 * Every node, the sentinel (fakeNode) included, is a `Node` object with
 * `next` and `prev` links. The list keeps the ghost sequence `nodes` of its
 * element nodes in order and the ghost sequence `contents` of their values;
 * `Valid` ties them to the links: walking `next` from the sentinel visits
 * the nodes in order and comes back to the sentinel, and `prev` walks the
 * same ring backwards. An iterator is a node reference; its position is its
 * index in `nodes`, with the sentinel (end()) at position size().
 */
module ListModel {
  import opened SeqEdits

  /**
   * BaseNode and Node. The sentinel is a node whose value is never read;
   * owner is the list a node belongs to, so two lists never share a node.
   */
  class Node<T(0)> {
    var next: Node?<T>
    var prev: Node?<T>
    var value: T
    ghost var owner: object?

    /** A node holding v whose links point back at itself, as BaseNode's initialisers do. */
    constructor (v: T, ghost list: object?)
      ensures next == this && prev == this && value == v && owner == list
    {
      value := v;
      owner := list;
      new;
      next, prev := this, this;
    }

    /** The sentinel, a BaseNode: no value, links to itself. */
    constructor Sentinel()
      ensures next == this && prev == this && owner == null
    {
      owner := null;
      new;
      next, prev := this, this;
    }
  }

  /** Consecutive nodes of ring are linked both ways. */
  ghost predicate Linked<T(0)>(ring: seq<Node<T>>)
    reads ring
  {
    forall i :: 0 <= i < |ring| - 1 ==> ring[i].next == ring[i + 1] && ring[i + 1].prev == ring[i]
  }

  /** No node of ring appears twice, except that the first and the last may coincide. */
  ghost predicate AlmostDistinct<T(0)>(ring: seq<Node<T>>)
  {
    forall i, j :: 0 <= i < j < |ring| && ring[i] == ring[j] ==> i == 0 && j == |ring| - 1
  }

  /** Inserting into the element nodes splices the node into the ring after ring index index. */
  lemma RingInserted<T(0)>(f: Node<T>, s: seq<Node<T>>, index: nat, x: Node<T>)
    requires index <= |s|
    ensures var ring := [f] + s + [f];
            [f] + Inserted(s, index, x) + [f] == ring[..index + 1] + [x] + ring[index + 1..]
  {
    var ring := [f] + s + [f];
    assert ring[..index + 1] == [f] + s[..index];
    assert ring[index + 1..] == s[index..] + [f];
  }

  /** Erasing from the element nodes removes ring index index + 1. */
  lemma RingErased<T(0)>(f: Node<T>, s: seq<Node<T>>, index: nat)
    requires index < |s|
    ensures var ring := [f] + s + [f];
            [f] + Erased(s, index) + [f] == ring[..index + 1] + ring[index + 2..]
  {
    var ring := [f] + s + [f];
    assert ring[..index + 1] == [f] + s[..index];
    assert ring[index + 2..] == s[index + 1..] + [f];
  }

  /** Two equal nodes of a linked ring are followed by equal nodes, m steps on. */
  lemma {:induction false} SameAhead<T(0)>(ring: seq<Node<T>>, a: nat, b: nat, m: nat)
    requires Linked(ring) && a <= b && b + m < |ring| && ring[a] == ring[b]
    ensures ring[a + m] == ring[b + m]
    decreases m
  {
    if m > 0 {
      SameAhead(ring, a, b, m - 1);
      assert ring[a + m - 1].next == ring[a + m] && ring[b + m - 1].next == ring[b + m];
    }
  }

  /**
   * A linked ring that starts and ends at a node found nowhere else in it
   * lists no other node twice: walking on from a repeated node would reach
   * that end node early.
   */
  lemma LinkedDistinct<T(0)>(ring: seq<Node<T>>)
    requires |ring| >= 2 && Linked(ring) && ring[0] == ring[|ring| - 1]
    requires forall i :: 0 < i < |ring| - 1 ==> ring[i] != ring[0]
    ensures AlmostDistinct(ring)
  {
    forall i, j | 0 <= i < j < |ring| && ring[i] == ring[j]
      ensures i == 0 && j == |ring| - 1
    {
      if 0 < i && j < |ring| - 1 {
        SameAhead(ring, i, j, |ring| - 1 - j);
        assert false;
      }
    }
  }

  /** Consecutive nodes of ring are linked both ways, except for the pairs starting at lo up to hi. */
  ghost predicate LinkedOutside<T(0)>(ring: seq<Node<T>>, lo: nat, hi: nat)
    reads ring
  {
    forall i :: 0 <= i < |ring| - 1 && !(lo <= i < hi) ==> ring[i].next == ring[i + 1] && ring[i + 1].prev == ring[i]
  }

  /** add's effect on a linked ring: x linked between ring[k] and ring[k + 1] makes the ring with x spliced in linked. */
  lemma SpliceLinked<T(0)>(ring: seq<Node<T>>, k: nat, x: Node<T>)
    requires k < |ring| - 1 && LinkedOutside(ring, k, k + 1)
    requires ring[k].next == x && x.next == ring[k + 1] && ring[k + 1].prev == x && x.prev == ring[k]
    ensures Linked(ring[..k + 1] + [x] + ring[k + 1..])
  {
    var ring' := ring[..k + 1] + [x] + ring[k + 1..];
    forall i | 0 <= i < |ring'| - 1
      ensures ring'[i].next == ring'[i + 1] && ring'[i + 1].prev == ring'[i]
    {
      if i < k {
        assert ring'[i] == ring[i] && ring'[i + 1] == ring[i + 1];
      } else if k + 1 < i {
        assert ring'[i] == ring[i - 1] && ring'[i + 1] == ring[i];
      }
    }
  }

  /** connect's effect on a linked ring: ring[k] and ring[k + 2] linked to each other make the ring without ring[k + 1] linked. */
  lemma UnspliceLinked<T(0)>(ring: seq<Node<T>>, k: nat)
    requires k + 2 < |ring| && LinkedOutside(ring, k, k + 2)
    requires ring[k].next == ring[k + 2] && ring[k + 2].prev == ring[k]
    ensures Linked(ring[..k + 1] + ring[k + 2..])
  {
    var ring' := ring[..k + 1] + ring[k + 2..];
    forall i | 0 <= i < |ring'| - 1
      ensures ring'[i].next == ring'[i + 1] && ring'[i + 1].prev == ring'[i]
    {
      if i < k {
        assert ring'[i] == ring[i] && ring'[i + 1] == ring[i + 1];
      } else if k < i {
        assert ring'[i] == ring[i + 1] && ring'[i + 1] == ring[i + 2];
      }
    }
  }

  class List<T(0)> {
    const fake: Node<T>
    var listSize: nat
    ghost var nodes: seq<Node<T>>
    ghost var contents: seq<T>

    /** The sentinel, the element nodes in order, and the sentinel again. */
    ghost function Ring(): seq<Node<T>>
      reads this
    {
      [fake] + nodes + [fake]
    }

    /** Index i of the ring. */
    ghost function RingNode(i: nat): Node<T>
      requires i < |nodes| + 2
      reads this
    {
      Ring()[i]
    }

    /**
     * The element nodes are owned by this list and different from the
     * sentinel, listSize counts them, they hold the elements, and every
     * node has both links.
     */
    ghost predicate Elements()
      reads this, fake, nodes
    {
      && fake.owner == this
      && (forall i :: 0 <= i < |nodes| ==> nodes[i].owner == this && nodes[i] != fake)
      && listSize == |nodes| == |contents|
      && (forall i :: 0 <= i < |nodes| ==> nodes[i].value == contents[i])
      && fake.next != null && fake.prev != null
      && (forall i :: 0 <= i < |nodes| ==> nodes[i].next != null && nodes[i].prev != null)
    }

    /** The element nodes as above, and the links form the ring (which makes the nodes distinct, see RingDistinct). */
    ghost predicate Valid()
      reads this, fake, nodes
    {
      Elements() && Linked(Ring())
    }

    /** iter is a node of this list, end() included. */
    ghost predicate Member(iter: Node<T>)
      reads this
    {
      iter == fake || iter in nodes
    }

    /** The position of an iterator: its index among the elements, size() for end(). */
    ghost function Position(iter: Node<T>): (k: nat)
      requires Member(iter)
      reads this
      ensures k <= |nodes| && Ring()[k + 1] == iter
    {
      if iter == fake then |nodes| else var k :| 0 <= k < |nodes| && nodes[k] == iter; k
    }
    /** The node at index i of the ring is a member, at position i - 1 (the sentinel at size()). */
    lemma RingAt(i: nat)
      requires Valid() && i < |Ring()|
      ensures Member(Ring()[i]) && Position(Ring()[i]) == if i == 0 then |nodes| else i - 1
    {
      if 0 < i <= |nodes| {
        RingDistinct();
        var k := Position(Ring()[i]);
        assert nodes[k] == nodes[i - 1];
      }
    }

    /** The sentinel, which opens and closes the ring, is the only node listed twice. */
    lemma RingDistinct()
      requires Valid()
      ensures AlmostDistinct(Ring())
    {
      LinkedDistinct(Ring());
    }

    /** Ring nodes i and i + 1 are linked both ways. */
    lemma LinkAt(i: nat)
      requires Valid() && i < |Ring()| - 1
      ensures Ring()[i].next == Ring()[i + 1] && Ring()[i + 1].prev == Ring()[i]
    {
    }

    /** List(): the sentinel alone, linked to itself. */
    constructor ()
      ensures Valid() && contents == [] && fresh(fake)
    {
      fake := new Node.Sentinel();
      listSize := 0;
      nodes, contents := [], [];
      new;
      fake.owner := this;
    }

    /** connect: first is followed by second. */
    method Connect(first: Node<T>, second: Node<T>)
      modifies first`next, second`prev
      ensures first.next == second && second.prev == first
    {
      first.next := second;
      second.prev := first;
    }

    /** add: newNode is linked between prevNode and nextNode. */
    method Add(prevNode: Node<T>, newNode: Node<T>, nextNode: Node<T>)
      requires newNode != prevNode && newNode != nextNode
      modifies prevNode`next, nextNode`prev, newNode`next, newNode`prev
      ensures prevNode.next == newNode && nextNode.prev == newNode
      ensures newNode.next == nextNode && newNode.prev == prevNode
    {
      prevNode.next := newNode;
      nextNode.prev := newNode;
      newNode.next := nextNode;
      newNode.prev := prevNode;
    }

    /** size(): the counter, which is the number of elements. */
    function Size(): (n: nat)
      requires Valid()
      reads this, fake, nodes
      ensures n == |contents|
    {
      listSize
    }

    /** begin(): the node after the sentinel, position 0 (end() itself when empty). */
    function Begin(): (it: Node<T>)
      requires Valid()
      reads this, fake, nodes
      ensures Member(it) && Position(it) == 0
    {
      LinkAt(0);
      RingAt(1);
      fake.next
    }

    /** operator++ on an iterator: the next position, and from end() back to begin(). */
    function Next(iter: Node<T>): (it: Node<T>)
      requires Valid() && Member(iter)
      reads this, fake, nodes
      ensures Member(it)
      ensures Position(it) == if Position(iter) < |nodes| then Position(iter) + 1 else 0
    {
      var p := Position(iter);
      LinkAt(if p < |nodes| then p + 1 else 0);
      RingAt(if p < |nodes| then p + 2 else 1);
      iter.next
    }

    /** operator-- on an iterator: the previous position, and from begin() back to end(). */
    function Prev(iter: Node<T>): (it: Node<T>)
      requires Valid() && Member(iter)
      reads this, fake, nodes
      ensures Member(it)
      ensures Position(it) == if Position(iter) > 0 then Position(iter) - 1 else |nodes|
    {
      var p := Position(iter);
      LinkAt(p);
      RingAt(if p > 0 then p else |nodes| + 1);
      iter.prev
    }

    /** Walks next from the sentinel back to the sentinel, counting the nodes on the way. */
    method CountNodes() returns (count: nat)
      requires Valid()
      ensures count == listSize
    {
      LinkAt(0);
      var node: Node<T> := fake.next;
      count := 0;
      while node != fake
        invariant count <= |nodes| && node == Ring()[count + 1]
        decreases |nodes| - count
      {
        node := node.next;
        count := count + 1;
      }
    }

    /** insert(iter, value): a new node holding value, linked just before iter. */
    method Insert(iter: Node<T>, value: T)
      requires Valid() && Member(iter)
      modifies this, iter`prev, iter.prev`next
      ensures Valid() && contents == Inserted(old(contents), old(Position(iter)), value)
      ensures var k := old(Position(iter)); nodes == Inserted(old(nodes), k, nodes[k]) && fresh(nodes[k])
    {
      var newNode := new Node(value, this);
      Attach(iter, newNode);
    }

    /** add(iter.prev, newNode, iter) and the size increment of insert: newNode joins the ring just before iter. */
    method Attach(iter: Node<T>, newNode: Node<T>)
      requires Valid() && Member(iter) && newNode.owner == this && newNode !in Ring()
      modifies this, iter`prev, iter.prev`next, newNode`next, newNode`prev
      ensures Valid() && contents == Inserted(old(contents), old(Position(iter)), newNode.value)
      ensures nodes == Inserted(old(nodes), old(Position(iter)), newNode)
    {
      ghost var k, ring := Position(iter), Ring();
      RingDistinct();
      LinkAt(k);
      Add(iter.prev, newNode, iter);
      forall i | 0 <= i < |ring| - 1 && i != k
        ensures ring[i].next == ring[i + 1] && ring[i + 1].prev == ring[i]
      {
        assert old(ring[i].next) == ring[i + 1] && old(ring[i + 1].prev) == ring[i];
      }
      SpliceLinked(ring, k, newNode);
      RingInserted(fake, nodes, k, newNode);
      Record(k, newNode);
    }

    /** insert's bookkeeping once x is linked in: the size grows and x holds position k. */
    method Record(ghost k: nat, x: Node<T>)
      requires Elements() && k <= |nodes| && x.owner == this && x != fake && x.next != null && x.prev != null
      requires Linked([fake] + Inserted(nodes, k, x) + [fake])
      modifies this
      ensures Valid() && nodes == Inserted(old(nodes), k, x) && contents == Inserted(old(contents), k, x.value)
    {
      listSize := listSize + 1;
      nodes := Inserted(nodes, k, x);
      contents := Inserted(contents, k, x.value);
    }

    /** erase(iter): iter's neighbours are linked to each other, dropping iter. */
    method Erase(iter: Node<T>)
      requires Valid() && iter in nodes
      modifies this, iter.prev`next, iter.next`prev
      ensures Valid() && contents == Erased(old(contents), old(Position(iter)))
      ensures nodes == Erased(old(nodes), old(Position(iter)))
    {
      ghost var k, ring := Position(iter), Ring();
      RingDistinct();
      LinkAt(k);
      LinkAt(k + 1);
      Connect(iter.prev, iter.next);
      forall i | 0 <= i < |ring| - 1 && !(k <= i <= k + 1)
        ensures ring[i].next == ring[i + 1] && ring[i + 1].prev == ring[i]
      {
        assert old(ring[i].next) == ring[i + 1] && old(ring[i + 1].prev) == ring[i];
      }
      UnspliceLinked(ring, k);
      RingErased(fake, nodes, k);
      Forget(k);
    }

    /** erase's bookkeeping once the node at position k is linked out: the size shrinks and the node leaves the elements. */
    method Forget(ghost k: nat)
      requires Elements() && k < |nodes| && Linked([fake] + Erased(nodes, k) + [fake])
      modifies this
      ensures Valid() && nodes == Erased(old(nodes), k) && contents == Erased(old(contents), k)
    {
      listSize := listSize - 1;
      nodes := Erased(nodes, k);
      contents := Erased(contents, k);
    }

    /** push_back(value): insert at end(). */
    method PushBack(value: T)
      requires Valid()
      modifies this, fake`prev, fake.prev`next
      ensures Valid() && contents == old(contents) + [value]
      ensures nodes == old(nodes) + [nodes[|nodes| - 1]] && fresh(nodes[|nodes| - 1])
    {
      Insert(fake, value);
    }

    /** push_front(value): insert at begin(). */
    method PushFront(value: T)
      requires Valid()
      modifies this, fake`next, fake.next`prev
      ensures Valid() && contents == [value] + old(contents)
      ensures nodes == [nodes[0]] + old(nodes) && fresh(nodes[0])
    {
      LinkAt(0);
      Insert(Begin(), value);
    }

    /** pop_front(): erase begin(); the list must not be empty. */
    method PopFront()
      requires Valid() && |contents| > 0
      modifies this, fake`next, RingNode(2)`prev
      ensures Valid() && contents == old(contents)[1..] && nodes == old(nodes)[1..]
    {
      LinkAt(0);
      LinkAt(1);
      Erase(Begin());
    }

    /** pop_back(): erase end().prev(); the list must not be empty. */
    method PopBack()
      requires Valid() && |contents| > 0
      modifies this, fake`prev, RingNode(|nodes| - 1)`next
      ensures Valid() && contents == old(contents)[..|old(contents)| - 1]
      ensures nodes == old(nodes)[..|old(nodes)| - 1]
    {
      LinkAt(|nodes|);
      LinkAt(|nodes| - 1);
      Erase(Prev(fake));
    }

    /** cnt times push_back(value): the loop of List(cnt, value) and List(cnt). */
    method Append(cnt: nat, value: T)
      requires Valid()
      modifies this, fake`prev, fake.prev`next
      ensures Valid() && contents == old(contents) + seq(cnt, _ => value)
    {
      var i := 0;
      while i < cnt
        invariant i <= cnt && Valid()
        invariant contents == old(contents) + seq(i, _ => value)
        invariant fake.prev == old(fake.prev) || fresh(fake.prev)
      {
        PushBack(value);
        LinkAt(|nodes|);
        i := i + 1;
      }
    }

    /** push_back(value), which leaves every node of the other list other as it was. */
    method PushBackBeside(other: List<T>, value: T)
      requires Valid() && other.Valid() && other != this
      modifies this, fake`prev, fake.prev`next
      ensures Valid() && contents == old(contents) + [value] && other.Valid()
      ensures fake.prev == old(fake.prev) || fresh(fake.prev)
      ensures nodes == old(nodes) + [nodes[|nodes| - 1]] && fresh(nodes[|nodes| - 1])
    {
      LinkAt(|nodes|);
      assert fake.prev.owner == this;
      assert forall j :: 0 <= j < |other.nodes| ==> other.nodes[j] != fake && other.nodes[j] != fake.prev;
      assert other.fake != fake && other.fake != fake.prev;
      PushBack(value);
      LinkAt(|nodes|);
    }

    /** push_back of each element of other, walking other from begin(): the loop of the copy constructor. */
    method AppendAll(other: List<T>)
      requires Valid() && other.Valid() && other != this
      modifies this, fake`prev, fake.prev`next
      ensures Valid() && contents == old(contents) + other.contents
      ensures other.Valid() && other.contents == old(other.contents)
      ensures forall j :: 0 <= j < |nodes| ==> nodes[j] in old(nodes) || fresh(nodes[j])
    {
      var otherIter := other.Begin();
      var i := 0;
      while i < other.listSize
        invariant other.Valid() && other.contents == old(other.contents) && other.nodes == old(other.nodes)
        invariant i <= |other.nodes| && other.Member(otherIter) && other.Position(otherIter) == i
        invariant Valid() && contents == old(contents) + other.contents[..i]
        invariant fake.prev == old(fake.prev) || fresh(fake.prev)
        invariant old(nodes) <= nodes && forall j :: |old(nodes)| <= j < |nodes| ==> fresh(nodes[j])
      {
        otherIter := CopyNext(other, otherIter, i, old(contents));
        i := i + 1;
      }
    }

    /** One pass of the copy loop: the element at otherIter is pushed back and otherIter advances. */
    method CopyNext(other: List<T>, otherIter: Node<T>, ghost i: nat, ghost prefix: seq<T>) returns (nextIter: Node<T>)
      requires Valid() && other.Valid() && other != this
      requires i < |other.nodes| && other.Member(otherIter) && other.Position(otherIter) == i
      requires contents == prefix + other.contents[..i]
      modifies this, fake`prev, fake.prev`next
      ensures Valid() && contents == prefix + other.contents[..i + 1]
      ensures other.Valid() && other.Member(nextIter) && other.Position(nextIter) == i + 1
      ensures fake.prev == old(fake.prev) || fresh(fake.prev)
      ensures nodes == old(nodes) + [nodes[|nodes| - 1]] && fresh(nodes[|nodes| - 1])
    {
      assert otherIter.value == other.contents[i];
      PushBackBeside(other, otherIter.value);
      assert other.contents[..i + 1] == other.contents[..i] + [other.contents[i]];
      nextIter := other.Next(otherIter);
    }

    /** List(cnt, value): cnt copies of value. */
    constructor Filled(cnt: nat, value: T)
      ensures Valid() && contents == seq(cnt, _ => value)
    {
      fake := new Node.Sentinel();
      listSize := 0;
      nodes, contents := [], [];
      new;
      fake.owner := this;
      Append(cnt, value);
    }

    /** List(cnt): cnt copies of initial, the value-initialised T(). */
    constructor Sized(cnt: nat, initial: T)
      ensures Valid() && contents == seq(cnt, _ => initial)
    {
      fake := new Node.Sentinel();
      listSize := 0;
      nodes, contents := [], [];
      new;
      fake.owner := this;
      Append(cnt, initial);
    }

    /** List(const List&): other's elements in order. */
    constructor Copy(other: List<T>)
      requires other.Valid()
      ensures Valid() && contents == other.contents
    {
      fake := new Node.Sentinel();
      listSize := 0;
      nodes, contents := [], [];
      new;
      fake.owner := this;
      AppendAll(other);
    }

    /** pop_front(), which leaves every node of the other list other as it was. */
    method PopFrontBeside(other: List<T>)
      requires Valid() && |contents| > 0 && other.Valid() && other != this
      modifies this, fake`next, RingNode(2)`prev
      ensures Valid() && contents == old(contents)[1..] && nodes == old(nodes)[1..] && other.Valid()
    {
      LinkAt(0);
      assert RingNode(2).owner == this;
      assert forall j :: 0 <= j < |other.nodes| ==> other.nodes[j] != fake && other.nodes[j] != RingNode(2);
      assert other.fake != fake && other.fake != RingNode(2);
      PopFront();
    }

    /** count times pop_front(), the second loop of operator=, leaving the other list other as it was. */
    method DropFront(count: nat, other: List<T>)
      requires Valid() && count <= |contents| && other.Valid() && other != this
      modifies this, fake, nodes
      ensures Valid() && contents == old(contents)[count..] && nodes == old(nodes)[count..]
      ensures other.Valid()
    {
      var j := 0;
      while j < count
        invariant j <= count && Valid() && other.Valid()
        invariant contents == old(contents)[j..] && nodes == old(nodes)[j..]
      {
        PopFrontBeside(other);
        j := j + 1;
      }
    }

    /**
     * operator=(other) with a self-assignment guard: other's elements are
     * appended, the sz old ones popped from the front, and the counter set
     * to other's.
     */
    method Assign(other: List<T>)
      requires Valid() && other.Valid()
      modifies this, fake, nodes
      ensures Valid() && contents == old(other.contents)
      ensures other.Valid() && other.contents == old(other.contents)
    {
      if other == this {
        return;
      }
      var sz := listSize;
      LinkAt(|nodes|);
      AppendAll(other);
      DropFront(sz, other);
      SetSize(other.listSize);
    }

    /** The closing listSize = other.listSize of operator=, which finds the counter already equal. */
    method SetSize(n: nat)
      requires Valid() && n == |contents|
      modifies this`listSize
      ensures Valid() && listSize == n
    {
      listSize := n;
    }

    /**
     * The first loop of operator= as written, with other being this list:
     * its bound other.listSize is read again after every push_back, which
     * has just raised it. The model runs at most fuel rounds and reports
     * whether the loop ended; it ends only for the empty list.
     */
    method SelfAssignAsWritten(fuel: nat) returns (finished: bool)
      requires Valid()
      modifies this, fake`prev, fake.prev`next
      ensures finished <==> |old(contents)| == 0
    {
      var otherIter := Begin();
      var i := 0;
      while i < listSize
        invariant i <= fuel && Valid() && listSize == |old(contents)| + i
        invariant Member(otherIter) && Position(otherIter) == i
        invariant fake.prev == old(fake.prev) || fresh(fake.prev)
        decreases fuel - i
      {
        if i == fuel {
          return false;
        }
        PushBack(otherIter.value);
        LinkAt(|nodes|);
        RingAt(i + 1);
        otherIter := Next(otherIter);
        i := i + 1;
      }
      return true;
    }
  }
}
