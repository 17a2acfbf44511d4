/**
 * The block deque of Deque.h.
 *
 * Elements live in blocks of 16 slots (BlockSize_); `pointers` is the array of
 * block pointers and the two iterators `beginIter` and `endIter` delimit the
 * elements. An iterator is a value, a block index (the offset of its block
 * pointer within `pointers`) and a slot within that block; `Pos` flattens it
 * to a slot number, and the iterator arithmetic is proved to move `Pos` by
 * exactly the requested amount. The class keeps a ghost `contents` sequence,
 * tied to the slots between the two iterators by `Valid`, and every
 * operation is proved against it.
 */
module DequeModel {
  import opened Wrappers
  import opened SeqEdits
  import BigIntegerModel

  // ---------------------------------------------------------------------------
  // CommonIterator as a value
  // ---------------------------------------------------------------------------

  /** block_ as an index into the block-pointer array, and indInBlock_. */
  datatype Iter = Iter(block: int, ind: int)

  /** Slot ind of block block, counting from slot 0 of block 0. */
  function Slot(block: int, ind: int): int
  {
    block * 16 + ind
  }

  /** The slot an iterator designates. */
  function Pos(it: Iter): int
  {
    Slot(it.block, it.ind)
  }

  /** indInBlock_ lies in [0, 16). */
  predicate InBlock(it: Iter)
  {
    0 <= it.ind < 16
  }

  /** operator++: the next slot, crossing into the next block after the last slot. */
  function Next(it: Iter): (r: Iter)
    ensures InBlock(it) ==> InBlock(r) && Pos(r) == Pos(it) + 1
  {
    if it.ind < 15 then Iter(it.block, it.ind + 1) else Iter(it.block + 1, 0)
  }

  /** operator--: the previous slot, crossing into the previous block before slot 0. */
  function Prev(it: Iter): (r: Iter)
    ensures InBlock(it) ==> InBlock(r) && Pos(r) == Pos(it) - 1
  {
    if it.ind > 0 then Iter(it.block, it.ind - 1) else Iter(it.block - 1, 15)
  }

  /**
   * operator+= and operator+ with an int: the slot index is added, then
   * split into blocks with C++'s truncating `/` and `%`, and a negative
   * remainder borrows one block.
   */
  function Advance(it: Iter, value: int): (r: Iter)
  {
    var v := value + it.ind;
    var b := it.block + BigIntegerModel.TruncDiv(v, 16);
    var w := BigIntegerModel.CRem(v, 16);
    if w < 0 then Iter(b - 1, w + 16) else Iter(b, w)
  }

  /** operator-= and operator- with an int. */
  function Retreat(it: Iter, value: int): (r: Iter)
  {
    Advance(it, -value)
  }

  /** operator- between iterators: the number of slots from other to it. */
  function Distance(it: Iter, other: Iter): (d: int)
    ensures d == Pos(it) - Pos(other)
  {
    (it.block - other.block) * 16 + it.ind - other.ind
  }

  /** operator==: the distance is zero. */
  predicate Same(it: Iter, other: Iter)
  {
    Distance(it, other) == 0
  }

  /** operator<=>: the sign of the distance. */
  function Compare(it: Iter, other: Iter): (c: int)
    ensures c < 0 <==> Pos(it) < Pos(other)
    ensures c == 0 <==> Pos(it) == Pos(other)
  {
    var d := Distance(it, other);
    if d < 0 then -1 else if d == 0 then 0 else 1
  }

  /** Truncating division and remainder by 16 rebuild the dividend. */
  lemma TruncSplit(v: int)
    ensures v == BigIntegerModel.TruncDiv(v, 16) * 16 + BigIntegerModel.CRem(v, 16)
    ensures -16 < BigIntegerModel.CRem(v, 16) < 16
  {
    if v < 0 {
      var q, r := (-v) / 16, (-v) % 16;
      assert -v == q * 16 + r;
    }
  }

  /** operator+= keeps indInBlock_ in range and moves the position by exactly value. */
  lemma AdvancePos(it: Iter, value: int)
    requires InBlock(it)
    ensures InBlock(Advance(it, value)) && Pos(Advance(it, value)) == Pos(it) + value
  {
    TruncSplit(value + it.ind);
  }

  /** (it + k) - it == k for every int k. */
  lemma DistanceOfAdvance(it: Iter, k: int)
    requires InBlock(it)
    ensures Distance(Advance(it, k), it) == k
  {
    AdvancePos(it, k);
  }

  /** Two in-range iterators at the same position are the same iterator. */
  lemma PosInjective(a: Iter, b: Iter)
    requires InBlock(a) && InBlock(b) && Pos(a) == Pos(b)
    ensures a == b
  {
  }

  /** Moving back by k undoes moving forward by k. */
  lemma RetreatUndoesAdvance(it: Iter, k: int)
    requires InBlock(it)
    ensures Retreat(Advance(it, k), k) == it
  {
    AdvancePos(it, k);
    AdvancePos(Advance(it, k), -k);
    PosInjective(Retreat(Advance(it, k), k), it);
  }

  /** ++ then -- is the identity, and so is -- then ++. */
  lemma NextPrev(it: Iter)
    requires InBlock(it)
    ensures Prev(Next(it)) == it && Next(Prev(it)) == it
  {
    PosInjective(Prev(Next(it)), it);
    PosInjective(Next(Prev(it)), it);
  }

  /** operator== on in-range iterators is equality of the pair. */
  lemma SameIsEqual(a: Iter, b: Iter)
    requires InBlock(a) && InBlock(b)
    ensures Same(a, b) <==> a == b
  {
    if Same(a, b) {
      PosInjective(a, b);
    }
  }

  /** Slot p of the flat numbering lies in block p / 16 at index p % 16. */
  lemma SlotOfIter(it: Iter)
    requires InBlock(it) && Pos(it) >= 0
    ensures it.block == Pos(it) / 16 && it.ind == Pos(it) % 16
  {
  }

  /** Shifting the slots by whole blocks shifts only the block index. */
  lemma ShiftSlot(p: int, left: int)
    requires p >= 0 && left >= 0
    ensures (16 * left + p) / 16 == left + p / 16
    ensures (16 * left + p) % 16 == p % 16
  {
  }

  /** n freshly allocated blocks of 16 slots, all different. */
  method FreshBlocks<T(0)>(n: nat) returns (blocks: seq<array<T>>)
    ensures |blocks| == n
    ensures forall b :: 0 <= b < n ==> fresh(blocks[b]) && blocks[b].Length == 16
    ensures forall b1, b2 :: 0 <= b1 < b2 < n ==> blocks[b1] != blocks[b2]
  {
    blocks := [];
    while |blocks| < n
      invariant |blocks| <= n
      invariant forall b :: 0 <= b < |blocks| ==> fresh(blocks[b]) && blocks[b].Length == 16
      invariant forall b1, b2 :: 0 <= b1 < b2 < |blocks| ==> blocks[b1] != blocks[b2]
    {
      var block := new T[16];
      blocks := blocks + [block];
    }
  }

  /** The iterator for slot number index once left blocks are put in front. */
  function Rebase(index: nat, left: nat): (r: Iter)
    ensures InBlock(r) && Pos(r) == index + 16 * left
  {
    Iter(left + index / 16, index % 16)
  }

  // ---------------------------------------------------------------------------
  // The blocks as values
  // ---------------------------------------------------------------------------

  /** The slot it designates in the block values cells. */
  function Cell<T>(cells: seq<seq<T>>, it: Iter): T
    requires 0 <= it.block < |cells| && 0 <= it.ind < |cells[it.block]|
  {
    cells[it.block][it.ind]
  }

  /** cells with the slot it designates replaced by v. */
  function Write<T>(cells: seq<seq<T>>, it: Iter, v: T): seq<seq<T>>
    requires 0 <= it.block < |cells| && 0 <= it.ind < |cells[it.block]|
  {
    cells[it.block := cells[it.block][it.ind := v]]
  }

  /**
   * The block values cells hold c between first and last: at least one
   * block, 16 slots per block, both iterators in range with first not past
   * last, and slot Pos(first) + k holding c[k].
   */
  ghost predicate Holds<T>(cells: seq<seq<T>>, first: Iter, last: Iter, c: seq<T>)
  {
    && |cells| >= 1
    && (forall b :: 0 <= b < |cells| ==> |cells[b]| == 16)
    && InBlock(first) && InBlock(last)
    && 0 <= Pos(first) <= Pos(last) < 16 * |cells|
    && |c| == Pos(last) - Pos(first)
    && forall b, i :: 0 <= b < |cells| && 0 <= i < 16 && Pos(first) <= Slot(b, i) < Pos(last) ==>
         cells[b][i] == c[Slot(b, i) - Pos(first)]
  }

  /** operator[] reads element k at begin + k. */
  lemma HoldsRead<T>(cells: seq<seq<T>>, first: Iter, last: Iter, c: seq<T>, k: nat)
    requires Holds(cells, first, last, c) && k < |c|
    ensures InBlock(Advance(first, k)) && 0 <= Advance(first, k).block < |cells|
    ensures Cell(cells, Advance(first, k)) == c[k]
  {
    var it := Advance(first, k);
    AdvancePos(first, k);
    assert Slot(it.block, it.ind) == Pos(first) + k;
  }

  /** Writing v at begin + k replaces element k and nothing else. */
  lemma HoldsWrite<T>(cells: seq<seq<T>>, first: Iter, last: Iter, c: seq<T>, k: nat, v: T)
    requires Holds(cells, first, last, c) && k < |c|
    ensures InBlock(Advance(first, k)) && 0 <= Advance(first, k).block < |cells|
    ensures Holds(Write(cells, Advance(first, k), v), first, last, c[k := v])
  {
    var it := Advance(first, k);
    AdvancePos(first, k);
    var cells' := Write(cells, it, v);
    forall b, i | 0 <= b < |cells'| && 0 <= i < 16 && Pos(first) <= Slot(b, i) < Pos(last)
      ensures cells'[b][i] == c[k := v][Slot(b, i) - Pos(first)]
    {
      if b == it.block && i == it.ind {
        assert Slot(b, i) - Pos(first) == k;
      } else {
        assert Slot(b, i) != Slot(it.block, it.ind);
      }
    }
  }

  /** push_back without reallocation: the slot at end takes v and end moves on. */
  lemma HoldsPushBack<T>(cells: seq<seq<T>>, first: Iter, last: Iter, c: seq<T>, v: T)
    requires Holds(cells, first, last, c) && Pos(last) + 1 < 16 * |cells|
    ensures 0 <= last.block < |cells|
    ensures Holds(Write(cells, last, v), first, Next(last), c + [v])
  {
    var cells' := Write(cells, last, v);
    forall b, i | 0 <= b < |cells'| && 0 <= i < 16 && Pos(first) <= Slot(b, i) < Pos(Next(last))
      ensures cells'[b][i] == (c + [v])[Slot(b, i) - Pos(first)]
    {
      if b == last.block && i == last.ind {
      } else {
        assert Slot(b, i) != Slot(last.block, last.ind);
      }
    }
  }

  /** push_front without reallocation: the slot before begin takes v and begin moves back. */
  lemma HoldsPushFront<T>(cells: seq<seq<T>>, first: Iter, last: Iter, c: seq<T>, v: T)
    requires Holds(cells, first, last, c) && Pos(first) > 0
    ensures 0 <= Prev(first).block < |cells|
    ensures Holds(Write(cells, Prev(first), v), Prev(first), last, [v] + c)
  {
    var it := Prev(first);
    var cells' := Write(cells, it, v);
    forall b, i | 0 <= b < |cells'| && 0 <= i < 16 && Pos(it) <= Slot(b, i) < Pos(last)
      ensures cells'[b][i] == ([v] + c)[Slot(b, i) - Pos(it)]
    {
      if b == it.block && i == it.ind {
      } else {
        assert Slot(b, i) != Slot(it.block, it.ind);
      }
    }
  }

  /** pop_back: end steps back over the last element. */
  lemma HoldsPopBack<T>(cells: seq<seq<T>>, first: Iter, last: Iter, c: seq<T>)
    requires Holds(cells, first, last, c) && |c| > 0
    ensures Holds(cells, first, Prev(last), c[..|c| - 1])
  {
  }

  /** pop_front: begin steps over the first element. */
  lemma HoldsPopFront<T>(cells: seq<seq<T>>, first: Iter, last: Iter, c: seq<T>)
    requires Holds(cells, first, last, c) && |c| > 0
    ensures Holds(cells, Next(first), last, c[1..])
  {
    forall b, i | 0 <= b < |cells| && 0 <= i < 16 && Pos(Next(first)) <= Slot(b, i) < Pos(last)
      ensures cells[b][i] == c[1..][Slot(b, i) - Pos(Next(first))]
    {
    }
  }

  /**
   * reserve's relocation: with the old blocks placed from block left on and
   * the iterators rebuilt 16 * left slots further, the same elements are
   * designated.
   */
  lemma HoldsShift<T>(cells: seq<seq<T>>, all: seq<seq<T>>, left: nat,
                      first: Iter, last: Iter, first': Iter, last': Iter, c: seq<T>)
    requires Holds(cells, first, last, c)
    requires left + |cells| <= |all| && all[left..left + |cells|] == cells
    requires forall b :: 0 <= b < |all| ==> |all[b]| == 16
    requires InBlock(first') && Pos(first') == Pos(first) + 16 * left
    requires InBlock(last') && Pos(last') == Pos(last) + 16 * left
    ensures Holds(all, first', last', c)
  {
    forall b, i | 0 <= b < |all| && 0 <= i < 16 && Pos(first') <= Slot(b, i) < Pos(last')
      ensures all[b][i] == c[Slot(b, i) - Pos(first')]
    {
      assert all[b] == cells[b - left];
      assert Slot(b - left, i) == Slot(b, i) - 16 * left;
    }
  }

  /** The slots before slot n hold the first n elements of c. */
  ghost predicate Prefix<T>(cells: seq<seq<T>>, c: seq<T>, n: int)
  {
    && n <= |c|
    && (forall b :: 0 <= b < |cells| ==> |cells[b]| == 16)
    && forall b, i :: 0 <= b < |cells| && 0 <= i < 16 && Slot(b, i) < n ==> cells[b][i] == c[Slot(b, i)]
  }

  /** Writing element n into slot n extends the prefix by one. */
  lemma PrefixStep<T>(cells: seq<seq<T>>, c: seq<T>, it: Iter)
    requires InBlock(it) && 0 <= it.block < |cells| && 0 <= Pos(it) < |c|
    requires Prefix(cells, c, Pos(it))
    ensures Prefix(Write(cells, it, c[Pos(it)]), c, Pos(it) + 1)
  {
    var cells' := Write(cells, it, c[Pos(it)]);
    forall b, i | 0 <= b < |cells'| && 0 <= i < 16 && Slot(b, i) < Pos(it) + 1
      ensures cells'[b][i] == c[Slot(b, i)]
    {
      if b != it.block || i != it.ind {
        assert Slot(b, i) != Slot(it.block, it.ind);
      }
    }
  }

  /** Once every element is in place, the blocks hold c from slot 0 up to last. */
  lemma PrefixHolds<T>(cells: seq<seq<T>>, c: seq<T>, last: Iter)
    requires Prefix(cells, c, |c|) && |cells| >= 1
    requires InBlock(last) && Pos(last) == |c| < 16 * |cells|
    ensures Holds(cells, Iter(0, 0), last, c)
  {
  }

  /** insert's loop step: copying element ind - 1 onto ind moves the hole one place left. */
  lemma InsertStep<T>(c: seq<T>, ind: nat, w: T, v: T := w)
    requires ind <= |c|
    ensures 0 < ind ==> Inserted(c, ind, w)[ind := c[ind - 1]] == Inserted(c, ind - 1, c[ind - 1])
    ensures Inserted(c, ind, w)[ind := v] == Inserted(c, ind, v)
  {
  }

  /** erase's loop state: c with element index erased in the first ind places and the rest not yet moved. */
  function ErasedUpTo<T>(c: seq<T>, index: nat, ind: nat): (s: seq<T>)
    requires index <= ind < |c|
    ensures |s| == |c|
  {
    Erased(c, index)[..ind] + c[ind..]
  }

  /** erase's loop starts from the elements themselves. */
  lemma EraseStart<T>(c: seq<T>, index: nat)
    requires index < |c|
    ensures ErasedUpTo(c, index, index) == c
  {
  }

  /** erase's loop step: copying element ind + 1 onto ind extends the erased prefix by one. */
  lemma EraseStep<T>(c: seq<T>, index: nat, ind: nat)
    requires index <= ind < |c| - 1
    ensures ErasedUpTo(c, index, ind)[ind := c[ind + 1]] == ErasedUpTo(c, index, ind + 1)
  {
  }

  /** At the end of erase's loop the last element is a spare copy. */
  lemma EraseLast<T>(c: seq<T>, index: nat)
    requires index < |c|
    ensures ErasedUpTo(c, index, |c| - 1)[..|c| - 1] == Erased(c, index)
  {
  }

  // ---------------------------------------------------------------------------
  // The blocks in the heap
  // ---------------------------------------------------------------------------

  /** A block array: cap blocks of 16 slots each, no block listed twice. */
  ghost predicate Shaped<T>(ptrs: seq<array<T>>, cap: nat)
  {
    && cap == |ptrs| >= 1
    && (forall b :: 0 <= b < cap ==> ptrs[b].Length == 16)
    && (forall b1, b2 :: 0 <= b1 < b2 < cap ==> ptrs[b1] != ptrs[b2])
  }

  /** The current values of the blocks. */
  ghost function Cells<T>(ptrs: seq<array<T>>): (cells: seq<seq<T>>)
    reads ptrs
    ensures |cells| == |ptrs|
  {
    seq(|ptrs|, b requires 0 <= b < |ptrs| reads ptrs => ptrs[b][..])
  }

  /** Blocks that sit inside a larger block array hold the same values there. */
  lemma CellsWithin<T>(ptrs: seq<array<T>>, inner: seq<array<T>>, left: nat)
    requires left + |inner| <= |ptrs| && ptrs[left..left + |inner|] == inner
    requires forall b :: 0 <= b < |ptrs| ==> ptrs[b].Length == 16
    ensures Cells(ptrs)[left..left + |inner|] == Cells(inner)
    ensures forall b :: 0 <= b < |ptrs| ==> |Cells(ptrs)[b]| == 16
  {
    forall b | 0 <= b < |inner|
      ensures Cells(ptrs)[left + b] == Cells(inner)[b]
    {
      assert ptrs[left + b] == inner[b];
    }
  }

  /** No block of ptrs is a block of others. */
  ghost predicate Apart<T>(ptrs: seq<array<T>>, others: seq<array<T>>)
  {
    forall b, j :: 0 <= b < |ptrs| && 0 <= j < |others| ==> ptrs[b] != others[j]
  }

  /** The error at() throws. */
  datatype DequeError = OutOfRange

  // ---------------------------------------------------------------------------
  // class Deque
  // ---------------------------------------------------------------------------

  /**
   * pointers_ is built whole (by create or reserve) and then only read, so it
   * is a sequence of block references here; the blocks are arrays written in
   * place.
   */
  class Deque<T(0)> {
    var capacity: nat
    var pointers: seq<array<T>>
    var beginIter: Iter
    var endIter: Iter
    ghost var contents: seq<T>

    /** The block array is well formed and its slots from begin to end hold the contents. */
    ghost predicate Valid()
      reads this, pointers
    {
      Shaped(pointers, capacity) && Holds(Cells(pointers), beginIter, endIter, contents)
    }

    /** Writes v into the slot it designates; no other slot changes. */
    method StoreAt(it: Iter, v: T)
      requires Shaped(pointers, capacity) && InBlock(it) && 0 <= it.block < capacity
      modifies pointers[it.block]
      ensures Cells(pointers) == Write(old(Cells(pointers)), it, v)
    {
      ghost var before := Cells(pointers);
      pointers[it.block][it.ind] := v;
      forall b | 0 <= b < capacity
        ensures Cells(pointers)[b] == Write(before, it, v)[b]
      {
        if b != it.block {
          assert pointers[b] != pointers[it.block];
        }
      }
    }

    /** size(): end minus begin. */
    function Size(): (n: nat)
      requires Valid()
      reads this, pointers
      ensures n == |contents|
    {
      Distance(endIter, beginIter)
    }

    /** operator[] for reading: the element at begin + index. */
    function Get(index: nat): (v: T)
      requires Valid() && index < |contents|
      reads this, pointers
      ensures v == contents[index]
    {
      var it := Advance(beginIter, index);
      HoldsRead(Cells(pointers), beginIter, endIter, contents, index);
      pointers[it.block][it.ind]
    }

    /** at(): like operator[], but out_of_range exactly when index >= size(). */
    function At(index: nat): (r: Result<T, DequeError>)
      requires Valid()
      reads this, pointers
      ensures r.Err? <==> index >= |contents|
      ensures r.Ok? ==> r.value == contents[index]
    {
      if index >= Size() then Err(OutOfRange) else Ok(Get(index))
    }

    /** operator[] for writing: replaces the element at begin + index. */
    method Set(index: nat, v: T)
      requires Valid() && index < |contents|
      modifies this, pointers
      ensures Valid() && contents == old(contents)[index := v]
      ensures capacity == old(capacity) && pointers == old(pointers)
      ensures beginIter == old(beginIter) && endIter == old(endIter)
    {
      var it := Advance(beginIter, index);
      HoldsWrite(Cells(pointers), beginIter, endIter, contents, index, v);
      ghost var cells := Write(Cells(pointers), it, v);
      StoreAt(it, v);
      contents := contents[index := v];
      assert Cells(pointers) == cells;
      assert Holds(cells, beginIter, endIter, contents);
    }

    /**
     * create(cnt): a fresh block for every entry; begin at slot 0 of the
     * first block and end at slot cnt % 16 of the last one, which is
     * slot cnt when capacity is (cnt + 16) / 16.
     */
    method Create(cnt: nat)
      requires capacity == (cnt + 16) / 16
      modifies this
      ensures Shaped(pointers, capacity) && capacity == old(capacity) && contents == old(contents)
      ensures forall b :: 0 <= b < capacity ==> fresh(pointers[b])
      ensures beginIter == Iter(0, 0) && InBlock(endIter) && Pos(endIter) == cnt
    {
      pointers := FreshBlocks(capacity);
      beginIter := Iter(0, 0);
      endIter := Iter(capacity - 1, cnt % 16);
    }

    /** Deque(): one block, no elements. */
    constructor ()
      ensures Valid() && contents == [] && capacity == 1
    {
      capacity := 1;
      contents := [];
      new;
      Create(0);
    }

    /**
     * Deque(cnt, value), and Deque(cnt) with value the value-initialised T:
     * enough blocks for cnt + 1 slots, each of the first cnt slots a copy of value.
     */
    constructor Filled(cnt: nat, value: T)
      ensures Valid() && contents == seq(cnt, _ => value)
      ensures capacity == (cnt + 16) / 16
    {
      capacity := (cnt + 16) / 16;
      contents := seq(cnt, _ => value);
      new;
      Create(cnt);
      var iter := beginIter;
      while !Same(iter, endIter)
        invariant Shaped(pointers, capacity) && capacity == (cnt + 16) / 16
        invariant InBlock(iter) && 0 <= Pos(iter) <= cnt
        invariant beginIter == Iter(0, 0) && InBlock(endIter) && Pos(endIter) == cnt
        invariant forall b :: 0 <= b < capacity ==> fresh(pointers[b])
        invariant contents == seq(cnt, _ => value)
        invariant Prefix(Cells(pointers), contents, Pos(iter))
        decreases cnt - Pos(iter)
      {
        ghost var cells := Write(Cells(pointers), iter, value);
        PrefixStep(Cells(pointers), contents, iter);
        StoreAt(iter, value);
        assert Cells(pointers) == cells;
        iter := Next(iter);
      }
      PrefixHolds(Cells(pointers), contents, endIter);
    }

    /** The copy constructor: the same elements in freshly allocated blocks. */
    constructor Copy(other: Deque<T>)
      requires other.Valid()
      ensures Valid() && contents == other.contents
    {
      var n := other.Size();
      capacity := (n + 16) / 16;
      contents := other.contents;
      new;
      Create(n);
      CopyFrom(other);
      PrefixHolds(Cells(pointers), contents, endIter);
    }

    /** The copy constructor's loop: each element of other is constructed in turn at the same position. */
    method CopyFrom(other: Deque<T>)
      requires Shaped(pointers, capacity) && other.Valid() && Apart(pointers, other.pointers)
      requires beginIter == Iter(0, 0) && |other.contents| < 16 * capacity
      modifies pointers
      ensures other.Valid() && Prefix(Cells(pointers), other.contents, |other.contents|)
    {
      var n := other.Size();
      var i := 0;
      while i < n
        invariant 0 <= i <= n
        invariant other.Valid() && Prefix(Cells(pointers), other.contents, i)
      {
        CopyAt(other, i);
        i := i + 1;
      }
    }

    /** One step of the copy constructor: element i of other is constructed at begin + i. */
    method CopyAt(other: Deque<T>, i: nat)
      requires Shaped(pointers, capacity) && other.Valid() && Apart(pointers, other.pointers)
      requires beginIter == Iter(0, 0) && i < |other.contents| < 16 * capacity
      requires Prefix(Cells(pointers), other.contents, i)
      modifies pointers[i / 16]
      ensures other.Valid() && Prefix(Cells(pointers), other.contents, i + 1)
    {
      var it := Advance(beginIter, i);
      AdvancePos(beginIter, i);
      var v := other.Get(i);
      ghost var cells := Write(Cells(pointers), it, v);
      PrefixStep(Cells(pointers), other.contents, it);
      StoreAt(it, v);
      assert Cells(pointers) == cells;
    }

    /** swap: exchanges the block arrays, capacities and iterators. */
    method Swap(other: Deque<T>)
      requires Valid() && other.Valid()
      modifies this, other
      ensures Valid() && other.Valid()
      ensures contents == old(other.contents) && other.contents == old(contents)
    {
      var p, k, b, e := pointers, capacity, beginIter, endIter;
      ghost var c := contents;
      var p', k', b', e' := other.pointers, other.capacity, other.beginIter, other.endIter;
      ghost var c' := other.contents;
      Install(p', k', b', e', c');
      other.Install(p, k, b, e, c);
    }

    /** operator=: copy and swap. */
    method Assign(other: Deque<T>)
      requires Valid() && other.Valid()
      modifies this
      ensures Valid() && contents == old(other.contents)
    {
      var copy := new Deque.Copy(other);
      Swap(copy);
    }

    /**
     * reserve(left, right): left more blocks in front and right more at the
     * back; the iterators are recomputed from their slot numbers, so every
     * element keeps its place in the order.
     */
    method Reserve(left: nat, right: nat)
      requires Valid()
      modifies this
      ensures Valid() && contents == old(contents) && capacity == old(capacity) + left + right
      ensures Pos(beginIter) == old(Pos(beginIter)) + 16 * left
      ensures Pos(endIter) == old(Pos(endIter)) + 16 * left
      ensures forall b :: 0 <= b < |pointers| ==> pointers[b] in old(pointers) || fresh(pointers[b])
    {
      var newBegin, newEnd := Repositioned(left);
      ghost var cells := Cells(pointers);
      var newPointers := Relocated(left, right);
      CellsWithin(newPointers, pointers, left);
      HoldsShift(cells, Cells(newPointers), left, beginIter, endIter, newBegin, newEnd, contents);
      Install(newPointers, capacity + left + right, newBegin, newEnd, contents);
    }

    /** The last step of reserve and swap: a block array, its iterators and the elements they hold replace the old ones. */
    method Install(ptrs: seq<array<T>>, cap: nat, first: Iter, last: Iter, ghost c: seq<T>)
      requires Shaped(ptrs, cap) && Holds(Cells(ptrs), first, last, c)
      modifies this
      ensures Valid() && contents == c
      ensures pointers == ptrs && capacity == cap && beginIter == first && endIter == last
    {
      ghost var cells := Cells(ptrs);
      pointers, capacity, beginIter, endIter, contents := ptrs, cap, first, last, c;
      assert Cells(pointers) == cells;
    }

    /** reserve's new iterators: the slot numbers of begin and end, counted from the new first block. */
    method Repositioned(left: nat) returns (newBegin: Iter, newEnd: Iter)
      requires Valid()
      ensures InBlock(newBegin) && Pos(newBegin) == Pos(beginIter) + 16 * left
      ensures InBlock(newEnd) && Pos(newEnd) == Pos(endIter) + 16 * left
    {
      var indexBegin := Distance(beginIter, Iter(0, 0));
      var indexEnd := indexBegin + Distance(endIter, beginIter);
      newBegin, newEnd := Rebase(indexBegin, left), Rebase(indexEnd, left);
    }

    /** reserve's new block array: left fresh blocks, the old blocks in order, right fresh blocks. */
    method Relocated(left: nat, right: nat) returns (ptrs: seq<array<T>>)
      requires Shaped(pointers, capacity)
      ensures Shaped(ptrs, left + capacity + right)
      ensures ptrs[left..left + capacity] == pointers
      ensures forall b :: 0 <= b < |ptrs| ==> ptrs[b] in pointers || fresh(ptrs[b])
    {
      var front := FreshBlocks(left);
      var back := FreshBlocks(right);
      ptrs := front + pointers + back;
      forall b1, b2 | 0 <= b1 < b2 < |ptrs|
        ensures ptrs[b1] != ptrs[b2]
      {
        if b2 < left {
          assert ptrs[b1] == front[b1] && ptrs[b2] == front[b2];
        } else if b2 < left + capacity {
          assert ptrs[b2] == pointers[b2 - left];
          if left <= b1 {
            assert ptrs[b1] == pointers[b1 - left];
          }
        } else {
          assert ptrs[b2] == back[b2 - left - capacity];
          if b1 < left {
            assert ptrs[b1] == front[b1];
          } else if b1 < left + capacity {
            assert ptrs[b1] == pointers[b1 - left];
          }
        }
      }
    }

    /** push_back: doubles the blocks on the right when end sits in the last slot. */
    method PushBack(value: T)
      requires Valid()
      modifies this, pointers
      ensures Valid() && contents == old(contents) + [value]
      ensures capacity == if Same(old(endIter), Iter(old(capacity) - 1, 15)) then 2 * old(capacity) else old(capacity)
      ensures forall b :: 0 <= b < |pointers| ==> pointers[b] in old(pointers) || fresh(pointers[b])
    {
      if Same(endIter, Iter(capacity - 1, 15)) {
        Reserve(0, capacity);
      }
      StoreBack(value);
    }

    /** push_back once end has a free slot after it: construct value at end and step end. */
    method StoreBack(value: T)
      requires Valid() && Pos(endIter) + 1 < 16 * capacity
      modifies this, pointers
      ensures Valid() && contents == old(contents) + [value]
      ensures capacity == old(capacity) && pointers == old(pointers)
    {
      HoldsPushBack(Cells(pointers), beginIter, endIter, contents, value);
      ghost var cells := Write(Cells(pointers), endIter, value);
      StoreAt(endIter, value);
      endIter := Next(endIter);
      contents := contents + [value];
      assert Cells(pointers) == cells;
      assert Holds(cells, beginIter, endIter, contents);
    }

    /** push_front: doubles the blocks on the left when begin sits in slot 0. */
    method PushFront(value: T)
      requires Valid()
      modifies this, pointers
      ensures Valid() && contents == [value] + old(contents)
      ensures capacity == if Same(old(beginIter), Iter(0, 0)) then 2 * old(capacity) else old(capacity)
      ensures forall b :: 0 <= b < |pointers| ==> pointers[b] in old(pointers) || fresh(pointers[b])
    {
      if Same(beginIter, Iter(0, 0)) {
        Reserve(capacity, 0);
      }
      StoreFront(value);
    }

    /** push_front once begin has a free slot before it: construct value at begin - 1 and step begin back. */
    method StoreFront(value: T)
      requires Valid() && !Same(beginIter, Iter(0, 0))
      modifies this, pointers
      ensures Valid() && contents == [value] + old(contents)
      ensures capacity == old(capacity) && pointers == old(pointers)
    {
      var it := Retreat(beginIter, 1);
      AdvancePos(beginIter, -1);
      PosInjective(it, Prev(beginIter));
      HoldsPushFront(Cells(pointers), beginIter, endIter, contents, value);
      ghost var cells := Write(Cells(pointers), it, value);
      StoreAt(it, value);
      beginIter := Prev(beginIter);
      contents := [value] + contents;
      assert Cells(pointers) == cells;
      assert Holds(cells, beginIter, endIter, contents);
    }

    /** pop_back: end steps back over the last element. */
    method PopBack()
      requires Valid() && |contents| > 0
      modifies this
      ensures Valid() && contents == old(contents)[..|old(contents)| - 1]
      ensures capacity == old(capacity) && pointers == old(pointers)
    {
      HoldsPopBack(Cells(pointers), beginIter, endIter, contents);
      endIter := Prev(endIter);
      contents := contents[..|contents| - 1];
    }

    /** pop_front: begin steps over the first element. */
    method PopFront()
      requires Valid() && |contents| > 0
      modifies this
      ensures Valid() && contents == old(contents)[1..]
      ensures capacity == old(capacity) && pointers == old(pointers)
    {
      HoldsPopFront(Cells(pointers), beginIter, endIter, contents);
      beginIter := Next(beginIter);
      contents := contents[1..];
    }

    /**
     * insert(iter, value): push_back, then shift the elements from iter's
     * index on one place right and store value at that index.
     */
    method Insert(iter: Iter, value: T)
      requires Valid() && InBlock(iter) && Pos(beginIter) <= Pos(iter) <= Pos(endIter)
      modifies this, pointers
      ensures Valid() && contents == Inserted(old(contents), old(Pos(iter) - Pos(beginIter)), value)
      ensures forall b :: 0 <= b < |pointers| ==> pointers[b] in old(pointers) || fresh(pointers[b])
    {
      var index := Distance(iter, beginIter);
      ghost var c := contents;
      assert 0 <= index <= |c|;
      PushBack(value);
      ShiftRight(index, value, c);
    }

    /** insert's loop: the last element (value, just pushed) travels left to index. */
    method ShiftRight(index: nat, value: T, ghost c: seq<T>)
      requires Valid() && index <= |c| && contents == c + [value]
      modifies this, pointers
      ensures Valid() && contents == Inserted(c, index, value)
      ensures pointers == old(pointers)
    {
      var ind := Size() - 1;
      ghost var w := value;
      assert contents == Inserted(c, ind, w);
      while ind != index
        invariant index <= ind <= |c| && Valid() && pointers == old(pointers)
        invariant contents == Inserted(c, ind, w)
        decreases ind
      {
        InsertStep(c, ind, w);
        Set(ind, Get(ind - 1));
        ind, w := ind - 1, c[ind - 1];
      }
      InsertStep(c, index, w, value);
      Set(index, value);
    }

    /**
     * erase(iter): shift the elements after iter one place left, then
     * pop_back.
     */
    method Erase(iter: Iter)
      requires Valid() && InBlock(iter) && Pos(beginIter) <= Pos(iter) < Pos(endIter)
      modifies this, pointers
      ensures Valid() && contents == Erased(old(contents), old(Pos(iter) - Pos(beginIter)))
      ensures pointers == old(pointers) && capacity == old(capacity)
    {
      var index := Distance(iter, beginIter);
      ghost var c := contents;
      ShiftLeft(index);
      EraseLast(c, index);
      PopBack();
    }

    /** erase's loop: the elements after index move one place left; the last slot keeps a spare copy. */
    method ShiftLeft(index: nat)
      requires Valid() && index < |contents|
      modifies this, pointers
      ensures Valid() && contents == ErasedUpTo(old(contents), index, |old(contents)| - 1)
      ensures pointers == old(pointers) && capacity == old(capacity)
    {
      ghost var c := contents;
      var ind := index;
      EraseStart(c, index);
      while ind != Size() - 1
        invariant index <= ind < |c| && Valid()
        invariant capacity == old(capacity) && pointers == old(pointers)
        invariant contents == ErasedUpTo(c, index, ind)
        decreases |c| - ind
      {
        MoveDown(ind, index, c);
        ind := ind + 1;
      }
    }

    /** One step of erase's loop: the element at ind + 1 is copied to ind. */
    method MoveDown(ind: nat, ghost index: nat, ghost c: seq<T>)
      requires Valid() && index <= ind && ind + 1 < |c| == |contents|
      requires contents == ErasedUpTo(c, index, ind)
      modifies this, pointers
      ensures Valid() && contents == ErasedUpTo(c, index, ind + 1)
      ensures capacity == old(capacity) && pointers == old(pointers)
    {
      EraseStep(c, index, ind);
      Set(ind, Get(ind + 1));
    }
  }
}
