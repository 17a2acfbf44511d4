/**
 * The bucket structure of the hash map in Unordered_map.h, on plain
 * sequences: hs[i] is the bucket of the entry at position i of the entry
 * list, and heads[b] the position of bucket b's first entry, or |hs| (the
 * list's end()) when the bucket is empty.
 *
 * A list node in the source stays where it is when another node is linked
 * in or out; a position does not, so the heads move with the entries
 * (Shifted, Unshifted).
 */
module BucketChains {
  import opened SeqEdits

  /** Every entry's bucket exists. */
  ghost predicate BucketsExist(hs: seq<nat>, n: nat)
  {
    forall i :: 0 <= i < |hs| ==> hs[i] < n
  }

  /** Every head is a position of the list or end(). */
  ghost predicate HeadsInRange(hs: seq<nat>, heads: seq<nat>)
  {
    forall b :: 0 <= b < |heads| ==> heads[b] <= |hs|
  }

  /** A head that is not end() holds an entry of its own bucket. */
  ghost predicate HeadsHold(hs: seq<nat>, heads: seq<nat>)
  {
    forall b :: 0 <= b < |heads| && heads[b] < |hs| ==> hs[heads[b]] == b
  }

  /** No entry of a bucket comes before the bucket's head. */
  ghost predicate HeadsFirst(hs: seq<nat>, heads: seq<nat>)
    requires BucketsExist(hs, |heads|)
  {
    forall i :: 0 <= i < |hs| ==> heads[hs[i]] <= i
  }

  /** An entry that is not its bucket's head follows an entry of the same bucket. */
  ghost predicate RunsLinked(hs: seq<nat>, heads: seq<nat>)
    requires BucketsExist(hs, |heads|)
  {
    forall i :: 0 <= i < |hs| && heads[hs[i]] != i ==> 0 < i && hs[i - 1] == hs[i]
  }

  /** The bucket invariant of the hash map. */
  ghost predicate Chained(hs: seq<nat>, heads: seq<nat>)
  {
    && BucketsExist(hs, |heads|)
    && HeadsInRange(hs, heads)
    && HeadsHold(hs, heads)
    && HeadsFirst(hs, heads)
    && RunsLinked(hs, heads)
  }

  /** With no entries, every bucket's head is end(). */
  lemma EmptyChained(heads: seq<nat>)
    requires forall b :: 0 <= b < |heads| ==> heads[b] == 0
    ensures Chained([], heads)
  {
  }

  /** Every entry between a bucket's head and an entry of that bucket is of that bucket too. */
  lemma {:induction false} Contiguous(hs: seq<nat>, heads: seq<nat>, i: nat, j: nat)
    requires Chained(hs, heads) && j <= i < |hs| && heads[hs[i]] <= j
    ensures hs[j] == hs[i]
    decreases i - j
  {
    if j < i {
      assert hs[i - 1] == hs[i];
      Contiguous(hs, heads, i - 1, j);
    }
  }

  /**
   * A walk that starts at the head of bucket h and has passed only entries
   * of h has passed all of them once it reaches end() or an entry of
   * another bucket: find's loop may stop there.
   */
  lemma RunEnds(hs: seq<nat>, heads: seq<nat>, h: nat, iter: nat)
    requires Chained(hs, heads) && h < |heads| && heads[h] <= iter <= |hs|
    requires iter == |hs| || hs[iter] != h
    ensures forall i :: 0 <= i < |hs| && hs[i] == h ==> i < iter
  {
    forall i | 0 <= i < |hs| && hs[i] == h
      ensures i < iter
    {
      if iter <= i {
        Contiguous(hs, heads, i, iter);
      }
    }
  }

  /** The heads after an entry is linked in at position p: heads at or after p move one on. */
  function Shifted(heads: seq<nat>, p: nat): (r: seq<nat>)
    ensures |r| == |heads|
    ensures forall b :: 0 <= b < |heads| ==> r[b] == if heads[b] >= p then heads[b] + 1 else heads[b]
  {
    seq(|heads|, b requires 0 <= b < |heads| => if heads[b] >= p then heads[b] + 1 else heads[b])
  }

  /** The heads after the entry at position p is unlinked: heads after p move one back. */
  function Unshifted(heads: seq<nat>, p: nat): (r: seq<nat>)
    ensures |r| == |heads|
    ensures forall b :: 0 <= b < |heads| ==> r[b] == if heads[b] > p then heads[b] - 1 else heads[b]
  {
    seq(|heads|, b requires 0 <= b < |heads| => if heads[b] > p then heads[b] - 1 else heads[b])
  }

  /**
   * The heads after emplace links an entry of bucket h in before h's head
   * (at end() when h is empty) and makes it the head.
   */
  function InsertedHeads(heads: seq<nat>, h: nat): (r: seq<nat>)
    requires h < |heads|
    ensures |r| == |heads| && r[h] == heads[h]
  {
    Shifted(heads, heads[h])[h := heads[h]]
  }

  lemma InsertKeepsHeadsHold(hs: seq<nat>, heads: seq<nat>, h: nat)
    requires Chained(hs, heads) && h < |heads|
    ensures HeadsHold(Inserted(hs, heads[h], h), InsertedHeads(heads, h))
  {
    var p := heads[h];
    var hs', heads' := Inserted(hs, p, h), InsertedHeads(heads, h);
    forall b | 0 <= b < |heads'| && heads'[b] < |hs'|
      ensures hs'[heads'[b]] == b
    {
      if b != h && heads[b] >= p {
        assert hs'[heads[b] + 1] == hs[heads[b]];
      }
    }
  }

  lemma InsertKeepsHeadsFirst(hs: seq<nat>, heads: seq<nat>, h: nat)
    requires Chained(hs, heads) && h < |heads|
    requires BucketsExist(Inserted(hs, heads[h], h), |heads|)
    ensures HeadsFirst(Inserted(hs, heads[h], h), InsertedHeads(heads, h))
  {
    var p := heads[h];
    var hs', heads' := Inserted(hs, p, h), InsertedHeads(heads, h);
    forall i | 0 <= i < |hs'|
      ensures heads'[hs'[i]] <= i
    {
      if i > p {
        assert hs'[i] == hs[i - 1];
      }
    }
  }

  lemma InsertKeepsRunsLinked(hs: seq<nat>, heads: seq<nat>, h: nat)
    requires Chained(hs, heads) && h < |heads|
    requires BucketsExist(Inserted(hs, heads[h], h), |heads|)
    ensures RunsLinked(Inserted(hs, heads[h], h), InsertedHeads(heads, h))
  {
    var p := heads[h];
    var hs', heads' := Inserted(hs, p, h), InsertedHeads(heads, h);
    forall i | 0 <= i < |hs'| && heads'[hs'[i]] != i
      ensures 0 < i && hs'[i - 1] == hs'[i]
    {
      if i == p + 1 {
        assert hs'[i] == hs[p] == h;
      } else if i > p + 1 {
        assert hs'[i] == hs[i - 1] && hs'[i - 1] == hs[i - 2];
      }
    }
  }

  /**
   * emplace's linking keeps the bucket invariant: the entry of bucket h
   * goes in at h's head and becomes the head.
   */
  lemma InsertKeepsChained(hs: seq<nat>, heads: seq<nat>, h: nat)
    requires Chained(hs, heads) && h < |heads|
    ensures Chained(Inserted(hs, heads[h], h), InsertedHeads(heads, h))
  {
    var hs' := Inserted(hs, heads[h], h);
    assert BucketsExist(hs', |heads|);
    InsertKeepsHeadsHold(hs, heads, h);
    InsertKeepsHeadsFirst(hs, heads, h);
    InsertKeepsRunsLinked(hs, heads, h);
  }

  /**
   * The new head of the erased entry's bucket: unchanged when another entry
   * was its head, else the next entry when that one is of the same bucket,
   * else end().
   */
  function HeadAfterErase(hs: seq<nat>, heads: seq<nat>, p: nat): (r: nat)
    requires p < |hs| && hs[p] < |heads|
    ensures heads[hs[p]] != p ==> r == heads[hs[p]]
    ensures heads[hs[p]] == p ==> r == p + 1 || r == |hs|
  {
    var h := hs[p];
    if heads[h] != p then heads[h]
    else if p + 1 != |hs| && hs[p + 1] == h then p + 1
    else |hs|
  }

  /** The heads after erase unlinks the entry at position p. */
  function ErasedHeads(hs: seq<nat>, heads: seq<nat>, p: nat): (r: seq<nat>)
    requires p < |hs| && hs[p] < |heads|
    ensures |r| == |heads|
  {
    Unshifted(heads[hs[p] := HeadAfterErase(hs, heads, p)], p)
  }

  lemma EraseKeepsHeadsHold(hs: seq<nat>, heads: seq<nat>, p: nat)
    requires Chained(hs, heads) && p < |hs|
    ensures HeadsHold(Erased(hs, p), ErasedHeads(hs, heads, p))
  {
    var h := hs[p];
    var hs', heads' := Erased(hs, p), ErasedHeads(hs, heads, p);
    forall b | 0 <= b < |heads'| && heads'[b] < |hs'|
      ensures hs'[heads'[b]] == b
    {
      if b == h && heads[h] == p {
        assert hs'[p] == hs[p + 1];
      } else if heads[b] > p {
        assert hs'[heads[b] - 1] == hs[heads[b]];
      }
    }
  }

  lemma EraseKeepsHeadsFirst(hs: seq<nat>, heads: seq<nat>, p: nat)
    requires Chained(hs, heads) && p < |hs|
    requires BucketsExist(Erased(hs, p), |heads|)
    ensures HeadsFirst(Erased(hs, p), ErasedHeads(hs, heads, p))
  {
    var h := hs[p];
    var hs', heads' := Erased(hs, p), ErasedHeads(hs, heads, p);
    forall i | 0 <= i < |hs'|
      ensures heads'[hs'[i]] <= i
    {
      if i >= p {
        assert hs'[i] == hs[i + 1];
        if hs[i + 1] == h && heads[h] == p {
          Contiguous(hs, heads, i + 1, p + 1);
        }
      }
    }
  }

  lemma EraseKeepsRunsLinked(hs: seq<nat>, heads: seq<nat>, p: nat)
    requires Chained(hs, heads) && p < |hs|
    requires BucketsExist(Erased(hs, p), |heads|)
    ensures RunsLinked(Erased(hs, p), ErasedHeads(hs, heads, p))
  {
    var h := hs[p];
    var hs', heads' := Erased(hs, p), ErasedHeads(hs, heads, p);
    forall i | 0 <= i < |hs'| && heads'[hs'[i]] != i
      ensures 0 < i && hs'[i - 1] == hs'[i]
    {
      if i == p {
        assert hs'[p] == hs[p + 1];
        assert heads[hs[p + 1]] != p + 1;
        assert hs[p] == hs[p + 1];
        assert heads[h] != p;
      } else if i > p {
        assert hs'[i] == hs[i + 1] && hs'[i - 1] == hs[i];
      }
    }
  }

  /** erase keeps the bucket invariant, the erased entry's bucket taking its head from HeadAfterErase. */
  lemma EraseKeepsChained(hs: seq<nat>, heads: seq<nat>, p: nat)
    requires Chained(hs, heads) && p < |hs|
    ensures Chained(Erased(hs, p), ErasedHeads(hs, heads, p))
  {
    assert BucketsExist(Erased(hs, p), |heads|);
    EraseKeepsHeadsHold(hs, heads, p);
    EraseKeepsHeadsFirst(hs, heads, p);
    EraseKeepsRunsLinked(hs, heads, p);
  }
}
