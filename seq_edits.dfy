/**
 * Positional edits of a sequence, the element-level meaning of insert and
 * erase in the deque, the list and the hash map.
 */
module SeqEdits {

  /** The sequence insert produces: v placed before element index. */
  function Inserted<T>(c: seq<T>, index: nat, v: T): (r: seq<T>)
    requires index <= |c|
    ensures |r| == |c| + 1 && r[index] == v
    ensures forall k :: 0 <= k < index ==> r[k] == c[k]
    ensures forall k :: index < k <= |c| ==> r[k] == c[k - 1]
  {
    c[..index] + [v] + c[index..]
  }

  /** The sequence erase produces: element index removed. */
  function Erased<T>(c: seq<T>, index: nat): (r: seq<T>)
    requires index < |c|
    ensures |r| == |c| - 1
    ensures forall k :: 0 <= k < index ==> r[k] == c[k]
    ensures forall k :: index <= k < |r| ==> r[k] == c[k + 1]
  {
    c[..index] + c[index + 1..]
  }

  /** erase undoes insert at the same index. */
  lemma EraseInserted<T>(c: seq<T>, index: nat, v: T)
    requires index <= |c|
    ensures Erased(Inserted(c, index, v), index) == c
  {
    assert Inserted(c, index, v)[..index] == c[..index];
    assert Inserted(c, index, v)[index + 1..] == c[index..];
  }

  /** insert puts back the element erase took out. */
  lemma InsertErased<T>(c: seq<T>, index: nat)
    requires index < |c|
    ensures Inserted(Erased(c, index), index, c[index]) == c
  {
    assert Erased(c, index)[..index] == c[..index];
    assert Erased(c, index)[index..] == c[index + 1..];
  }
}
