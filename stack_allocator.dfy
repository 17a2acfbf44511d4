/**
 * StackStorage and StackAllocator of List.h: a bump allocator over a
 * fixed buffer of N bytes. Addresses are naturals; the buffer starts at
 * address base. An allocator for element type T is described by the two
 * numbers it uses from T, alignof(T) and sizeof(T).
 */
module StackAllocatorModel {
  import opened Wrappers
  import Limbs

  /** 2^64, the number of size_t values. */
  const SizeModulus: nat := 0x1_0000_0000_0000_0000

  /** a - b in size_t arithmetic: the difference modulo 2^64. */
  function SizeSub(a: nat, b: nat): (d: nat)
    ensures d < SizeModulus
    ensures b <= a < b + SizeModulus ==> d == a - b
    ensures a < b <= a + SizeModulus ==> d == a + SizeModulus - b
  {
    if b <= a < b + SizeModulus then
      Limbs.DivModUnique(a - b, SizeModulus, 0, a - b);
      (a - b) % SizeModulus
    else if a < b <= a + SizeModulus then
      Limbs.DivModUnique(a - b, SizeModulus, -1, a + SizeModulus - b);
      (a - b) % SizeModulus
    else
      (a - b) % SizeModulus
  }

  /** cnt * sizeof(T): the bytes of an array of cnt elements. */
  function ArrayBytes(cnt: nat, size: nat): nat
  {
    cnt * size
  }

  /** The first multiple of alignment at or after p. */
  function RoundUp(p: nat, alignment: nat): (r: nat)
    requires alignment > 0
    ensures r % alignment == 0 && p <= r < p + alignment
  {
    var m := p % alignment;
    if m == 0 then p
    else
      Limbs.DivModUnique(p + (alignment - m), alignment, p / alignment + 1, 0);
      p + (alignment - m)
  }

  /** Two multiples of alignment less than alignment apart are equal. */
  lemma MultiplesApart(q: nat, r: nat, alignment: nat)
    requires alignment > 0 && q % alignment == 0 && r % alignment == 0 && q <= r < q + alignment
    ensures q == r
  {
    var x, y := q / alignment, r / alignment;
    assert q == alignment * x && r == alignment * y;
    if x < y {
      Limbs.MulMonotone(alignment, x + 1, y);
      assert false;
    } else if y < x {
      Limbs.MulMonotone(alignment, y + 1, x);
      assert false;
    }
  }

  /** No multiple of alignment lies between p and RoundUp(p, alignment). */
  lemma RoundUpLeast(p: nat, alignment: nat, q: nat)
    requires alignment > 0 && p <= q && q % alignment == 0
    ensures RoundUp(p, alignment) <= q
  {
    var r := RoundUp(p, alignment);
    if q < r {
      MultiplesApart(q, r, alignment);
    }
  }

  /**
   * std::align(alignment, size, ptr, space): the first address at or after
   * ptr that is a multiple of alignment, if size bytes from there still lie
   * within the space bytes from ptr; None (nullptr, ptr untouched) otherwise.
   */
  function Align(alignment: nat, size: nat, ptr: nat, space: nat): (r: Option<nat>)
    requires alignment > 0
    ensures r.Some? ==> r.value % alignment == 0 && ptr <= r.value < ptr + alignment && r.value + size <= ptr + space
    ensures r.None? ==> forall q :: ptr <= q && q % alignment == 0 ==> q + size > ptr + space
  {
    var aligned := RoundUp(ptr, alignment);
    assert forall q :: ptr <= q && q % alignment == 0 ==> aligned <= q by {
      forall q | ptr <= q && q % alignment == 0 {
        RoundUpLeast(ptr, alignment, q);
      }
    }
    if aligned + size <= ptr + space then Some(aligned) else None
  }

  /** The result of one allocation: the address handed out and the new top. */
  datatype Grant = Grant(address: nat, top: nat)

  /**
   * allocate(cnt) as written: copy_top is aligned by std::align for one
   * element, within the N - top bytes left (a size_t subtraction, which
   * wraps once top has passed N), but top advances by cnt * sizeof(T) from
   * its old value, without the padding std::align skipped and without any
   * check that the block fits.
   */
  function PlacementAsWritten(base: nat, capacity: nat, top: nat, alignment: nat, size: nat, cnt: nat): (g: Grant)
    requires alignment > 0
    ensures g.top == top + ArrayBytes(cnt, size)
    ensures base + top <= g.address < base + top + alignment
  {
    var last := SizeSub(capacity, top);
    var start := base + top;
    match Align(alignment, size, start, last)
    case Some(p) => Grant(p, top + ArrayBytes(cnt, size))
    case None => Grant(start, top + ArrayBytes(cnt, size))
  }

  /**
   * Three allocations from an empty 16-byte buffer: a char, an int
   * (alignment 4, size 4) and a char. The int is placed at 4 but top only
   * moves to 5, so the second char is placed at 5, inside the int.
   */
  lemma AsWrittenOverlap()
    ensures var first := PlacementAsWritten(0, 16, 0, 1, 1, 1);
            var second := PlacementAsWritten(0, 16, first.top, 4, 4, 1);
            var third := PlacementAsWritten(0, 16, second.top, 1, 1, 1);
            second.address == 4 && third.address == 5 && second.address <= third.address < second.address + 4
  {
    var first := PlacementAsWritten(0, 16, 0, 1, 1, 1);
    assert first == Grant(0, 1);
    var second := PlacementAsWritten(0, 16, first.top, 4, 4, 1);
    assert RoundUp(1, 4) == 4;
    assert second == Grant(4, 5);
  }

  /**
   * allocate(cnt) as evidently intended: the block starts at the first
   * suitably aligned address at or after the top, top moves past the
   * padding and the whole block, and a block that does not fit in the
   * buffer is refused (std::bad_alloc) with top unchanged.
   */
  function Placement(base: nat, capacity: nat, top: nat, alignment: nat, bytes: nat): (r: Option<Grant>)
    requires alignment > 0 && top <= capacity
    ensures r.Some? ==> var g := r.value;
      && g.address % alignment == 0
      && base + top <= g.address
      && g.address + bytes == base + g.top
      && g.top <= capacity
    ensures r.None? ==> forall q :: base + top <= q && q % alignment == 0 ==> q + bytes > base + capacity
  {
    var start := RoundUp(base + top, alignment);
    assert forall q :: base + top <= q && q % alignment == 0 ==> start <= q by {
      forall q | base + top <= q && q % alignment == 0 {
        RoundUpLeast(base + top, alignment, q);
      }
    }
    if start + bytes <= base + capacity then Some(Grant(start, start + bytes - base)) else None
  }

  /** One allocation request: alignof(T), sizeof(T) and the element count. */
  datatype Request = Request(alignment: nat, size: nat, cnt: nat)
  {
    /** cnt * sizeof(T), the bytes the request asks for. */
    function Bytes(): nat
    {
      ArrayBytes(cnt, size)
    }
  }

  /** The blocks [address, address + bytes) granted to a series of requests, refused ones omitted. */
  datatype Block = Block(address: nat, bytes: nat)

  /** Serves the requests in order from top, as the corrected allocate does. */
  function Serve(base: nat, capacity: nat, top: nat, requests: seq<Request>): (blocks: seq<Block>)
    requires top <= capacity
    requires forall i :: 0 <= i < |requests| ==> requests[i].alignment > 0
    ensures forall i :: 0 <= i < |blocks| ==> base + top <= blocks[i].address && blocks[i].address + blocks[i].bytes <= base + capacity
    decreases |requests|
  {
    if requests == [] then []
    else
      var q := requests[0];
      match Placement(base, capacity, top, q.alignment, q.Bytes())
      case None => Serve(base, capacity, top, requests[1..])
      case Some(g) => [Block(g.address, q.Bytes())] + Serve(base, capacity, g.top, requests[1..])
  }

  /** Each block ends at or before the start of every later one, so no two overlap. */
  ghost predicate InOrder(blocks: seq<Block>)
  {
    forall i, j :: 0 <= i < j < |blocks| ==> blocks[i].address + blocks[i].bytes <= blocks[j].address
  }

  /** Blocks handed out by the corrected allocate never overlap: each ends before the next begins. */
  lemma {:induction false} ServeDisjoint(base: nat, capacity: nat, top: nat, requests: seq<Request>)
    requires top <= capacity
    requires forall i :: 0 <= i < |requests| ==> requests[i].alignment > 0
    ensures InOrder(Serve(base, capacity, top, requests))
    decreases |requests|
  {
    if requests != [] {
      var q, rest := requests[0], requests[1..];
      match Placement(base, capacity, top, q.alignment, q.Bytes())
      case None =>
        ServeDisjoint(base, capacity, top, rest);
        assert Serve(base, capacity, top, requests) == Serve(base, capacity, top, rest);
      case Some(g) =>
        ServeDisjoint(base, capacity, g.top, rest);
        var tail := Serve(base, capacity, g.top, rest);
        var blocks := [Block(g.address, q.Bytes())] + tail;
        assert Serve(base, capacity, top, requests) == blocks;
        assert g.address + q.Bytes() == base + g.top;
        forall i, j | 0 <= i < j < |blocks|
          ensures blocks[i].address + blocks[i].bytes <= blocks[j].address
        {
          assert blocks[j] == tail[j - 1];
          assert base + g.top <= tail[j - 1].address;
          if i > 0 {
            assert blocks[i] == tail[i - 1];
            assert tail[i - 1].address + tail[i - 1].bytes <= tail[j - 1].address;
          }
        }
    }
  }

  /** StackStorage<N>: the buffer of capacity bytes at address base and the offset top of its first free byte. */
  class StackStorage {
    const capacity: nat
    const base: nat
    var top: nat

    constructor (n: nat, address: nat)
      ensures capacity == n && base == address && top == 0
    {
      capacity := n;
      base := address;
      top := 0;
    }
  }

  /** StackAllocator<T, N>: a pointer to a StackStorage (null when default-constructed) and T's alignment and size. */
  class StackAllocator {
    var storage: StackStorage?
    const alignment: nat
    const size: nat

    /** StackAllocator(): no storage. */
    constructor Default(alignment: nat, size: nat)
      requires alignment > 0
      ensures storage == null && this.alignment == alignment && this.size == size
    {
      storage := null;
      this.alignment := alignment;
      this.size := size;
    }

    /** StackAllocator(StackStorage&): allocates from stackStorage. */
    constructor (stackStorage: StackStorage, alignment: nat, size: nat)
      requires alignment > 0
      ensures storage == stackStorage && this.alignment == alignment && this.size == size
    {
      storage := stackStorage;
      this.alignment := alignment;
      this.size := size;
    }

    /** The converting copy (rebind to another element type): same storage, the new type's alignment and size. */
    constructor Rebind(other: StackAllocator, alignment: nat, size: nat)
      requires alignment > 0
      ensures storage == other.storage && Equal(other)
      ensures this.alignment == alignment && this.size == size
    {
      storage := other.storage;
      this.alignment := alignment;
      this.size := size;
    }

    /** operator==: two allocators are equal when they allocate from the same storage. */
    predicate Equal(other: StackAllocator)
      reads this, other
    {
      storage == other.storage
    }

    /** operator=: takes other's storage. */
    method Assign(other: StackAllocator)
      modifies this`storage
      ensures storage == other.storage && Equal(other)
    {
      storage := other.storage;
    }

    /** allocate(cnt) as written (see PlacementAsWritten). */
    method AllocateAsWritten(cnt: nat) returns (address: nat)
      requires storage != null && alignment > 0
      modifies storage
      ensures Grant(address, storage.top) == PlacementAsWritten(storage.base, storage.capacity, old(storage.top), alignment, size, cnt)
    {
      var s := storage;
      var last := SizeSub(s.capacity, s.top);
      address := s.base + s.top;
      match Align(alignment, size, address, last) {
        case Some(p) => address := p;
        case None =>
      }
      s.top := s.top + ArrayBytes(cnt, size);
    }

    /** allocate(cnt) as evidently intended (see Placement); None is the std::bad_alloc it would throw. */
    method Allocate(cnt: nat) returns (address: Option<nat>)
      requires storage != null && alignment > 0 && storage.top <= storage.capacity
      modifies storage
      ensures storage.top <= storage.capacity
      ensures match Placement(storage.base, storage.capacity, old(storage.top), alignment, ArrayBytes(cnt, size))
        case Some(g) => address == Some(g.address) && storage.top == g.top
        case None => address == None && storage.top == old(storage.top)
    {
      var s := storage;
      var start := RoundUp(s.base + s.top, alignment);
      if start + ArrayBytes(cnt, size) <= s.base + s.capacity {
        s.top := start + ArrayBytes(cnt, size) - s.base;
        address := Some(start);
      } else {
        address := None;
      }
    }

    /** deallocate: does nothing; top never moves back. */
    method Deallocate(address: nat, cnt: nat)
      ensures storage != null ==> storage.top == old(storage.top)
    {
    }
  }
}
