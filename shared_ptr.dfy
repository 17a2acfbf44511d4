/**
 * The shared/weak ownership runtime of Shared_ptr.h.
 *
 * Two layers. `BlockState` and the functions over it give the effect of every
 * handle operation on the counters of one control block, together with two
 * ghost tallies (how often `delete_obj` and `delete_block` ran); the lemmas
 * prove that the payload is destroyed at most once and the block freed at most
 * once, and exactly once when the last handle goes away. The classes
 * `ControlBlock`, `SharedPtr`, `WeakPtr` and `Payload` are the imperative
 * model: handles that share one mutable block, methods that change its
 * counters in place, each proved to move the block along the matching
 * `BlockState` function.
 */
module SharedPtrModel {
  import opened Wrappers

  // ---------------------------------------------------------------------------
  // Counters of one control block (BaseControlBlock) as a value
  // ---------------------------------------------------------------------------

  /**
   * `shared` is shared_counter and `weak` is weak_counter. `selfLinked` says
   * that one of the weak references is the payload's own
   * EnableSharedFromThis link, which goes away when the payload is destroyed.
   * `objDestroyed` and `blockFreed` count the calls of delete_obj and
   * delete_block.
   */
  datatype BlockState = BlockState(
    shared: nat,
    weak: nat,
    selfLinked: bool,
    objDestroyed: nat,
    blockFreed: nat)

  /** Weak references held by WeakPtr handles outside the payload. */
  function ExternalWeak(s: BlockState): int
  {
    if s.selfLinked then s.weak - 1 else s.weak
  }

  /**
   * What holds of a block whose handles follow the source's rules: each event
   * happened at most once, nothing is destroyed while owned, the block is not
   * freed while referenced, and the self link lives exactly as long as the
   * payload it sits in.
   */
  predicate Consistent(s: BlockState)
  {
    && s.objDestroyed <= 1
    && s.blockFreed <= 1
    && (s.selfLinked ==> s.weak >= 1 && s.objDestroyed == 0)
    && (s.shared > 0 ==> s.objDestroyed == 0 && s.blockFreed == 0)
    && (s.weak > 0 ==> s.blockFreed == 0)
    && (s.blockFreed == 1 ==> s.shared == 0 && s.weak == 0)
  }

  /**
   * A block created by a SharedPtr: besides being consistent, its payload has
   * been destroyed as soon as no strong owner is left, and the block freed as
   * soon as no reference at all is left.
   */
  predicate Owned(s: BlockState)
  {
    && Consistent(s)
    && (s.shared == 0 ==> s.objDestroyed == 1)
    && (s.shared == 0 && s.weak == 0 ==> s.blockFreed == 1)
  }

  /** WeakPtr::expired on a non-null block. */
  predicate Expired(s: BlockState)
  {
    s.shared == 0
  }

  /** The block made by the adopting constructor SharedPtr(U* ptr, ...). */
  function Adopted(enablesSharedFromThis: bool): (s: BlockState)
    ensures Owned(s) && s.shared == 1 && s.objDestroyed == 0 && s.blockFreed == 0
    ensures ExternalWeak(s) == 0 && s.weak == (if enablesSharedFromThis then 1 else 0)
  {
    BlockState(1, if enablesSharedFromThis then 1 else 0, enablesSharedFromThis, 0, 0)
  }

  /** The block made by allocateShared / makeShared. */
  function Allocate(): (s: BlockState)
    ensures Owned(s) && s.shared == 1 && s.weak == 0 && !s.selfLinked
  {
    BlockState(1, 0, false, 0, 0)
  }

  /** The block made by the adopting constructor WeakPtr(U* ptr, ...). */
  function AdoptWeak(): (s: BlockState)
    ensures Consistent(s) && Expired(s) && s.weak == 1 && ExternalWeak(s) == 1
  {
    BlockState(0, 1, false, 0, 0)
  }

  /** One more strong reference: SharedPtr copy, alias and private constructors. */
  function AcquireShared(s: BlockState): (r: BlockState)
    ensures r.shared == s.shared + 1
    ensures r.weak == s.weak && r.selfLinked == s.selfLinked
    ensures r.objDestroyed == s.objDestroyed && r.blockFreed == s.blockFreed
  {
    s.(shared := s.shared + 1)
  }

  /** One more weak reference: WeakPtr from a SharedPtr, WeakPtr copy. */
  function AcquireWeak(s: BlockState): (r: BlockState)
    ensures r.weak == s.weak + 1 && ExternalWeak(r) == ExternalWeak(s) + 1
    ensures r.shared == s.shared && r.selfLinked == s.selfLinked
    ensures r.objDestroyed == s.objDestroyed && r.blockFreed == s.blockFreed
  {
    s.(weak := s.weak + 1)
  }

  /** delete_block: the block's own storage is released. */
  function BlockDeleted(s: BlockState): BlockState
  {
    s.(blockFreed := s.blockFreed + 1)
  }

  /**
   * ~WeakPtr on a non-null block: one weak reference fewer, and delete_block
   * when no reference of either kind is left.
   */
  function ReleaseWeak(s: BlockState): (r: BlockState)
    requires s.weak > 0
    ensures r.weak == s.weak - 1 && r.shared == s.shared && r.selfLinked == s.selfLinked
    ensures r.objDestroyed == s.objDestroyed
    ensures r.blockFreed == s.blockFreed + (if r.shared == 0 && r.weak == 0 then 1 else 0)
  {
    var t := s.(weak := s.weak - 1);
    if t.shared == 0 && t.weak == 0 then BlockDeleted(t) else t
  }

  /**
   * delete_obj: the payload is destroyed; when it holds an
   * EnableSharedFromThis link, destroying it destroys that WeakPtr too.
   */
  function ObjDeleted(s: BlockState): (r: BlockState)
    requires s.selfLinked ==> s.weak > 0
    ensures r.objDestroyed == s.objDestroyed + 1 && r.shared == s.shared && !r.selfLinked
    ensures r.weak == (if s.selfLinked then s.weak - 1 else s.weak)
    ensures r.blockFreed == s.blockFreed
      + (if s.selfLinked && s.shared == 0 && s.weak == 1 then 1 else 0)
  {
    var t := s.(objDestroyed := s.objDestroyed + 1);
    if s.selfLinked then ReleaseWeak(t).(selfLinked := false) else t
  }

  /**
   * ~SharedPtr on a non-null block: one strong reference fewer; at zero the
   * payload is destroyed, and the block is freed too when no weak reference
   * outside the payload is left (directly when weak_counter is already 0,
   * otherwise through the destruction of the payload's self link).
   */
  function ReleaseShared(s: BlockState): (r: BlockState)
    requires s.shared > 0
    requires s.selfLinked ==> s.weak > 0
    ensures r.shared == s.shared - 1
    ensures r.objDestroyed == s.objDestroyed + (if r.shared == 0 then 1 else 0)
    ensures r.blockFreed == s.blockFreed + (if r.shared == 0 && ExternalWeak(s) == 0 then 1 else 0)
    ensures ExternalWeak(r) == ExternalWeak(s)
  {
    var t := s.(shared := s.shared - 1);
    if t.shared > 0 then t
    else if t.weak == 0 then BlockDeleted(ObjDeleted(t))
    else ObjDeleted(t)
  }

  /**
   * WeakPtr::lock as written: it goes through the private constructor
   * SharedPtr(T*, BaseControlBlock*), which adds a strong reference whatever
   * the counters are.
   */
  function LockAsWritten(s: BlockState): (r: BlockState)
    ensures r.shared == s.shared + 1 && r.objDestroyed == s.objDestroyed
  {
    AcquireShared(s)
  }

  /**
   * WeakPtr::lock as std::weak_ptr and the handle's own contract mean it: a
   * new strong reference only while the block is not expired; otherwise an
   * empty SharedPtr and the counters untouched.
   */
  function Lock(s: BlockState): (r: BlockState)
    ensures Expired(s) ==> r == s
    ensures !Expired(s) ==> r.shared == s.shared + 1 && r.weak == s.weak
  {
    if Expired(s) then s else AcquireShared(s)
  }

  // ---------------------------------------------------------------------------
  // Whole lives of a block: any sequence of handle operations
  // ---------------------------------------------------------------------------

  /** An operation on one live handle of the block. */
  datatype Op =
    | CopyShared      // SharedPtr copy or alias constructor, or copy assignment onto another block
    | DropShared      // ~SharedPtr, reset, or assignment away from this block
    | WeakFromShared  // WeakPtr(const SharedPtr&)
    | CopyWeak        // WeakPtr copy constructor or copy assignment
    | DropWeak        // ~WeakPtr
    | LockWeak        // WeakPtr::lock, then keeping the result

  /** An operation needs a live handle of the kind it starts from. */
  predicate Enabled(s: BlockState, op: Op)
  {
    match op
    case CopyShared | DropShared | WeakFromShared => s.shared > 0
    case CopyWeak | DropWeak | LockWeak => ExternalWeak(s) > 0
  }

  /** The effect of one operation on the block (lock as std::weak_ptr::lock). */
  function Step(s: BlockState, op: Op): (r: BlockState)
    requires Consistent(s) && Enabled(s, op)
    ensures Consistent(r)
    ensures Owned(s) ==> Owned(r)
  {
    match op
    case CopyShared => AcquireShared(s)
    case DropShared => ReleaseShared(s)
    case WeakFromShared => AcquireWeak(s)
    case CopyWeak => AcquireWeak(s)
    case DropWeak => ReleaseWeak(s)
    case LockWeak => Lock(s)
  }

  /** The block after a sequence of operations, or None when one has no live handle to act on. */
  function Run(s: BlockState, ops: seq<Op>): (r: Option<BlockState>)
    requires Consistent(s)
    ensures r.Some? ==> Consistent(r.value)
    ensures r.Some? && Owned(s) ==> Owned(r.value)
    decreases |ops|
  {
    if ops == [] then Some(s)
    else if !Enabled(s, ops[0]) then None
    else Run(Step(s, ops[0]), ops[1..])
  }

  /**
   * For a block made by a SharedPtr constructor, makeShared or
   * allocateShared: the payload is destroyed at most once and exactly once
   * when the last strong owner is gone; the block is freed at most once and
   * exactly once when no handle of either kind is left.
   */
  lemma {:induction false} DestroyedAndFreedExactlyOnce(s0: BlockState, ops: seq<Op>)
    requires s0 == Allocate() || s0 == Adopted(true) || s0 == Adopted(false)
    requires Run(s0, ops).Some?
    ensures var r := Run(s0, ops).value;
      && r.objDestroyed <= 1 && r.blockFreed <= 1
      && (r.shared == 0 <==> r.objDestroyed == 1)
      && (r.shared == 0 && ExternalWeak(r) == 0 <==> r.blockFreed == 1)
  {
    var r := Run(s0, ops).value;
    assert Owned(r);
    if r.shared == 0 {
      assert !r.selfLinked;
    }
  }

  /** A block made by WeakPtr(U* ptr): expired from the start, its payload is never destroyed. */
  lemma {:induction false} WeakAdoptedNeverDestroys(ops: seq<Op>)
    requires Run(AdoptWeak(), ops).Some?
    ensures Run(AdoptWeak(), ops).value.objDestroyed == 0
    ensures Run(AdoptWeak(), ops).value.shared == 0
    ensures ExternalWeak(Run(AdoptWeak(), ops).value) == 0 ==> Run(AdoptWeak(), ops).value.blockFreed == 1
  {
    NeverOwnedStaysExpired(AdoptWeak(), ops);
  }

  lemma {:induction false} NeverOwnedStaysExpired(s: BlockState, ops: seq<Op>)
    requires Consistent(s) && s.shared == 0 && s.objDestroyed == 0 && !s.selfLinked
    requires s.weak == 0 ==> s.blockFreed == 1
    requires Run(s, ops).Some?
    ensures var r := Run(s, ops).value;
      r.shared == 0 && r.objDestroyed == 0 && !r.selfLinked && (r.weak == 0 ==> r.blockFreed == 1)
    decreases |ops|
  {
    if ops != [] {
      NeverOwnedStaysExpired(Step(s, ops[0]), ops[1..]);
    }
  }

  /** Running a non-empty sequence is one step followed by the rest. */
  lemma RunStep(s: BlockState, op: Op, ops: seq<Op>)
    requires Consistent(s) && Enabled(s, op)
    ensures Run(s, [op] + ops) == Run(Step(s, op), ops)
  {
    assert ([op] + ops)[1..] == ops;
  }

  /** The scenario make -> copy -> destroy original -> destroy copy. */
  lemma MakeCopyDestroyScenario()
    ensures Run(Allocate(), [CopyShared, DropShared, DropShared]) == Some(BlockState(0, 0, false, 1, 1))
  {
    var s1 := BlockState(2, 0, false, 0, 0);
    var s2 := BlockState(1, 0, false, 0, 0);
    RunStep(Allocate(), CopyShared, [DropShared, DropShared]);
    RunStep(s1, DropShared, [DropShared]);
    RunStep(s2, DropShared, []);
  }

  /** The scenario adopt -> weak -> destroy shared -> lock gives nothing -> destroy weak. */
  lemma AdoptWeakLockScenario()
    ensures Run(Adopted(false), [WeakFromShared, DropShared, LockWeak, DropWeak])
      == Some(BlockState(0, 0, false, 1, 1))
  {
    var s1 := BlockState(1, 1, false, 0, 0);
    var s2 := BlockState(0, 1, false, 1, 0);
    RunStep(Adopted(false), WeakFromShared, [DropShared, LockWeak, DropWeak]);
    RunStep(s1, DropShared, [LockWeak, DropWeak]);
    RunStep(s2, LockWeak, [DropWeak]);
    RunStep(s2, DropWeak, []);
  }

  /**
   * lock() as written on an expired block: the block is consistent and
   * expired, the lock makes shared_counter 1 again over a destroyed payload,
   * and destroying the handle it returns runs delete_obj a second time.
   */
  lemma LockAsWrittenRevivesExpiredBlock()
    ensures Run(Adopted(false), [WeakFromShared, DropShared]) == Some(BlockState(0, 1, false, 1, 0))
    ensures var s := BlockState(0, 1, false, 1, 0);
      && Owned(s) && Expired(s)
      && !Consistent(LockAsWritten(s))
      && ReleaseShared(LockAsWritten(s)).objDestroyed == 2
  {
    RunStep(Adopted(false), WeakFromShared, [DropShared]);
    RunStep(BlockState(1, 1, false, 0, 0), DropShared, []);
  }

  /** The corrected lock never revives a block and keeps it consistent. */
  lemma LockKeepsConsistent(s: BlockState)
    requires Consistent(s)
    ensures Consistent(Lock(s))
    ensures Owned(s) ==> Owned(Lock(s))
    ensures Lock(s).shared == 0 <==> s.shared == 0
  {
  }

  // ---------------------------------------------------------------------------
  // The handles and the blocks as objects
  // ---------------------------------------------------------------------------

  /** ControlBlockPtr (payload allocated elsewhere) or ControlBlockObject (payload inside the block). */
  datatype BlockKind = PointerOwning | ObjectOwning

  /** The exception shared_from_this throws. */
  datatype Exception = BadException

  /**
   * An object of the payload type. When the type derives from
   * EnableSharedFromThis, `linkPointer` and `linkBlock` are the two fields of
   * its weak_ptr member; the block counts that member among its weak
   * references through `selfLinked`.
   */
  class Payload {
    const enablesSharedFromThis: bool
    var linkPointer: Payload?
    var linkBlock: ControlBlock?

    constructor (enablesSharedFromThis: bool)
      ensures this.enablesSharedFromThis == enablesSharedFromThis
      ensures linkPointer == null && linkBlock == null
    {
      this.enablesSharedFromThis := enablesSharedFromThis;
      linkPointer, linkBlock := null, null;
    }

    /** The weak_ptr member's expired(). */
    predicate LinkExpired()
      reads this, linkBlock
    {
      linkBlock == null || linkBlock.sharedCounter == 0
    }

    /**
     * EnableSharedFromThis::shared_from_this: BadException when the link is
     * expired (never populated, or every owner gone), otherwise a new owner
     * of the block the link observes, made by lock().
     */
    method SharedFromThis() returns (r: Result<SharedPtr, Exception>)
      requires enablesSharedFromThis
      requires linkBlock != null ==> linkBlock.Valid()
      modifies linkBlock
      ensures r.Err? <==> old(LinkExpired())
      ensures r.Err? && linkBlock != null ==> unchanged(linkBlock)
      ensures r.Ok? ==> linkBlock != null && fresh(r.value) && r.value.Valid()
      ensures r.Ok? ==> r.value.pointer == linkPointer && r.value.controlBlock == linkBlock
      ensures r.Ok? ==> linkBlock.State() == AcquireShared(old(linkBlock.State()))
    {
      if LinkExpired() {
        return Err(BadException);
      }
      var sh := new SharedPtr.Private(linkPointer, linkBlock);
      return Ok(sh);
    }
  }

  /**
   * BaseControlBlock with its two variants: the two counters, the ghost
   * tallies of delete_obj and delete_block, and whether the payload's
   * EnableSharedFromThis link is still one of the weak references.
   */
  class ControlBlock {
    var sharedCounter: nat
    var weakCounter: nat
    ghost var objDestroyed: nat
    ghost var blockFreed: nat
    /** The payload's EnableSharedFromThis link is one of the weak references. */
    ghost var selfLinked: bool
    const kind: BlockKind
    const payload: Payload?
    /** The adopting SharedPtr constructor populated the payload's EnableSharedFromThis link. */
    const linksPayload: bool

    constructor (kind: BlockKind, payload: Payload?, linksPayload: bool)
      ensures this.kind == kind && this.payload == payload && this.linksPayload == linksPayload
      ensures sharedCounter == 0 && weakCounter == 0 && objDestroyed == 0 && blockFreed == 0 && !selfLinked
    {
      this.kind := kind;
      this.payload := payload;
      this.linksPayload := linksPayload;
      sharedCounter, weakCounter := 0, 0;
      objDestroyed, blockFreed := 0, 0;
      selfLinked := false;
    }

    ghost function State(): BlockState
      reads this
    {
      BlockState(sharedCounter, weakCounter, selfLinked, objDestroyed, blockFreed)
    }

    /** The tallies are consistent, and the link lives exactly as long as the payload. */
    ghost predicate Valid()
      reads this
    {
      && Consistent(State())
      && (selfLinked <==> linksPayload && objDestroyed == 0)
    }

    /**
     * delete_obj: destroys the payload; when the payload holds the
     * EnableSharedFromThis link, its weak_ptr member's destructor runs too.
     */
    method DeleteObj()
      requires Valid() && sharedCounter == 0 && objDestroyed == 0
      modifies this
      ensures State() == ObjDeleted(old(State())) && Valid()
    {
      if linksPayload {
        weakCounter := weakCounter - 1;
        if sharedCounter == 0 && weakCounter == 0 {
          DeleteBlock();
        }
        selfLinked := false;
      }
      objDestroyed := objDestroyed + 1;
    }

    /** delete_block: releases the block's own storage. */
    method DeleteBlock()
      modifies this
      ensures State() == BlockDeleted(old(State()))
    {
      blockFreed := blockFreed + 1;
    }
  }

  /** SharedPtr<T>: a payload pointer and the control block it shares. */
  class SharedPtr {
    var pointer: Payload?
    var controlBlock: ControlBlock?

    /** A live handle: empty, or one of the strong references of a valid block. */
    ghost predicate Valid()
      reads this, controlBlock
    {
      controlBlock != null ==> controlBlock.Valid() && controlBlock.sharedCounter > 0
    }

    /** SharedPtr() = default. */
    constructor Empty()
      ensures pointer == null && controlBlock == null && Valid()
    {
      pointer, controlBlock := null, null;
    }

    /**
     * The adopting constructor SharedPtr(U* ptr, Deleter, Allocator): a new
     * ControlBlockPtr with shared_counter 1; for a payload deriving from
     * EnableSharedFromThis, `ptr->weak_ptr = *this` links the payload to the
     * block as one weak reference.
     */
    constructor Adopt(p: Payload?)
      requires p != null ==> p.linkBlock == null
      modifies p
      ensures pointer == p && controlBlock != null && fresh(controlBlock)
      ensures controlBlock.kind == PointerOwning && controlBlock.payload == p
      ensures controlBlock.State() == Adopted(p != null && p.enablesSharedFromThis)
      ensures Valid() && UseCount() == 1
      ensures p != null && p.enablesSharedFromThis ==> p.linkBlock == controlBlock && p.linkPointer == p
      ensures p != null && !p.enablesSharedFromThis ==> unchanged(p)
    {
      var linked := p != null && p.enablesSharedFromThis;
      var block := new ControlBlock(PointerOwning, p, linked);
      pointer := p;
      controlBlock := block;
      new;
      block.sharedCounter := 1;
      if linked {
        p.linkPointer, p.linkBlock := p, block;
        block.weakCounter := 1;
        block.selfLinked := true;
      }
    }

    /**
     * The private constructor SharedPtr(T*, BaseControlBlock*): adds a strong
     * reference to `block` without looking at its counters, which is sound
     * only while the payload is alive.
     */
    constructor Private(p: Payload?, block: ControlBlock)
      requires block.Valid() && block.objDestroyed == 0 && block.blockFreed == 0
      modifies block
      ensures pointer == p && controlBlock == block && Valid()
      ensures block.State() == AcquireShared(old(block.State()))
    {
      pointer, controlBlock := p, block;
      new;
      block.sharedCounter := block.sharedCounter + 1;
    }

    /** The copy constructor: shares the block, one more strong reference (none for an empty source). */
    constructor Copy(other: SharedPtr)
      requires other.Valid()
      modifies other.controlBlock
      ensures pointer == other.pointer && controlBlock == other.controlBlock && Valid()
      ensures controlBlock != null ==> controlBlock.State() == AcquireShared(old(other.controlBlock.State()))
    {
      pointer, controlBlock := other.pointer, other.controlBlock;
      new;
      if controlBlock != null {
        controlBlock.sharedCounter := controlBlock.sharedCounter + 1;
      }
    }

    /** The aliasing constructor SharedPtr(const SharedPtr<U>& other, U* ptr). */
    constructor Alias(other: SharedPtr, p: Payload?)
      requires other.Valid()
      modifies other.controlBlock
      ensures pointer == p && controlBlock == other.controlBlock && Valid()
      ensures controlBlock != null ==> controlBlock.State() == AcquireShared(old(other.controlBlock.State()))
    {
      pointer, controlBlock := p, other.controlBlock;
      new;
      if controlBlock != null {
        controlBlock.sharedCounter := controlBlock.sharedCounter + 1;
      }
    }

    /** The move constructor: takes over pointer and block, leaves the source empty, no counter changes. */
    constructor Move(other: SharedPtr)
      requires other.Valid()
      modifies other, other.controlBlock
      ensures pointer == old(other.pointer) && controlBlock == old(other.controlBlock)
      ensures other.pointer == null && other.controlBlock == null
      ensures Valid() && other.Valid()
      ensures controlBlock != null ==> controlBlock.State() == old(other.controlBlock.State())
    {
      pointer, controlBlock := other.pointer, other.controlBlock;
      new;
      other.controlBlock, other.pointer := null, null;
    }

    /** use_count: shared_counter, or 0 for an empty handle. */
    function UseCount(): nat
      reads this, controlBlock
    {
      if controlBlock == null then 0 else controlBlock.sharedCounter
    }

    /** get. */
    function Get(): Payload?
      reads this
    {
      pointer
    }

    /** swap: exchanges pointer and block; no counter changes. */
    method Swap(other: SharedPtr)
      requires Valid() && other.Valid()
      modifies this, other
      ensures pointer == old(other.pointer) && controlBlock == old(other.controlBlock)
      ensures other.pointer == old(pointer) && other.controlBlock == old(controlBlock)
      ensures Valid() && other.Valid()
    {
      controlBlock, other.controlBlock := other.controlBlock, controlBlock;
      pointer, other.pointer := other.pointer, pointer;
    }

    /**
     * The copy assignment, by copy-and-swap: the source's block gains a strong
     * reference and the target's old block loses one; on a shared block the
     * two cancel.
     */
    method AssignCopy(other: SharedPtr)
      requires Valid() && other.Valid()
      modifies this, controlBlock, other.controlBlock
      ensures pointer == old(other.pointer) && controlBlock == old(other.controlBlock) && Valid()
      ensures old(controlBlock) == controlBlock && controlBlock != null ==>
        controlBlock.State() == old(controlBlock.State())
      ensures old(controlBlock) != controlBlock && controlBlock != null ==>
        controlBlock.State() == AcquireShared(old(other.controlBlock.State()))
      ensures old(controlBlock) != controlBlock && old(controlBlock) != null ==>
        old(controlBlock).State() == ReleaseShared(old(controlBlock.State())) && old(controlBlock).Valid()
    {
      var copy := new SharedPtr.Copy(other);
      Swap(copy);
      copy.Destroy();
    }

    /**
     * The move assignment, by move-and-swap: the source is left empty, its
     * block keeps its counters, and the target's old block loses a strong
     * reference. Moving a handle onto itself changes nothing.
     */
    method AssignMove(other: SharedPtr)
      requires Valid() && other.Valid()
      requires other != this && other.controlBlock == controlBlock && controlBlock != null ==>
        controlBlock.sharedCounter >= 2
      modifies this, other, controlBlock, other.controlBlock
      ensures pointer == old(other.pointer) && controlBlock == old(other.controlBlock) && Valid()
      ensures other != this ==> other.pointer == null && other.controlBlock == null
      ensures other == this && controlBlock != null ==> controlBlock.State() == old(controlBlock.State())
      ensures old(controlBlock) != controlBlock && controlBlock != null ==>
        controlBlock.State() == old(other.controlBlock.State())
      ensures other != this && old(controlBlock) != null ==>
        old(controlBlock).State() == ReleaseShared(old(controlBlock.State())) && old(controlBlock).Valid()
    {
      var copy := new SharedPtr.Move(other);
      Swap(copy);
      copy.Destroy();
    }

    /** reset(): `*this = SharedPtr()`; the old block loses a strong reference. */
    method Reset()
      requires Valid()
      modifies this, controlBlock
      ensures pointer == null && controlBlock == null && Valid()
      ensures old(controlBlock) != null ==>
        old(controlBlock).State() == ReleaseShared(old(controlBlock.State())) && old(controlBlock).Valid()
    {
      var empty := new SharedPtr.Empty();
      AssignMove(empty);
    }

    /** reset(ptr): `*this = SharedPtr(ptr)`; a new block adopts ptr and the old block loses a strong reference. */
    method ResetTo(p: Payload?)
      requires Valid()
      requires p != null ==> p.linkBlock == null
      modifies this, controlBlock, p
      ensures pointer == p && controlBlock != null && fresh(controlBlock) && Valid()
      ensures controlBlock.State() == Adopted(p != null && p.enablesSharedFromThis) && UseCount() == 1
      ensures old(controlBlock) != null ==>
        old(controlBlock).State() == ReleaseShared(old(controlBlock.State())) && old(controlBlock).Valid()
    {
      var adopted := new SharedPtr.Adopt(p);
      AssignMove(adopted);
    }

    /**
     * The destructor: one strong reference fewer; at zero delete_obj, and
     * delete_block as well when weak_counter is already 0.
     */
    method Destroy()
      requires Valid()
      modifies controlBlock
      ensures controlBlock != null ==>
        && controlBlock.State() == ReleaseShared(old(controlBlock.State()))
        && controlBlock.Valid()
    {
      if controlBlock == null {
        return;
      }
      var cb := controlBlock;
      cb.sharedCounter := cb.sharedCounter - 1;
      if cb.sharedCounter == 0 {
        if cb.weakCounter == 0 {
          cb.DeleteObj();
          cb.DeleteBlock();
          return;
        }
        cb.DeleteObj();
      }
    }
  }

  /** WeakPtr<T>: a payload pointer and the control block it observes. */
  class WeakPtr {
    var pointer: Payload?
    var controlBlock: ControlBlock?

    /** A live handle: empty, or one of the weak references of a valid block, besides the payload's own link. */
    ghost predicate Valid()
      reads this, controlBlock
    {
      controlBlock != null ==> controlBlock.Valid() && ExternalWeak(controlBlock.State()) > 0
    }

    /** WeakPtr() = default. */
    constructor Empty()
      ensures pointer == null && controlBlock == null && Valid()
    {
      pointer, controlBlock := null, null;
    }

    /**
     * The adopting constructor WeakPtr(U* ptr, Deleter, Allocator): a new
     * ControlBlockPtr whose weak_counter is 1 and shared_counter 0, so the
     * handle is expired from the start.
     */
    constructor AdoptRaw(p: Payload?)
      ensures pointer == p && controlBlock != null && fresh(controlBlock)
      ensures controlBlock.State() == AdoptWeak()
      ensures Valid() && Expired()
    {
      var block := new ControlBlock(PointerOwning, p, false);
      pointer, controlBlock := p, block;
      new;
      block.weakCounter := 1;
    }

    /** The copy constructor: observes the same block, one more weak reference. */
    constructor Copy(other: WeakPtr)
      requires other.Valid()
      modifies other.controlBlock
      ensures pointer == other.pointer && controlBlock == other.controlBlock && Valid()
      ensures controlBlock != null ==> controlBlock.State() == AcquireWeak(old(other.controlBlock.State()))
    {
      pointer, controlBlock := other.pointer, other.controlBlock;
      new;
      if controlBlock != null {
        controlBlock.weakCounter := controlBlock.weakCounter + 1;
      }
    }

    /** The aliasing constructor WeakPtr(const WeakPtr& other, U* ptr). */
    constructor Alias(other: WeakPtr, p: Payload?)
      requires other.Valid()
      modifies other.controlBlock
      ensures pointer == p && controlBlock == other.controlBlock && Valid()
      ensures controlBlock != null ==> controlBlock.State() == AcquireWeak(old(other.controlBlock.State()))
    {
      pointer, controlBlock := p, other.controlBlock;
      new;
      if controlBlock != null {
        controlBlock.weakCounter := controlBlock.weakCounter + 1;
      }
    }

    /** The move constructor: takes over pointer and block, leaves the source empty, no counter changes. */
    constructor Move(other: WeakPtr)
      requires other.Valid()
      modifies other, other.controlBlock
      ensures pointer == old(other.pointer) && controlBlock == old(other.controlBlock)
      ensures other.pointer == null && other.controlBlock == null
      ensures Valid() && other.Valid()
      ensures controlBlock != null ==> controlBlock.State() == old(other.controlBlock.State())
    {
      pointer, controlBlock := other.pointer, other.controlBlock;
      new;
      other.controlBlock, other.pointer := null, null;
    }

    /**
     * WeakPtr(const SharedPtr& sh_ptr): observes the SharedPtr's block, one
     * more weak reference. The source has no null check, so the SharedPtr must
     * not be empty.
     */
    constructor FromShared(sh: SharedPtr)
      requires sh.Valid() && sh.controlBlock != null
      modifies sh.controlBlock
      ensures pointer == sh.pointer && controlBlock == sh.controlBlock && Valid() && !Expired()
      ensures controlBlock.State() == AcquireWeak(old(sh.controlBlock.State()))
    {
      pointer, controlBlock := sh.pointer, sh.controlBlock;
      new;
      controlBlock.weakCounter := controlBlock.weakCounter + 1;
    }

    /** use_count: shared_counter, or 0 for an empty handle. */
    function UseCount(): nat
      reads this, controlBlock
    {
      if controlBlock == null then 0 else controlBlock.sharedCounter
    }

    /** get. */
    function Get(): Payload?
      reads this
    {
      pointer
    }

    /** expired: no block, or no strong owner left. */
    predicate Expired()
      reads this, controlBlock
    {
      controlBlock == null || controlBlock.sharedCounter == 0
    }

    /** swap: exchanges pointer and block; no counter changes. */
    method Swap(other: WeakPtr)
      requires Valid() && other.Valid()
      modifies this, other
      ensures pointer == old(other.pointer) && controlBlock == old(other.controlBlock)
      ensures other.pointer == old(pointer) && other.controlBlock == old(controlBlock)
      ensures Valid() && other.Valid()
    {
      controlBlock, other.controlBlock := other.controlBlock, controlBlock;
      pointer, other.pointer := other.pointer, pointer;
    }

    /**
     * The copy assignment, by copy-and-swap: the source's block gains a weak
     * reference and the target's old block loses one; on a shared block the
     * two cancel.
     */
    method AssignCopy(other: WeakPtr)
      requires Valid() && other.Valid()
      modifies this, controlBlock, other.controlBlock
      ensures pointer == old(other.pointer) && controlBlock == old(other.controlBlock) && Valid()
      ensures old(controlBlock) == controlBlock && controlBlock != null ==>
        controlBlock.State() == old(controlBlock.State())
      ensures old(controlBlock) != controlBlock && controlBlock != null ==>
        controlBlock.State() == AcquireWeak(old(other.controlBlock.State()))
      ensures old(controlBlock) != controlBlock && old(controlBlock) != null ==>
        old(controlBlock).State() == ReleaseWeak(old(controlBlock.State())) && old(controlBlock).Valid()
    {
      var copy := new WeakPtr.Copy(other);
      Swap(copy);
      copy.Destroy();
    }

    /**
     * The move assignment, by move-and-swap: the source is left empty, its
     * block keeps its counters, and the target's old block loses a weak
     * reference. Moving a handle onto itself changes nothing.
     */
    method AssignMove(other: WeakPtr)
      requires Valid() && other.Valid()
      requires other != this && other.controlBlock == controlBlock && controlBlock != null ==>
        ExternalWeak(controlBlock.State()) >= 2
      modifies this, other, controlBlock, other.controlBlock
      ensures pointer == old(other.pointer) && controlBlock == old(other.controlBlock) && Valid()
      ensures other != this ==> other.pointer == null && other.controlBlock == null
      ensures other == this && controlBlock != null ==> controlBlock.State() == old(controlBlock.State())
      ensures old(controlBlock) != controlBlock && controlBlock != null ==>
        controlBlock.State() == old(other.controlBlock.State())
      ensures other != this && old(controlBlock) != null ==>
        old(controlBlock).State() == ReleaseWeak(old(controlBlock.State())) && old(controlBlock).Valid()
    {
      var copy := new WeakPtr.Move(other);
      Swap(copy);
      copy.Destroy();
    }

    /**
     * The destructor: one weak reference fewer, and delete_block when both
     * counters are 0.
     */
    method Destroy()
      requires Valid()
      modifies controlBlock
      ensures controlBlock != null ==>
        && controlBlock.State() == ReleaseWeak(old(controlBlock.State()))
        && controlBlock.Valid()
    {
      if controlBlock == null {
        return;
      }
      var cb := controlBlock;
      cb.weakCounter := cb.weakCounter - 1;
      if cb.sharedCounter == 0 {
        if cb.weakCounter == 0 {
          cb.DeleteBlock();
        }
      }
    }

    /**
     * lock, corrected: a new owner of the block while it is not expired, an
     * empty SharedPtr otherwise (the source always goes through the private
     * SharedPtr constructor; see LockAsWritten).
     */
    method Lock() returns (r: SharedPtr)
      requires Valid()
      modifies controlBlock
      ensures fresh(r) && r.Valid()
      ensures old(Expired()) ==> r.controlBlock == null && r.pointer == null
      ensures old(Expired()) && controlBlock != null ==> unchanged(controlBlock)
      ensures !old(Expired()) ==> r.controlBlock == controlBlock && r.pointer == pointer
      ensures !old(Expired()) ==> controlBlock.State() == AcquireShared(old(controlBlock.State()))
    {
      if Expired() {
        r := new SharedPtr.Empty();
      } else {
        r := new SharedPtr.Private(pointer, controlBlock);
      }
    }
  }

  /**
   * allocateShared / makeShared: the payload is built inside a new
   * ControlBlockObject and handed to the private SharedPtr constructor, so the
   * block starts with one strong and no weak reference. The
   * EnableSharedFromThis link of the payload is not populated on this path.
   */
  method MakeShared(enablesSharedFromThis: bool) returns (r: SharedPtr)
    ensures fresh(r) && r.Valid() && r.pointer != null && fresh(r.pointer)
    ensures r.controlBlock != null && fresh(r.controlBlock) && r.controlBlock.kind == ObjectOwning
    ensures r.controlBlock.State() == Allocate() && r.UseCount() == 1
    ensures r.pointer.enablesSharedFromThis == enablesSharedFromThis && r.pointer.LinkExpired()
  {
    var p := new Payload(enablesSharedFromThis);
    var block := new ControlBlock(ObjectOwning, p, false);
    r := new SharedPtr.Private(p, block);
  }
}
