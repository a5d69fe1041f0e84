/**
 * The control-block ownership bridge behind `owned_pointer` (inc/owned_pointer.hpp)
 * and its two earlier forms with the same control block (owned_pointer.hpp and
 * ptr_owned_by_unique.hpp), as a state machine over one value of type `Memory`.
 *
 * A control block is the tuple (address, acquired, deleted) owned by a
 * reference-counted `shared_ptr`; a handle is the `shared_ptr` base of one
 * `owned_pointer` object, either empty or sharing one block; an object created
 * through the factory for a type with a virtual destructor carries a
 * destruction notifier whose weak back-reference names its block.
 *
 * The three headers differ only where `Header` is consulted:
 *  - inc/owned_pointer.hpp never gives a null pointer a control block;
 *  - owned_pointer.hpp gives a null `unique_ptr` or link a block of its own;
 *  - ptr_owned_by_unique.hpp does that too, and so do its default and nullptr
 *    constructors.
 */
module OwnedPointer {
  import opened Common

  type BlockId = nat
  type HandleId = nat

  /** Which header is compiled. */
  datatype Header = Inc | Root | PtrOwnedByUnique

  /** `detail::control_block` with the use count of the `shared_ptr` that owns it. */
  datatype Block = Block(addr: Addr, acquired: bool, deleted: bool, refs: nat)

  /**
   * A heap object: `alive` until its destructor runs, `hasNotifier` when it was
   * created as a destruction-notify object (fixed at creation), and `backRef`
   * the notifier's weak reference to its control block.
   */
  datatype Object = Object(alive: bool, hasNotifier: bool, backRef: Option<BlockId>)

  /** The `shared_ptr` base of one handle. */
  datatype Handle = Empty | Shares(block: BlockId)

  /** Every control block, every object and every handle, with the next unused identifiers. */
  datatype Memory = Memory(
    header: Header,
    blocks: map<BlockId, Block>,
    objects: map<Addr, Object>,
    handles: map<HandleId, Handle>,
    nextBlock: BlockId,
    nextHandle: HandleId)

  /* ----------------------------------------------------------------------
   * Invariant
   * ---------------------------------------------------------------------- */

  predicate Notifying(m: Memory, a: Addr)
  {
    a in m.objects && m.objects[a].hasNotifier
  }

  /** The object at `a` carries a notifier and its destructor has run. */
  predicate Destroyed(m: Memory, a: Addr)
  {
    Notifying(m, a) && !m.objects[a].alive
  }

  /** Identifiers are never reused, so a weak reference to a freed block can never lock again. */
  ghost predicate Fresh(m: Memory)
  {
    && 0 !in m.objects
    && (forall b :: b in m.blocks ==> b < m.nextBlock)
    && (forall h :: h in m.handles ==> h < m.nextHandle)
    && (forall a :: a in m.objects && m.objects[a].backRef.Some? ==> m.objects[a].backRef.value < m.nextBlock)
  }

  /** Every handle shares a live block, and a block's use count is the number of handles sharing it. */
  ghost predicate Counted(m: Memory)
  {
    && (forall h :: h in m.handles && m.handles[h].Shares? ==> m.handles[h].block in m.blocks)
    && (forall b :: b in m.blocks ==> 0 < m.blocks[b].refs == |Holders(m.handles, Shares(b))|)
  }

  /** A block names a known object, or the null pointer where the header allows a null block. */
  ghost predicate Addressed(m: Memory)
  {
    forall b :: b in m.blocks ==>
      && (m.blocks[b].addr == 0 ==> m.header != Inc)
      && (m.blocks[b].addr != 0 ==> m.blocks[b].addr in m.objects)
  }

  /**
   * The notifier: only notifier objects hold a back-reference; one that locks
   * names a block of that object; every block of a notifier object is the one
   * its back-reference names (so there is at most one); and a block is marked
   * deleted exactly when its object is a notifier object that was destroyed.
   */
  ghost predicate Notified(m: Memory)
  {
    && (forall a :: a in m.objects && m.objects[a].backRef.Some? ==>
          && m.objects[a].hasNotifier
          && (m.objects[a].backRef.value in m.blocks ==> m.blocks[m.objects[a].backRef.value].addr == a))
    && (forall b :: b in m.blocks && Notifying(m, m.blocks[b].addr) ==>
          m.objects[m.blocks[b].addr].backRef == Some(b))
    && (forall b :: b in m.blocks ==> (m.blocks[b].deleted <==> Destroyed(m, m.blocks[b].addr)))
  }

  /**
   * A block that is not acquired owns its object: the object is alive, and no
   * other unacquired block of the same object exists (two owners would delete
   * it twice).
   */
  ghost predicate Owned(m: Memory)
    requires Addressed(m)
  {
    && (forall b :: b in m.blocks && !m.blocks[b].acquired && m.blocks[b].addr != 0 ==>
          m.objects[m.blocks[b].addr].alive)
    && (forall b1, b2 ::
          (b1 in m.blocks && b2 in m.blocks && !m.blocks[b1].acquired && !m.blocks[b2].acquired
           && m.blocks[b1].addr == m.blocks[b2].addr != 0) ==> b1 == b2)
  }

  ghost predicate Valid(m: Memory)
  {
    Fresh(m) && Counted(m) && Addressed(m) && Notified(m) && Owned(m)
  }

  /** The state before any handle exists. */
  function Initial(header: Header): (m: Memory)
    ensures Valid(m)
    ensures m.handles == map[] && m.blocks == map[]
  {
    Memory(header, map[], map[], map[], 0, 0)
  }

  /**
   * The caller holds the only owner of the object at `p` (a `unique_ptr`): the
   * object is alive and every control block of it has handed ownership away.
   * Wrapping and deleting an object demand this of their callers.
   */
  ghost predicate OwnedOutside(m: Memory, p: Addr)
  {
    && p in m.objects
    && m.objects[p].alive
    && (forall b :: b in m.blocks && m.blocks[b].addr == p ==> m.blocks[b].acquired)
  }

  /**
   * How one state may follow another: the header and the kind of every object
   * are fixed, dead objects stay dead, a surviving block keeps its address and
   * never clears `deleted`, and a block that is gone never comes back.
   */
  ghost predicate Evolves(m: Memory, m': Memory)
  {
    && m'.header == m.header
    && m.nextBlock <= m'.nextBlock
    && m.nextHandle <= m'.nextHandle
    && (forall a :: a in m.objects ==>
          && a in m'.objects
          && m'.objects[a].hasNotifier == m.objects[a].hasNotifier
          && (!m.objects[a].alive ==> !m'.objects[a].alive))
    && (forall b :: b in m.blocks && b in m'.blocks ==>
          && m'.blocks[b].addr == m.blocks[b].addr
          && (m.blocks[b].deleted ==> m'.blocks[b].deleted))
    && (forall b :: b in m'.blocks && b !in m.blocks ==> m.nextBlock <= b)
  }

  /** A block freed in between never returns, because its identifier is below every later fresh one. */
  lemma EvolvesTransitive(m1: Memory, m2: Memory, m3: Memory)
    requires Fresh(m1) && Evolves(m1, m2) && Evolves(m2, m3)
    ensures Evolves(m1, m3)
  {
    forall b | b in m1.blocks && b in m3.blocks
      ensures b in m2.blocks
    {
      assert b < m1.nextBlock <= m2.nextBlock;
    }
  }

  /* ----------------------------------------------------------------------
   * Queries (never throw, except Get)
   * ---------------------------------------------------------------------- */

  /** `get_pointer()`: the block's address, or null when the handle has no block. */
  function Pointer(m: Memory, h: HandleId): (r: Addr)
    requires Valid(m) && h in m.handles
    ensures r != 0 ==> r in m.objects && m.handles[h].Shares?
    ensures m.header == Inc && m.handles[h].Shares? ==> r != 0
  {
    match m.handles[h]
    case Empty => 0
    case Shares(b) => m.blocks[b].addr
  }

  /** `acquired()`: false for a handle without a block. */
  function Acquired(m: Memory, h: HandleId): (r: bool)
    requires Valid(m) && h in m.handles
    ensures r ==> m.handles[h].Shares?
    ensures !r && Pointer(m, h) != 0 ==> m.objects[Pointer(m, h)].alive
  {
    match m.handles[h]
    case Empty => false
    case Shares(b) => m.blocks[b].acquired
  }

  /** `expired()`: the object carries a notifier and has been destroyed. */
  function Expired(m: Memory, h: HandleId): (r: bool)
    requires Valid(m) && h in m.handles
    ensures r <==> Destroyed(m, Pointer(m, h))
  {
    match m.handles[h]
    case Empty => false
    case Shares(b) => m.blocks[b].deleted
  }

  /** `explicit operator bool`: the handle points at an object. */
  function IsTrue(m: Memory, h: HandleId): (r: bool)
    requires Valid(m) && h in m.handles
    ensures r <==> Pointer(m, h) in m.objects
  {
    Pointer(m, h) != 0
  }

  /** `use_count()`: how many handles share this handle's block. */
  function UseCount(m: Memory, h: HandleId): (r: nat)
    requires Valid(m) && h in m.handles
    ensures m.handles[h].Empty? ==> r == 0
    ensures m.handles[h].Shares? ==> r == |Holders(m.handles, m.handles[h])| && h in Holders(m.handles, m.handles[h])
  {
    match m.handles[h]
    case Empty => 0
    case Shares(b) => m.blocks[b].refs
  }

  /**
   * `get()`, `operator->` and `operator*`: throw ptr_is_already_deleted exactly
   * when the handle has expired; otherwise the address, which is never that of
   * a destroyed notifier object.
   */
  function Get(m: Memory, h: HandleId): (r: Result<Addr>)
    requires Valid(m) && h in m.handles
    ensures r.Err? <==> Expired(m, h)
    ensures r.Err? ==> r.error == AlreadyDeleted
    ensures r.Ok? ==> r.value == Pointer(m, h) && !Destroyed(m, r.value)
  {
    if Expired(m, h) then Err(AlreadyDeleted) else Ok(Pointer(m, h))
  }

  /** `compare(const void*)`: three-way comparison of the handle's address with `p`. */
  function Compare(m: Memory, h: HandleId, p: Addr): (r: int)
    requires Valid(m) && h in m.handles
    ensures r == -1 || r == 0 || r == 1
    ensures r == 0 <==> Pointer(m, h) == p
    ensures r < 0 <==> Pointer(m, h) < p
  {
    CompareAddr(Pointer(m, h), p)
  }

  /** `compare(const owned_pointer&)`: by the other handle's address alone. */
  function CompareHandles(m: Memory, h1: HandleId, h2: HandleId): (r: int)
    requires Valid(m) && h1 in m.handles && h2 in m.handles
    ensures r == -1 || r == 0 || r == 1
    ensures r == 0 <==> Pointer(m, h1) == Pointer(m, h2)
    ensures r < 0 <==> Pointer(m, h1) < Pointer(m, h2)
  {
    Compare(m, h1, Pointer(m, h2))
  }

  /** The six comparison operators. */
  datatype Relation = Eq | Ne | Lt | Le | Gt | Ge

  /** Whether a three-way result `c` satisfies `rel`, as each operator tests `compare(...)` against 0. */
  function Satisfies(rel: Relation, c: int): bool
  {
    match rel
    case Eq => c == 0
    case Ne => c != 0
    case Lt => c < 0
    case Le => c <= 0
    case Gt => c > 0
    case Ge => c >= 0
  }

  /** The operators with a handle on the left and a handle, raw pointer, `unique_ptr` or nullptr (0) on the right. */
  function Relate(m: Memory, h: HandleId, rel: Relation, p: Addr): (r: bool)
    requires Valid(m) && h in m.handles
    ensures rel == Eq ==> (r <==> Pointer(m, h) == p)
    ensures rel == Ne ==> (r <==> Pointer(m, h) != p)
    ensures rel == Lt ==> (r <==> Pointer(m, h) < p)
    ensures rel == Le ==> (r <==> Pointer(m, h) <= p)
    ensures rel == Gt ==> (r <==> Pointer(m, h) > p)
    ensures rel == Ge ==> (r <==> Pointer(m, h) >= p)
  {
    Satisfies(rel, Compare(m, h, p))
  }

  /** `==` and `!=` with a raw pointer, `unique_ptr` or nullptr on the left: the operands swapped. */
  function RelateReversed(m: Memory, p: Addr, rel: Relation, h: HandleId): (r: bool)
    requires Valid(m) && h in m.handles
    requires rel == Eq || rel == Ne
    ensures r == Relate(m, h, rel, p)
    ensures rel == Eq ==> (r <==> p == Pointer(m, h))
  {
    Satisfies(rel, Compare(m, h, p))
  }

  /* ----------------------------------------------------------------------
   * Building blocks of the transitions (no invariant required)
   * ---------------------------------------------------------------------- */

  /** Bind handle `k` to `v` and count the new reference (a `shared_ptr` copy). */
  function Attach(m: Memory, k: HandleId, v: Handle): Memory
    requires v.Shares? ==> v.block in m.blocks
  {
    var m1 := m.(handles := m.handles[k := v]);
    match v
    case Empty => m1
    case Shares(b) => m1.(blocks := m.blocks[b := m.blocks[b].(refs := m.blocks[b].refs + 1)])
  }

  /**
   * The object's destructor runs. For a notifier object, `delete_event` writes
   * `deleted` through the weak back-reference, and only when it still locks.
   */
  function Destruct(m: Memory, a: Addr): Memory
    requires a in m.objects
  {
    var obj := m.objects[a];
    var m1 := m.(objects := m.objects[a := obj.(alive := false)]);
    if obj.hasNotifier && obj.backRef.Some? && obj.backRef.value in m.blocks then
      m1.(blocks := m.blocks[obj.backRef.value := m.blocks[obj.backRef.value].(deleted := true)])
    else
      m1
  }

  /**
   * `owned_deleter`: the object is deleted unless it was acquired, and the
   * block is freed; deleting the null pointer does nothing. The source deletes
   * the object first and then the block. The model frees the block first,
   * which comes to the same: the deleter runs only once the use count is 0,
   * so the object's `delete_event` already fails to lock its weak
   * back-reference and writes no block.
   */
  function OwnedDeleter(m: Memory, b: BlockId): Memory
    requires b in m.blocks
  {
    var blk := m.blocks[b];
    var freed := m.(blocks := m.blocks - {b});
    if !blk.acquired && blk.addr in m.objects then Destruct(freed, blk.addr) else freed
  }

  /** A reference to `v` is given up; the last one runs the deleter. */
  function Release(m: Memory, v: Handle): Memory
    requires v.Shares? ==> v.block in m.blocks
  {
    match v
    case Empty => m
    case Shares(b) =>
      if m.blocks[b].refs > 1 then m.(blocks := m.blocks[b := m.blocks[b].(refs := m.blocks[b].refs - 1)])
      else OwnedDeleter(m, b)
  }

  /** Write the acquired slot of block `b`. */
  function WriteAcquired(m: Memory, b: BlockId, acquired: bool): Memory
    requires b in m.blocks
  {
    m.(blocks := m.blocks[b := m.blocks[b].(acquired := acquired)])
  }

  /** Allocate a new handle bound to `v`. */
  function NewHandle(m: Memory, v: Handle): (Memory, HandleId)
    requires v.Shares? ==> v.block in m.blocks
  {
    (Attach(m.(nextHandle := m.nextHandle + 1), m.nextHandle, v), m.nextHandle)
  }

  /**
   * `get_secret_when_possible`: for a notifier object, the block its weak
   * back-reference still locks; nothing otherwise.
   */
  function Secret(m: Memory, p: Addr): (r: Option<BlockId>)
    ensures r.Some? ==> r.value in m.blocks && Notifying(m, p)
  {
    if Notifying(m, p) && m.objects[p].backRef.Some? && m.objects[p].backRef.value in m.blocks
    then m.objects[p].backRef
    else None
  }

  /**
   * The private constructor `owned_pointer(p, acquired)`: share the block the
   * back-reference still locks, or else create a block for `p` and, for a
   * notifier object, point the back-reference at it
   * (`set_shared_secret_when_possible`); either way write `acquired`.
   */
  function PrivateCtor(m: Memory, p: Addr, acquired: bool): (Memory, HandleId)
  {
    match Secret(m, p)
    case Some(b) =>
      var r := NewHandle(m, Shares(b));
      (WriteAcquired(r.0, b, acquired), r.1)
    case None =>
      var b := m.nextBlock;
      var m1 := m.(blocks := m.blocks[b := Block(p, false, false, 0)], nextBlock := b + 1);
      var r := NewHandle(m1, Shares(b));
      var m2 := if Notifying(m, p) then r.0.(objects := r.0.objects[p := r.0.objects[p].(backRef := Some(b))]) else r.0;
      (WriteAcquired(m2, b, acquired), r.1)
  }

  /* ----------------------------------------------------------------------
   * The invariant across the building blocks
   * ---------------------------------------------------------------------- */

  /** No handle shares a block that does not exist. */
  lemma UnusedBlockHasNoHolders(m: Memory, b: BlockId)
    requires Counted(m) && b !in m.blocks
    ensures Holders(m.handles, Shares(b)) == {}
  {
    forall h | h in m.handles ensures m.handles[h] != Shares(b) {
    }
  }

  /** A new handle keeps the use counts right. */
  lemma NewHandleCounted(m: Memory, v: Handle)
    requires Fresh(m) && (v.Shares? ==> v.block in m.blocks)
    requires forall h :: h in m.handles && m.handles[h].Shares? ==> m.handles[h].block in m.blocks
    requires forall b :: b in m.blocks ==>
      m.blocks[b].refs == |Holders(m.handles, Shares(b))| && (v != Shares(b) ==> 0 < m.blocks[b].refs)
    ensures Counted(NewHandle(m, v).0)
  {
    var m' := NewHandle(m, v).0;
    var k := m.nextHandle;
    assert k !in m.handles;
    forall b | b in m'.blocks ensures 0 < m'.blocks[b].refs == |Holders(m'.handles, Shares(b))| {
      HoldersInsert(m.handles, k, v, Shares(b));
    }
  }

  /**
   * The parts of the invariant that only look at objects, block addresses and
   * `deleted` flags survive any step that leaves those alone.
   */
  lemma ShapeFrame(m: Memory, m': Memory)
    requires Fresh(m) && Addressed(m) && Notified(m)
    requires m'.header == m.header && m'.objects == m.objects && m'.nextBlock == m.nextBlock
    requires m'.blocks.Keys == m.blocks.Keys
    requires forall b :: b in m.blocks ==>
      m'.blocks[b].addr == m.blocks[b].addr && m'.blocks[b].deleted == m.blocks[b].deleted
    requires forall h :: h in m'.handles ==> h < m'.nextHandle
    ensures Fresh(m') && Addressed(m') && Notified(m')
  {
  }

  /** Use counts do not look at `acquired`. */
  lemma CountedIgnoresAcquired(m: Memory, m': Memory)
    requires Counted(m) && m'.handles == m.handles && m'.blocks.Keys == m.blocks.Keys
    requires forall b :: b in m.blocks ==> m'.blocks[b].refs == m.blocks[b].refs
    ensures Counted(m')
  {
  }

  /**
   * Writing the `acquired` slot of block `b` keeps the invariant, provided
   * that clearing it makes `b` the only unacquired block of a live object.
   */
  lemma WriteAcquiredValid(m: Memory, b: BlockId, acquired: bool)
    requires Valid(m) && b in m.blocks
    requires !acquired && m.blocks[b].addr != 0 ==> OwnedOutside(m, m.blocks[b].addr)
    ensures Valid(WriteAcquired(m, b, acquired)) && Evolves(m, WriteAcquired(m, b, acquired))
  {
    var m' := WriteAcquired(m, b, acquired);
    ShapeFrame(m, m');
    CountedIgnoresAcquired(m, m');
    WriteAcquiredOwned(m, m', b, acquired);
  }

  lemma WriteAcquiredOwned(m: Memory, m': Memory, b: BlockId, acquired: bool)
    requires Addressed(m) && Owned(m) && b in m.blocks && Addressed(m')
    requires !acquired && m.blocks[b].addr != 0 ==> OwnedOutside(m, m.blocks[b].addr)
    requires m' == WriteAcquired(m, b, acquired)
    ensures Owned(m')
  {
  }

  /** Sharing the block the back-reference still locks keeps the invariant. */
  lemma SharedSecretValid(m: Memory, p: Addr, acquired: bool)
    requires Valid(m) && p != 0 && OwnedOutside(m, p) && Secret(m, p).Some?
    ensures Valid(PrivateCtor(m, p, acquired).0) && Evolves(m, PrivateCtor(m, p, acquired).0)
  {
    var b := Secret(m, p).value;
    var m1 := NewHandle(m, Shares(b)).0;
    NewHandleValid(m, Shares(b));
    assert m1.blocks == m.blocks[b := m.blocks[b].(refs := m.blocks[b].refs + 1)];
    assert OwnedOutside(m1, p);
    WriteAcquiredValid(m1, b, acquired);
    EvolvesTransitive(m, m1, WriteAcquired(m1, b, acquired));
  }

  /** Creating a block for an object whose back-reference no longer locks keeps the invariant. */
  lemma NewBlockValid(m: Memory, p: Addr, acquired: bool)
    requires Valid(m) && Secret(m, p).None?
    requires p == 0 ==> m.header != Inc
    requires p != 0 ==> OwnedOutside(m, p)
    ensures Valid(PrivateCtor(m, p, acquired).0) && Evolves(m, PrivateCtor(m, p, acquired).0)
  {
    var m' := PrivateCtor(m, p, acquired).0;
    NewBlockStepHolds(m, p, acquired);
    NewBlockCounted(m, m', m.nextBlock, m.nextHandle);
    NewBlockShape(m, m', p, m.nextBlock, acquired);
    NewBlockEvolves(m, m', p, m.nextBlock, acquired);
  }

  /** A new block whose one reference is held by a new handle keeps the use counts right. */
  lemma NewBlockCounted(m: Memory, m': Memory, b: BlockId, k: HandleId)
    requires Counted(m) && b !in m.blocks && k !in m.handles
    requires m'.handles == m.handles[k := Shares(b)]
    requires b in m'.blocks && m'.blocks == m.blocks[b := m'.blocks[b]] && m'.blocks[b].refs == 1
    ensures Counted(m')
  {
    forall b' | b' in m'.blocks ensures 0 < m'.blocks[b'].refs == |Holders(m'.handles, Shares(b'))| {
      HoldersInsert(m.handles, k, Shares(b), Shares(b'));
      if b' == b {
        UnusedBlockHasNoHolders(m, b);
      }
    }
  }

  lemma NewBlockStepHolds(m: Memory, p: Addr, acquired: bool)
    requires Fresh(m) && Secret(m, p).None?
    ensures NewBlockStep(m, PrivateCtor(m, p, acquired).0, p, m.nextBlock, acquired)
    ensures PrivateCtor(m, p, acquired).0.handles == m.handles[m.nextHandle := Shares(m.nextBlock)]
    ensures m.nextBlock !in m.blocks && m.nextHandle !in m.handles
  {
    var b := m.nextBlock;
    var m' := PrivateCtor(m, p, acquired).0;
    assert m'.blocks == m.blocks[b := Block(p, acquired, false, 1)];
  }

  /** A notifier object whose back-reference does not lock has no block at all. */
  lemma NoBlockWithoutSecret(m: Memory, p: Addr)
    requires Notified(m) && Notifying(m, p) && Secret(m, p).None?
    ensures forall b :: b in m.blocks ==> m.blocks[b].addr != p
  {
    forall b | b in m.blocks ensures m.blocks[b].addr != p {
      if m.blocks[b].addr == p {
        assert false;
      }
    }
  }

  /** The post-state of the private constructor when it creates block `b` for `p`. */
  ghost predicate NewBlockStep(m: Memory, m': Memory, p: Addr, b: BlockId, acquired: bool)
  {
    && b == m.nextBlock
    && m'.header == m.header && m'.nextBlock == b + 1
    && m'.blocks == m.blocks[b := Block(p, acquired, false, 1)]
    && m'.objects == (if Notifying(m, p) then m.objects[p := m.objects[p].(backRef := Some(b))] else m.objects)
    && (forall h :: h in m'.handles ==> h < m'.nextHandle) && m.nextHandle <= m'.nextHandle
  }

  lemma NewBlockShape(m: Memory, m': Memory, p: Addr, b: BlockId, acquired: bool)
    requires Fresh(m) && Addressed(m) && Notified(m) && Owned(m) && Secret(m, p).None?
    requires p == 0 ==> m.header != Inc
    requires p != 0 ==> OwnedOutside(m, p)
    requires NewBlockStep(m, m', p, b, acquired)
    ensures Fresh(m') && Addressed(m') && Notified(m') && Owned(m')
  {
    NewBlockFresh(m, m', p, b, acquired);
    NewBlockAddressed(m, m', p, b, acquired);
    if Notifying(m, p) {
      NoBlockWithoutSecret(m, p);
      NewBlockNotifiedBackRef(m, m', p, b, acquired);
    } else {
      NewBlockNotifiedPlain(m, m', p, b, acquired);
    }
    NewBlockOwned(m, m', p, b, acquired);
  }

  lemma NewBlockEvolves(m: Memory, m': Memory, p: Addr, b: BlockId, acquired: bool)
    requires Fresh(m) && NewBlockStep(m, m', p, b, acquired)
    ensures Evolves(m, m')
  {
  }

  lemma NewBlockFresh(m: Memory, m': Memory, p: Addr, b: BlockId, acquired: bool)
    requires Fresh(m) && NewBlockStep(m, m', p, b, acquired)
    ensures Fresh(m')
  {
  }

  lemma NewBlockAddressed(m: Memory, m': Memory, p: Addr, b: BlockId, acquired: bool)
    requires Addressed(m) && NewBlockStep(m, m', p, b, acquired)
    requires p == 0 ==> m.header != Inc
    requires p != 0 ==> p in m.objects
    ensures Addressed(m')
  {
  }

  lemma NewBlockNotifiedPlain(m: Memory, m': Memory, p: Addr, b: BlockId, acquired: bool)
    requires Notified(m) && NewBlockStep(m, m', p, b, acquired) && !Notifying(m, p)
    requires Fresh(m)
    ensures Notified(m')
  {
    assert m'.objects == m.objects;
  }

  lemma NewBlockNotifiedBackRef(m: Memory, m': Memory, p: Addr, b: BlockId, acquired: bool)
    requires Fresh(m) && Notified(m) && NewBlockStep(m, m', p, b, acquired) && Notifying(m, p)
    requires m.objects[p].alive
    requires forall b' :: b' in m.blocks ==> m.blocks[b'].addr != p
    ensures Notified(m')
  {
  }

  lemma NewBlockOwned(m: Memory, m': Memory, p: Addr, b: BlockId, acquired: bool)
    requires Addressed(m) && Owned(m) && NewBlockStep(m, m', p, b, acquired)
    requires p != 0 ==> OwnedOutside(m, p)
    requires Addressed(m')
    ensures Owned(m')
  {
  }

  /** The private constructor keeps the invariant whenever its caller may wrap `p`. */
  lemma PrivateCtorValid(m: Memory, p: Addr, acquired: bool)
    requires Valid(m)
    requires p == 0 ==> m.header != Inc
    requires p != 0 ==> OwnedOutside(m, p)
    ensures Valid(PrivateCtor(m, p, acquired).0) && Evolves(m, PrivateCtor(m, p, acquired).0)
  {
    if Secret(m, p).Some? {
      SharedSecretValid(m, p, acquired);
    } else {
      NewBlockValid(m, p, acquired);
    }
  }

  /**
   * The invariant with one reference to `v` still counted although no handle
   * holds it any more: the state just before that reference is released.
   */
  ghost predicate ValidButOne(m: Memory, v: Handle)
  {
    Fresh(m) && Addressed(m) && Notified(m) && Owned(m) && CountedButOne(m, v)
  }

  /** `Counted` with one reference to `v` that no handle holds. */
  ghost predicate CountedButOne(m: Memory, v: Handle)
  {
    && (v.Shares? ==> v.block in m.blocks)
    && (forall h :: h in m.handles && m.handles[h].Shares? ==> m.handles[h].block in m.blocks)
    && (forall b :: b in m.blocks ==>
          0 < m.blocks[b].refs == |Holders(m.handles, Shares(b))| + (if v == Shares(b) then 1 else 0))
  }

  /**
   * A destructor run on an object that no unacquired block owns keeps the
   * invariant; for a notifier object the block its back-reference locks
   * becomes deleted.
   */
  lemma DestructValid(m: Memory, a: Addr)
    requires Valid(m) && a in m.objects && m.objects[a].alive
    requires forall b :: b in m.blocks && m.blocks[b].addr == a ==> m.blocks[b].acquired
    ensures Valid(Destruct(m, a)) && Evolves(m, Destruct(m, a))
  {
    DestructFrame(m, a);
    DestructNotified(m, a);
    DestructOwned(m, a);
  }

  lemma DestructFrame(m: Memory, a: Addr)
    requires Fresh(m) && Counted(m) && Addressed(m) && a in m.objects
    ensures Fresh(Destruct(m, a)) && Counted(Destruct(m, a)) && Addressed(Destruct(m, a))
    ensures Evolves(m, Destruct(m, a))
  {
    DestructShape(m, a);
    DestructCounted(m, Destruct(m, a));
  }

  /** The destructor writes at most the `deleted` flag of one block. */
  lemma DestructShape(m: Memory, a: Addr)
    requires a in m.objects
    ensures var r := Destruct(m, a);
      && r.handles == m.handles && r.blocks.Keys == m.blocks.Keys
      && forall b :: b in m.blocks ==> r.blocks[b] == m.blocks[b].(deleted := r.blocks[b].deleted)
  {
  }

  /** A step that may set `deleted` flags but changes no handle and no count keeps `Counted`. */
  lemma DestructCounted(m: Memory, m': Memory)
    requires Counted(m) && m'.handles == m.handles && m'.blocks.Keys == m.blocks.Keys
    requires forall b :: b in m.blocks ==> m'.blocks[b] == m.blocks[b].(deleted := m'.blocks[b].deleted)
    ensures Counted(m')
  {
  }

  lemma DestructOwned(m: Memory, a: Addr)
    requires Addressed(m) && Owned(m) && a in m.objects
    requires forall b :: b in m.blocks && m.blocks[b].addr == a ==> m.blocks[b].acquired
    requires Addressed(Destruct(m, a))
    ensures Owned(Destruct(m, a))
  {
  }

  lemma DestructNotified(m: Memory, a: Addr)
    requires Addressed(m) && Notified(m) && a in m.objects && m.objects[a].alive
    ensures Notified(Destruct(m, a))
  {
    var m' := Destruct(m, a);
    forall b | b in m'.blocks ensures (m'.blocks[b].deleted <==> Destroyed(m', m'.blocks[b].addr)) {
      if m.blocks[b].addr == a && Notifying(m, a) {
        assert m.objects[a].backRef == Some(b);
      }
    }
  }

  /** Freeing a block no handle holds keeps the invariant. */
  lemma FreeValid(m: Memory, b: BlockId)
    requires ValidButOne(m, Shares(b)) && m.blocks[b].refs == 1
    ensures Valid(m.(blocks := m.blocks - {b}))
    ensures Holders(m.handles, Shares(b)) == {}
  {
    var m' := m.(blocks := m.blocks - {b});
    assert |Holders(m.handles, Shares(b))| == 0;
    NoHolders(m.handles, Shares(b));
    assert Counted(m');
  }

  /**
   * Releasing the reference that `ValidButOne` still counts restores the
   * invariant: the count drops, or the last reference runs `owned_deleter`,
   * which destroys the object exactly when the block was not acquired.
   */
  lemma ReleaseValid(m: Memory, v: Handle)
    requires ValidButOne(m, v)
    ensures Valid(Release(m, v)) && Evolves(m, Release(m, v))
  {
    match v
    case Empty =>
    case Shares(b) =>
      if m.blocks[b].refs > 1 {
        ReleaseDecrement(m, b);
      } else {
        ReleaseLast(m, b);
      }
  }

  lemma ReleaseDecrement(m: Memory, b: BlockId)
    requires ValidButOne(m, Shares(b)) && m.blocks[b].refs > 1
    ensures Valid(Release(m, Shares(b))) && Evolves(m, Release(m, Shares(b)))
  {
    var m' := Release(m, Shares(b));
    assert m'.blocks == m.blocks[b := m.blocks[b].(refs := m.blocks[b].refs - 1)];
    RefsFrame(m, m');
    DecrementCounted(m, b);
  }

  lemma DecrementCounted(m: Memory, b: BlockId)
    requires CountedButOne(m, Shares(b)) && m.blocks[b].refs > 1
    ensures Counted(m.(blocks := m.blocks[b := m.blocks[b].(refs := m.blocks[b].refs - 1)]))
  {
  }

  lemma ReleaseLast(m: Memory, b: BlockId)
    requires ValidButOne(m, Shares(b)) && m.blocks[b].refs == 1
    ensures Valid(Release(m, Shares(b))) && Evolves(m, Release(m, Shares(b)))
  {
    var blk := m.blocks[b];
    var freed := m.(blocks := m.blocks - {b});
    FreeValid(m, b);
    assert Evolves(m, freed);
    if !blk.acquired && blk.addr in m.objects {
      forall b' | b' in freed.blocks && freed.blocks[b'].addr == blk.addr
        ensures freed.blocks[b'].acquired
      {
        assert b' != b;
      }
      DestructValid(freed, blk.addr);
      EvolvesTransitive(m, freed, Destruct(freed, blk.addr));
    }
  }

  /** A step that changes nothing but use counts and handle bindings keeps every part of the invariant except the counts. */
  lemma RefsFrame(m: Memory, m': Memory)
    requires Fresh(m) && Addressed(m) && Notified(m) && Owned(m)
    requires m'.header == m.header && m'.objects == m.objects && m'.nextBlock == m.nextBlock
    requires m'.blocks.Keys == m.blocks.Keys
    requires forall b :: b in m.blocks ==> m'.blocks[b] == m.blocks[b].(refs := m'.blocks[b].refs)
    requires forall h :: h in m'.handles ==> h < m'.nextHandle
    requires m.nextHandle <= m'.nextHandle
    ensures Fresh(m') && Addressed(m') && Notified(m') && Owned(m') && Evolves(m, m')
  {
    ShapeFrame(m, m');
  }

  /** Allocating a handle keeps the invariant. */
  lemma NewHandleValid(m: Memory, v: Handle)
    requires Valid(m) && (v.Shares? ==> v.block in m.blocks)
    ensures Valid(NewHandle(m, v).0) && Evolves(m, NewHandle(m, v).0)
  {
    NewHandleCounted(m, v);
    RefsFrame(m, NewHandle(m, v).0);
  }

  /** The block the private constructor binds its handle to: the one the back-reference locks, or a new one. */
  function CtorBlock(m: Memory, p: Addr): BlockId
  {
    match Secret(m, p)
    case Some(b) => b
    case None => m.nextBlock
  }

  /**
   * What the private constructor leaves behind: a new handle bound to
   * `CtorBlock`, a block with address `p` and the constructor's `acquired`;
   * every other handle and block as it was.
   */
  lemma PrivateCtorShape(m: Memory, p: Addr, acquired: bool)
    requires Fresh(m) && Notified(m)
    ensures var (m', k) := PrivateCtor(m, p, acquired); var b := CtorBlock(m, p);
      && k == m.nextHandle
      && m'.handles == m.handles[k := Shares(b)]
      && b in m'.blocks && m'.blocks[b].addr == p && m'.blocks[b].acquired == acquired
      && m'.blocks == m.blocks[b := m'.blocks[b]]
      && m'.objects == if Secret(m, p).None? && Notifying(m, p)
                       then m.objects[p := m.objects[p].(backRef := Some(b))] else m.objects
  {
    var m' := PrivateCtor(m, p, acquired).0;
    var b := CtorBlock(m, p);
    if Secret(m, p).Some? {
      assert m'.blocks == m.blocks[b := m.blocks[b].(acquired := acquired, refs := m.blocks[b].refs + 1)];
      assert m'.handles == m.handles[m.nextHandle := Shares(b)];
      assert m'.objects == m.objects;
      assert m.blocks[b].addr == p;
    } else {
      assert m'.blocks == m.blocks[b := Block(p, acquired, false, 1)];
      assert b !in m.blocks;
    }
  }

  /** What the private constructor leaves for the null pointer: a handle on a new block of its own, with one reference. */
  lemma NullCtorShape(m: Memory)
    requires Fresh(m)
    ensures var (m', k) := PrivateCtor(m, 0, false);
      && k == m.nextHandle && m'.handles == m.handles[k := Shares(m.nextBlock)]
      && m'.blocks == m.blocks[m.nextBlock := Block(0, false, false, 1)] && m'.objects == m.objects
  {
  }

  /** Adding a newly allocated object keeps the invariant; its caller holds it alone. */
  lemma AddObjectValid(m: Memory, p: Addr, notifier: bool)
    requires Valid(m) && p != 0 && p !in m.objects
    ensures var m' := m.(objects := m.objects[p := Object(true, notifier, None)]);
      Valid(m') && Evolves(m, m') && OwnedOutside(m', p)
  {
    var m' := m.(objects := m.objects[p := Object(true, notifier, None)]);
    forall b | b in m.blocks ensures m.blocks[b].addr != p {
    }
    AddObjectNotified(m, m', p);
  }

  lemma AddObjectNotified(m: Memory, m': Memory, p: Addr)
    requires Notified(m) && p !in m.objects && m'.blocks == m.blocks && p in m'.objects
    requires m'.objects == m.objects[p := m'.objects[p]] && m'.objects[p].alive && m'.objects[p].backRef.None?
    requires forall b :: b in m.blocks ==> m.blocks[b].addr != p
    ensures Notified(m')
  {
  }

  /* ----------------------------------------------------------------------
   * Transitions
   * ---------------------------------------------------------------------- */

  /**
   * `owned_pointer()` and `owned_pointer(nullptr)`: an empty handle; in
   * ptr_owned_by_unique.hpp a handle on a block of its own for the null
   * pointer, not acquired.
   */
  function Default(m: Memory): (r: (Memory, HandleId))
    requires Valid(m)
    ensures Valid(r.0) && Evolves(m, r.0)
    ensures r.1 !in m.handles && r.1 in r.0.handles && r.0.handles == m.handles[r.1 := r.0.handles[r.1]]
    ensures r.0.handles[r.1].Empty? <==> m.header != PtrOwnedByUnique
    ensures r.0.handles[r.1].Shares? ==> r.0.blocks[r.0.handles[r.1].block] == Block(0, false, false, 1)
    ensures r.0.objects == m.objects
    ensures m.header != PtrOwnedByUnique ==> r.0.blocks == m.blocks
    ensures m.header == PtrOwnedByUnique ==>
      m.nextBlock !in m.blocks && r.0.blocks == m.blocks[m.nextBlock := Block(0, false, false, 1)]
    ensures Pointer(r.0, r.1) == 0 && !Acquired(r.0, r.1) && !Expired(r.0, r.1)
  {
    if m.header == PtrOwnedByUnique then
      PrivateCtorValid(m, 0, false);
      NullCtorShape(m);
      PrivateCtor(m, 0, false)
    else
      NewHandleValid(m, Empty);
      NewHandle(m, Empty)
  }

  /**
   * The constructors from a `unique_ptr` (`acquired` false) and from a link
   * to one (`acquired` true). The caller's `unique_ptr` owns `p` alone. In
   * inc/owned_pointer.hpp a null pointer gives an empty handle; otherwise the
   * private constructor runs.
   */
  function Wrap(m: Memory, p: Addr, acquired: bool): (r: (Memory, HandleId))
    requires Valid(m) && (p == 0 || OwnedOutside(m, p))
    ensures Valid(r.0) && Evolves(m, r.0)
    ensures r.1 !in m.handles && r.1 in r.0.handles && r.0.handles == m.handles[r.1 := r.0.handles[r.1]]
    ensures Pointer(r.0, r.1) == p
    ensures p == 0 && m.header == Inc ==> r.0.handles[r.1].Empty? && r.0.blocks == m.blocks && r.0.objects == m.objects
    ensures p != 0 || m.header != Inc ==> Acquired(r.0, r.1) == acquired
    ensures p != 0 || m.header != Inc ==> var b := CtorBlock(m, p);
      && r.0.handles[r.1] == Shares(b)
      && r.0.blocks == m.blocks[b := r.0.blocks[b]]
      && r.0.objects == if Secret(m, p).None? && Notifying(m, p)
                        then m.objects[p := m.objects[p].(backRef := Some(b))] else m.objects
  {
    if p == 0 && m.header == Inc then
      NewHandleValid(m, Empty);
      NewHandle(m, Empty)
    else
      PrivateCtorValid(m, p, acquired);
      PrivateCtorShape(m, p, acquired);
      PrivateCtor(m, p, acquired)
  }

  /**
   * An object allocated at the unused address `p` and owned by the caller's
   * `unique_ptr` alone, so that it may then be wrapped. It has a notifier
   * only when it was built as a `destruction_notify_object`, as `make_owned`
   * does for a type with a virtual destructor: the wrap finds the notifier by
   * a `dynamic_cast` to `shared_secret`, so a plain `std::make_unique<T>`
   * object has none, whatever its destructor.
   */
  function NewObject(m: Memory, p: Addr, notifier: bool): (r: Memory)
    requires Valid(m) && p != 0 && p !in m.objects
    ensures Valid(r) && Evolves(m, r) && OwnedOutside(r, p)
    ensures r.handles == m.handles && r.blocks == m.blocks
    ensures r.objects == m.objects[p := Object(true, notifier, None)]
  {
    AddObjectValid(m, p, notifier);
    m.(objects := m.objects[p := Object(true, notifier, None)])
  }

  /**
   * `make_owned<T>(args...)`: a new object at the unused address `p`, with a
   * destruction notifier when `T` has a virtual destructor, wrapped as from a
   * `unique_ptr`.
   */
  function MakeOwned(m: Memory, p: Addr, virtualDtor: bool): (r: (Memory, HandleId))
    requires Valid(m) && p != 0 && p !in m.objects
    ensures Valid(r.0) && Evolves(m, r.0)
    ensures r.1 !in m.handles && r.1 in r.0.handles && r.0.handles == m.handles[r.1 := r.0.handles[r.1]]
    ensures p in r.0.objects && r.0.objects == m.objects[p := r.0.objects[p]] && r.0.objects[p].alive
    ensures Notifying(r.0, p) == virtualDtor
    ensures r.0.handles[r.1].Shares? && UseCount(r.0, r.1) == 1
    ensures Pointer(r.0, r.1) == p && !Acquired(r.0, r.1) && !Expired(r.0, r.1)
    ensures virtualDtor ==> r.0.objects[p].backRef == Some(r.0.handles[r.1].block)
    ensures r.0.handles == m.handles[r.1 := Shares(m.nextBlock)] && m.nextBlock !in m.blocks
    ensures r.0.blocks == m.blocks[m.nextBlock := Block(p, false, false, 1)]
    ensures r.0.objects == m.objects[p := Object(true, virtualDtor, if virtualDtor then Some(m.nextBlock) else None)]
  {
    var m1 := NewObject(m, p, virtualDtor);
    MakeOwnedShape(m, p, virtualDtor);
    var r := Wrap(m1, p, false);
    EvolvesTransitive(m, m1, r.0);
    r
  }

  /** The state `make_owned` leaves: one new object, one new block and one new handle. */
  lemma MakeOwnedShape(m: Memory, p: Addr, virtualDtor: bool)
    requires Fresh(m) && p != 0 && p !in m.objects
    ensures var m1 := m.(objects := m.objects[p := Object(true, virtualDtor, None)]);
      var (m', k) := PrivateCtor(m1, p, false);
      && k == m.nextHandle
      && m'.handles == m.handles[k := Shares(m.nextBlock)]
      && m'.blocks == m.blocks[m.nextBlock := Block(p, false, false, 1)]
      && m'.objects == m.objects[p := Object(true, virtualDtor, if virtualDtor then Some(m.nextBlock) else None)]
  {
  }

  /** Binding handle `dst` to `v` leaves its old reference counted but unheld. */
  lemma AttachButOne(m: Memory, dst: HandleId, v: Handle)
    requires Valid(m) && dst in m.handles && (v.Shares? ==> v.block in m.blocks) && m.handles[dst] != v
    ensures ValidButOne(Attach(m, dst, v), m.handles[dst]) && Evolves(m, Attach(m, dst, v))
  {
    AttachFrame(m, dst, v);
    AttachCounts(m, dst, v);
  }

  lemma AttachFrame(m: Memory, dst: HandleId, v: Handle)
    requires Fresh(m) && Addressed(m) && Notified(m) && Owned(m)
    requires dst in m.handles && (v.Shares? ==> v.block in m.blocks)
    ensures var m' := Attach(m, dst, v);
      Fresh(m') && Addressed(m') && Notified(m') && Owned(m') && Evolves(m, m')
  {
    RefsFrame(m, Attach(m, dst, v));
  }

  lemma AttachCounts(m: Memory, dst: HandleId, v: Handle)
    requires Counted(m) && dst in m.handles && (v.Shares? ==> v.block in m.blocks) && m.handles[dst] != v
    ensures var m' := Attach(m, dst, v);
      && (forall h :: h in m'.handles && m'.handles[h].Shares? ==> m'.handles[h].block in m'.blocks)
      && (forall b :: b in m'.blocks ==>
            0 < m'.blocks[b].refs == |Holders(m'.handles, Shares(b))| + (if m.handles[dst] == Shares(b) then 1 else 0))
  {
    var m' := Attach(m, dst, v);
    assert m'.handles == m.handles[dst := v];
    forall b | b in m'.blocks
      ensures 0 < m'.blocks[b].refs == |Holders(m'.handles, Shares(b))| + (if m.handles[dst] == Shares(b) then 1 else 0)
    {
      assert m'.blocks[b].refs == m.blocks[b].refs + (if v == Shares(b) then 1 else 0);
      HoldersUpdate(m.handles, dst, v, Shares(b));
    }
  }

  /** `owned_pointer(const owned_pointer&)` and `ptr_static_cast`: a new handle sharing the block. */
  function Copy(m: Memory, src: HandleId): (r: (Memory, HandleId))
    requires Valid(m) && src in m.handles
    ensures Valid(r.0) && Evolves(m, r.0)
    ensures r.1 !in m.handles && r.0.handles == m.handles[r.1 := m.handles[src]]
    ensures Pointer(r.0, r.1) == Pointer(m, src) == Pointer(r.0, src)
    ensures Acquired(r.0, r.1) == Acquired(m, src) == Acquired(r.0, src)
    ensures Expired(r.0, r.1) == Expired(m, src) == Expired(r.0, src)
    ensures m.handles[src].Shares? ==> UseCount(r.0, r.1) == UseCount(r.0, src) == UseCount(m, src) + 1
    ensures r.0.objects == m.objects
    ensures m.handles[src].Empty? ==> r.0.blocks == m.blocks
    ensures m.handles[src].Shares? ==> var b := m.handles[src].block;
      r.0.blocks == m.blocks[b := m.blocks[b].(refs := m.blocks[b].refs + 1)]
  {
    NewHandleValid(m, m.handles[src]);
    NewHandle(m, m.handles[src])
  }

  /** The implicit and converting move constructors: a new handle takes the block, the source is left empty. */
  function Move(m: Memory, src: HandleId): (r: (Memory, HandleId))
    requires Valid(m) && src in m.handles
    ensures Valid(r.0) && Evolves(m, r.0)
    ensures r.1 !in m.handles && r.0.handles == m.handles[r.1 := m.handles[src]][src := Empty]
    ensures r.0.blocks == m.blocks && r.0.objects == m.objects
    ensures Pointer(r.0, r.1) == Pointer(m, src) && Acquired(r.0, r.1) == Acquired(m, src)
    ensures Expired(r.0, r.1) == Expired(m, src) && UseCount(r.0, r.1) == UseCount(m, src)
    ensures Pointer(r.0, src) == 0 && !Acquired(r.0, src) && !Expired(r.0, src) && UseCount(r.0, src) == 0
  {
    var k := m.nextHandle;
    var m' := m.(handles := m.handles[k := m.handles[src]][src := Empty], nextHandle := k + 1);
    RefsFrame(m, m');
    MoveCounts(m, src);
    (m', k)
  }

  lemma MoveCounts(m: Memory, src: HandleId)
    requires Fresh(m) && Counted(m) && src in m.handles
    ensures var k := m.nextHandle;
      Counted(m.(handles := m.handles[k := m.handles[src]][src := Empty], nextHandle := k + 1))
  {
    var k := m.nextHandle;
    var v := m.handles[src];
    var m' := m.(handles := m.handles[k := v][src := Empty], nextHandle := k + 1);
    assert k !in m.handles;
    forall b | b in m'.blocks ensures 0 < m'.blocks[b].refs == |Holders(m'.handles, Shares(b))| {
      HoldersInsert(m.handles, k, v, Shares(b));
      HoldersUpdate(m.handles[k := v], src, Empty, Shares(b));
    }
  }

  /**
   * Copy assignment `dst = src`: `dst` shares `src`'s block and gives up its
   * old reference, the last one of which runs the deleter. Binding a handle
   * to the block it already shares changes nothing.
   */
  function Assign(m: Memory, dst: HandleId, src: HandleId): (r: Memory)
    requires Valid(m) && dst in m.handles && src in m.handles
    ensures Valid(r) && Evolves(m, r)
    ensures r.handles == m.handles[dst := m.handles[src]]
    ensures Pointer(r, dst) == Pointer(m, src) && Acquired(r, dst) == Acquired(m, src)
    ensures Expired(r, dst) == Expired(m, src)
    ensures m.handles[dst].Shares? && m.handles[dst] != m.handles[src] ==>
      ReleasedFrom(m, Attach(m, dst, m.handles[src]).blocks, m.handles[dst].block, r)
  {
    var prev := m.handles[dst];
    var v := m.handles[src];
    if prev == v then
      assert m.handles[dst := v] == m.handles;
      m
    else
      AssignValid(m, dst, src);
      AssignKeeps(m, dst, src);
      Release(Attach(m, dst, v), prev)
  }

  lemma AssignValid(m: Memory, dst: HandleId, src: HandleId)
    requires Valid(m) && dst in m.handles && src in m.handles && m.handles[dst] != m.handles[src]
    ensures var r := Release(Attach(m, dst, m.handles[src]), m.handles[dst]);
      Valid(r) && Evolves(m, r)
  {
    var m1 := Attach(m, dst, m.handles[src]);
    AttachButOne(m, dst, m.handles[src]);
    ReleaseValid(m1, m.handles[dst]);
    EvolvesTransitive(m, m1, Release(m1, m.handles[dst]));
  }

  /** The old block is not the new one, so releasing it leaves the new one as `Attach` left it. */
  lemma AssignKeeps(m: Memory, dst: HandleId, src: HandleId)
    requires Notified(m) && dst in m.handles && src in m.handles && m.handles[dst] != m.handles[src]
    requires forall h :: h in m.handles && m.handles[h].Shares? ==> m.handles[h].block in m.blocks
    ensures var v := m.handles[src]; var r := Release(Attach(m, dst, v), m.handles[dst]);
      && r.handles == m.handles[dst := v]
      && (v.Shares? ==> v.block in r.blocks && r.blocks[v.block] == m.blocks[v.block].(refs := m.blocks[v.block].refs + 1))
      && (m.handles[dst].Shares? ==> ReleasedFrom(m, Attach(m, dst, v).blocks, m.handles[dst].block, r))
  {
    var v := m.handles[src];
    var prev := m.handles[dst];
    if v.Shares? {
      ReleaseKeeps(Attach(m, dst, v), prev, v.block);
    }
    if prev.Shares? && m.blocks[prev.block].refs == 1 {
      ReleaseLastEffect(Attach(m, dst, v), prev.block);
    }
  }

  /**
   * Releasing a reference changes no handle, and no block but its own: the
   * notifier of an object the deleter destroys finds its block already freed.
   */
  lemma ReleaseKeeps(m: Memory, v: Handle, b: BlockId)
    requires v.Shares? ==> v.block in m.blocks
    requires v.Shares? && Notifying(m, m.blocks[v.block].addr) ==> m.objects[m.blocks[v.block].addr].backRef == Some(v.block)
    requires b in m.blocks && v != Shares(b)
    ensures Release(m, v).handles == m.handles
    ensures b in Release(m, v).blocks && Release(m, v).blocks[b] == m.blocks[b]
  {
  }

  /**
   * `r` is `m` with the blocks `joined` after one reference to block `b` is
   * given up: the last one frees the block and deletes its object unless
   * the block was acquired; any other only lowers the count.
   */
  ghost predicate ReleasedFrom(m: Memory, joined: map<BlockId, Block>, b: BlockId, r: Memory)
    requires b in m.blocks
  {
    var blk := m.blocks[b];
    && (blk.refs == 1 ==>
          && r.blocks == joined - {b}
          && r.objects == if !blk.acquired && blk.addr in m.objects
                          then m.objects[blk.addr := m.objects[blk.addr].(alive := false)]
                          else m.objects)
    && (blk.refs > 1 ==> r.blocks == joined[b := blk.(refs := blk.refs - 1)] && r.objects == m.objects)
  }

  /**
   * Releasing the last reference to block `b` frees it and changes no other
   * block; the deleter kills the object exactly when `b` was not acquired.
   */
  lemma ReleaseLastEffect(m: Memory, b: BlockId)
    requires b in m.blocks && m.blocks[b].refs == 1
    requires Notifying(m, m.blocks[b].addr) ==> m.objects[m.blocks[b].addr].backRef == Some(b)
    ensures var blk := m.blocks[b]; var r := Release(m, Shares(b));
      && r.handles == m.handles && r.blocks == m.blocks - {b}
      && r.objects == if !blk.acquired && blk.addr in m.objects
                      then m.objects[blk.addr := m.objects[blk.addr].(alive := false)]
                      else m.objects
  {
  }

  /**
   * Move assignment `dst = std::move(src)`: `dst` takes `src`'s reference,
   * `src` is left empty and `dst`'s old reference is released. Moving a
   * handle onto itself changes nothing.
   */
  function MoveAssign(m: Memory, dst: HandleId, src: HandleId): (r: Memory)
    requires Valid(m) && dst in m.handles && src in m.handles
    ensures Valid(r) && Evolves(m, r)
    ensures dst == src ==> r == m
    ensures dst != src ==> r.handles == m.handles[dst := m.handles[src]][src := Empty]
    ensures Pointer(r, dst) == Pointer(m, src) && Acquired(r, dst) == Acquired(m, src)
    ensures Expired(r, dst) == Expired(m, src)
    ensures dst != src && m.handles[dst].Shares? && m.handles[dst] != m.handles[src] ==>
      ReleasedFrom(m, m.blocks, m.handles[dst].block, r)
  {
    if dst == src then m
    else
      MoveAssignValid(m, dst, src);
      MoveAssignKeeps(m, dst, src);
      Release(m.(handles := m.handles[dst := m.handles[src]][src := Empty]), m.handles[dst])
  }

  lemma MoveAssignValid(m: Memory, dst: HandleId, src: HandleId)
    requires Valid(m) && dst in m.handles && src in m.handles && dst != src
    ensures var r := Release(m.(handles := m.handles[dst := m.handles[src]][src := Empty]), m.handles[dst]);
      Valid(r) && Evolves(m, r)
  {
    var m1 := m.(handles := m.handles[dst := m.handles[src]][src := Empty]);
    MoveButOne(m, dst, src);
    ReleaseValid(m1, m.handles[dst]);
    EvolvesTransitive(m, m1, Release(m1, m.handles[dst]));
  }

  /**
   * When both handles share one block it has at least two references, so
   * releasing the old one only lowers its count; otherwise it is untouched.
   */
  lemma MoveAssignKeeps(m: Memory, dst: HandleId, src: HandleId)
    requires Counted(m) && Notified(m) && dst in m.handles && src in m.handles && dst != src
    ensures var v := m.handles[src];
      var r := Release(m.(handles := m.handles[dst := v][src := Empty]), m.handles[dst]);
      && r.handles == m.handles[dst := v][src := Empty]
      && (v.Shares? ==> v.block in r.blocks && r.blocks[v.block].(refs := 0) == m.blocks[v.block].(refs := 0))
      && (m.handles[dst].Shares? && m.handles[dst] != v ==> ReleasedFrom(m, m.blocks, m.handles[dst].block, r))
  {
    var v := m.handles[src];
    var prev := m.handles[dst];
    var m1 := m.(handles := m.handles[dst := v][src := Empty]);
    if v.Shares? && prev == v {
      var hs := Holders(m.handles, v);
      assert hs == {dst, src} + (hs - {dst, src});
      assert |{dst, src}| == 2;
    } else if v.Shares? {
      ReleaseKeeps(m1, prev, v.block);
    }
    if prev.Shares? && prev != v && m.blocks[prev.block].refs == 1 {
      ReleaseLastEffect(m1, prev.block);
    }
  }

  /** After the move, `dst`'s old reference is the one left counted but unheld. */
  lemma MoveButOne(m: Memory, dst: HandleId, src: HandleId)
    requires Valid(m) && dst in m.handles && src in m.handles && dst != src
    ensures var m1 := m.(handles := m.handles[dst := m.handles[src]][src := Empty]);
      ValidButOne(m1, m.handles[dst]) && Evolves(m, m1)
  {
    RefsFrame(m, m.(handles := m.handles[dst := m.handles[src]][src := Empty]));
    MoveCountsButOne(m, dst, src);
  }

  lemma MoveCountsButOne(m: Memory, dst: HandleId, src: HandleId)
    requires Counted(m) && dst in m.handles && src in m.handles && dst != src
    ensures CountedButOne(m.(handles := m.handles[dst := m.handles[src]][src := Empty]), m.handles[dst])
  {
    var v := m.handles[src];
    var m1 := m.(handles := m.handles[dst := v][src := Empty]);
    forall b | b in m1.blocks
      ensures 0 < m1.blocks[b].refs == |Holders(m1.handles, Shares(b))| + (if m.handles[dst] == Shares(b) then 1 else 0)
    {
      HoldersUpdate(m.handles, dst, v, Shares(b));
      HoldersUpdate(m.handles[dst := v], src, Empty, Shares(b));
    }
  }

  /** The destructor of handle `h`: its reference is released. */
  function Drop(m: Memory, h: HandleId): (r: Memory)
    requires Valid(m) && h in m.handles
    ensures Valid(r) && Evolves(m, r)
    ensures r.handles == m.handles - {h}
  {
    DropValid(m, h);
    Release(m.(handles := m.handles - {h}), m.handles[h])
  }

  lemma DropValid(m: Memory, h: HandleId)
    requires Valid(m) && h in m.handles
    ensures var r := Release(m.(handles := m.handles - {h}), m.handles[h]);
      Valid(r) && Evolves(m, r)
  {
    var m1 := m.(handles := m.handles - {h});
    DropButOne(m, h);
    ReleaseValid(m1, m.handles[h]);
    EvolvesTransitive(m, m1, Release(m1, m.handles[h]));
  }

  lemma DropButOne(m: Memory, h: HandleId)
    requires Valid(m) && h in m.handles
    ensures ValidButOne(m.(handles := m.handles - {h}), m.handles[h])
    ensures Evolves(m, m.(handles := m.handles - {h}))
  {
    var m1 := m.(handles := m.handles - {h});
    RefsFrame(m, m1);
    forall b | b in m1.blocks
      ensures 0 < m1.blocks[b].refs == |Holders(m1.handles, Shares(b))| + (if m.handles[h] == Shares(b) then 1 else 0)
    {
      HoldersRemove(m.handles, h, Shares(b));
    }
  }

  /**
   * `unique_ptr()`: a null handle gives a null `unique_ptr` and changes
   * nothing; an acquired one throws unique_ptr_already_acquired; otherwise the
   * block becomes acquired and the caller receives sole ownership of the
   * object at the handle's address.
   */
  function Acquire(m: Memory, h: HandleId): (r: (Memory, Result<Addr>))
    requires Valid(m) && h in m.handles
    ensures Valid(r.0) && Evolves(m, r.0)
    ensures r.0.handles == m.handles && r.0.objects == m.objects
    ensures Pointer(m, h) == 0 ==> r == (m, Ok(0))
    ensures Pointer(m, h) != 0 && Acquired(m, h) ==> r == (m, Err(AlreadyAcquired))
    ensures Pointer(m, h) != 0 && !Acquired(m, h) ==>
      && r.1 == Ok(Pointer(m, h))
      && Acquired(r.0, h) && Pointer(r.0, h) == Pointer(m, h)
      && OwnedOutside(r.0, Pointer(m, h))
      && r.0.blocks == m.blocks[m.handles[h].block := m.blocks[m.handles[h].block].(acquired := true)]
  {
    var p := Pointer(m, h);
    if p == 0 then (m, Ok(0))
    else if Acquired(m, h) then (m, Err(AlreadyAcquired))
    else
      AcquireValid(m, h);
      (WriteAcquired(m, m.handles[h].block, true), Ok(p))
  }

  lemma AcquireValid(m: Memory, h: HandleId)
    requires Valid(m) && h in m.handles && Pointer(m, h) != 0 && !Acquired(m, h)
    ensures var m' := WriteAcquired(m, m.handles[h].block, true);
      Valid(m') && Evolves(m, m') && OwnedOutside(m', Pointer(m, h))
  {
    WriteAcquiredValid(m, m.handles[h].block, true);
  }

  /**
   * The owner of the `unique_ptr` deletes the object at `a`: its destructor
   * runs, and a notifier marks the block its back-reference still locks, so
   * every handle on a notifier object expires.
   */
  function DeleteObject(m: Memory, a: Addr): (r: Memory)
    requires Valid(m) && a != 0 && OwnedOutside(m, a)
    ensures Valid(r) && Evolves(m, r)
    ensures r.handles == m.handles && r.objects == m.objects[a := m.objects[a].(alive := false)]
  {
    DestructValid(m, a);
    Destruct(m, a)
  }

  /** What deleting the object at `a` does to every block: only `deleted` of a notifier's block changes. */
  lemma DestructBlocks(m: Memory, a: Addr)
    requires Notified(m) && a in m.objects
    ensures var r := Destruct(m, a);
      && r.handles == m.handles && r.blocks.Keys == m.blocks.Keys
      && forall b :: b in m.blocks ==>
           && r.blocks[b].addr == m.blocks[b].addr
           && (r.blocks[b].deleted <==> m.blocks[b].deleted || (m.blocks[b].addr == a && Notifying(m, a)))
  {
  }

  /**
   * Seen through one handle, deleting the object at `a` changes no address,
   * and the handle expires iff it was expired already or it is on `a` and
   * `a` has a notifier whose back-reference still locks.
   */
  lemma DeleteObjectSeen(m: Memory, a: Addr, h: HandleId)
    requires Valid(m) && a != 0 && OwnedOutside(m, a) && h in m.handles
    ensures Pointer(DeleteObject(m, a), h) == Pointer(m, h)
    ensures Expired(DeleteObject(m, a), h) <==> Expired(m, h) || (Pointer(m, h) == a && Notifying(m, a))
  {
    DestructBlocks(m, a);
  }
}
