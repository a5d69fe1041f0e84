/**
 * What the transitions of the control-block bridge promise across calls:
 * sharing, one-shot acquisition, null handles, the deleter, the notifier,
 * re-wrapping, address-only comparison, and the places where the three
 * headers differ.
 */
module OwnedPointerProperties {
  import opened Common
  import opened OwnedPointer

  /* ----------------------------------------------------------------------
   * Sharing
   * ---------------------------------------------------------------------- */

  /** Handles sharing one block agree on address, `acquired()`, `expired()` and `use_count()`. */
  lemma SharersAgree(m: Memory, h1: HandleId, h2: HandleId)
    requires Valid(m) && h1 in m.handles && h2 in m.handles
    requires m.handles[h1] == m.handles[h2]
    ensures Pointer(m, h1) == Pointer(m, h2) && Acquired(m, h1) == Acquired(m, h2)
    ensures Expired(m, h1) == Expired(m, h2) && UseCount(m, h1) == UseCount(m, h2)
    ensures Get(m, h1) == Get(m, h2)
  {
  }

  /** A copy adds one to the use count seen through every handle sharing the block. */
  lemma CopyCountsEverySharer(m: Memory, src: HandleId, h: HandleId)
    requires Valid(m) && src in m.handles && h in m.handles
    requires m.handles[src].Shares? && m.handles[h] == m.handles[src]
    ensures UseCount(Copy(m, src).0, h) == UseCount(m, h) + 1
  {
    var r := Copy(m, src);
    SharersAgree(r.0, h, src);
  }

  /* ----------------------------------------------------------------------
   * unique_ptr()
   * ---------------------------------------------------------------------- */

  /**
   * The first `unique_ptr()` on a non-null unacquired handle hands out its
   * address; afterwards every handle on that address, through whatever block,
   * throws unique_ptr_already_acquired, while access still succeeds.
   */
  lemma AcquireOnce(m: Memory, h: HandleId, h2: HandleId)
    requires Valid(m) && h in m.handles && h2 in m.handles
    requires Pointer(m, h) != 0 && !Acquired(m, h) && Pointer(m, h2) == Pointer(m, h)
    ensures Acquire(m, h).1 == Ok(Pointer(m, h))
    ensures Acquire(Acquire(m, h).0, h2) == (Acquire(m, h).0, Err(AlreadyAcquired))
    ensures Get(Acquire(m, h).0, h2) == Ok(Pointer(m, h))
  {
    var m' := Acquire(m, h).0;
    var p := Pointer(m, h);
    assert OwnedOutside(m', p);
    assert Pointer(m', h2) == p;
    assert m'.handles[h2].Shares?;
    assert m'.blocks[m'.handles[h2].block].addr == p;
  }

  /**
   * A handle on the null pointer: `unique_ptr()` returns null and changes
   * nothing (so it can be called any number of times), `bool` and `expired()`
   * are false, and access gives the null pointer without throwing. Without a
   * block `acquired()` is false too.
   */
  lemma NullHandleInert(m: Memory, h: HandleId)
    requires Valid(m) && h in m.handles && Pointer(m, h) == 0
    ensures Acquire(m, h) == (m, Ok(0))
    ensures !IsTrue(m, h) && !Expired(m, h) && Get(m, h) == Ok(0)
    ensures m.handles[h].Empty? ==> !Acquired(m, h) && UseCount(m, h) == 0
  {
  }

  /** In inc/owned_pointer.hpp a handle is null exactly when it has no block, so `acquired()` is false on it. */
  lemma IncNullHasNoBlock(m: Memory, h: HandleId)
    requires Valid(m) && m.header == Inc && h in m.handles
    ensures Pointer(m, h) == 0 <==> m.handles[h].Empty?
    ensures Pointer(m, h) == 0 ==> !Acquired(m, h)
  {
  }

  /* ----------------------------------------------------------------------
   * The deleter
   * ---------------------------------------------------------------------- */

  /**
   * Dropping the last handle frees the block and deletes the object exactly
   * when the block was not acquired; an object deleted this way was alive
   * before, so it is destroyed once. No other block changes: the notifier of
   * the deleted object finds its own block freed and writes nothing.
   */
  lemma DropLast(m: Memory, h: HandleId)
    requires Valid(m) && h in m.handles && m.handles[h].Shares? && UseCount(m, h) == 1
    ensures var b := m.handles[h].block; var blk := m.blocks[b]; var r := Drop(m, h);
      && r.blocks == m.blocks - {b}
      && r.objects == (if !blk.acquired && blk.addr in m.objects
                       then m.objects[blk.addr := m.objects[blk.addr].(alive := false)]
                       else m.objects)
      && (blk.addr != 0 ==>
            && (r.objects[blk.addr].alive <==> m.objects[blk.addr].alive && blk.acquired)
            && (!blk.acquired ==> m.objects[blk.addr].alive))
  {
    var b := m.handles[h].block;
    var m1 := m.(handles := m.handles - {h});
    DropButOne(m, h);
    assert m1.blocks[b].refs == 1;
    ReleaseLastEffect(m1, b);
  }

  /** Dropping a handle whose block is still shared only lowers the use count. */
  lemma DropShared(m: Memory, h: HandleId)
    requires Valid(m) && h in m.handles && m.handles[h].Shares? && UseCount(m, h) > 1
    ensures var b := m.handles[h].block; var r := Drop(m, h);
      r.blocks == m.blocks[b := m.blocks[b].(refs := m.blocks[b].refs - 1)] && r.objects == m.objects
  {
    var b := m.handles[h].block;
    assert m.blocks[b].refs > 1;
  }

  /* ----------------------------------------------------------------------
   * The notifier
   * ---------------------------------------------------------------------- */

  /**
   * Deleting an object whose notifier still locks its block expires every
   * handle on it, and access through any of them throws ptr_is_already_deleted.
   */
  lemma DeleteExpiresHandles(m: Memory, a: Addr, h: HandleId)
    requires Valid(m) && a != 0 && OwnedOutside(m, a) && Notifying(m, a)
    requires h in m.handles && Pointer(m, h) == a
    ensures Expired(DeleteObject(m, a), h)
    ensures Get(DeleteObject(m, a), h) == Err(AlreadyDeleted)
  {
    DeleteObjectSeen(m, a, h);
  }

  /**
   * The life of a notifier object handed out once: `unique_ptr()` succeeds,
   * its owner deletes the object, and from then on access through every
   * handle on that address throws, and so does access through a copy made
   * afterwards.
   */
  lemma AcquireThenDeleteExpires(m: Memory, h: HandleId, h2: HandleId)
    requires Valid(m) && h in m.handles && h2 in m.handles
    requires Pointer(m, h) != 0 && !Acquired(m, h) && Notifying(m, Pointer(m, h))
    requires Pointer(m, h2) == Pointer(m, h)
    ensures var (m2, got) := Acquire(m, h);
      && got == Ok(Pointer(m, h)) && OwnedOutside(m2, Pointer(m, h))
      && var m3 := DeleteObject(m2, Pointer(m, h));
      && Get(m3, h2) == Err(AlreadyDeleted)
      && Get(Copy(m3, h).0, Copy(m3, h).1) == Err(AlreadyDeleted)
  {
    var p := Pointer(m, h);
    var (m2, got) := Acquire(m, h);
    assert Pointer(m2, h2) == p && Pointer(m2, h) == p;
    DeleteExpiresHandles(m2, p, h2);
    DeleteExpiresHandles(m2, p, h);
  }

  /**
   * The notifier writes `deleted` only through a weak reference that locks:
   * when the back-reference names a freed block, the destructor changes no
   * block at all.
   */
  lemma NotifierNeedsLock(m: Memory, a: Addr)
    requires a in m.objects
    requires m.objects[a].backRef.None? || m.objects[a].backRef.value !in m.blocks
    ensures Destruct(m, a).blocks == m.blocks
  {
  }

  /** Deleting an object without a notifier expires nobody; its handles dangle. */
  lemma DeleteWithoutNotifier(m: Memory, a: Addr, h: HandleId)
    requires Valid(m) && a != 0 && OwnedOutside(m, a) && !Notifying(m, a)
    requires h in m.handles
    ensures Expired(DeleteObject(m, a), h) == Expired(m, h)
    ensures Get(DeleteObject(m, a), h) == Get(m, h)
  {
    DeleteObjectSeen(m, a, h);
  }

  /** Once expired, a handle stays expired for as long as it keeps its block. */
  lemma ExpiredStaysExpired(m: Memory, m': Memory, h: HandleId)
    requires Valid(m) && Valid(m') && Evolves(m, m')
    requires h in m.handles && h in m'.handles && m'.handles[h] == m.handles[h]
    requires Expired(m, h)
    ensures Expired(m', h) && Get(m', h) == Err(AlreadyDeleted)
  {
  }

  /* ----------------------------------------------------------------------
   * Re-wrapping
   * ---------------------------------------------------------------------- */

  /**
   * Wrapping a notifier object whose block is alive reuses that block and
   * overwrites `acquired` for every handle on it: false from a `unique_ptr`,
   * true from a link.
   */
  lemma WrapReusesLiveBlock(m: Memory, p: Addr, acquired: bool, h: HandleId)
    requires Valid(m) && p != 0 && OwnedOutside(m, p) && Secret(m, p).Some?
    requires h in m.handles && m.handles[h] == Shares(Secret(m, p).value)
    ensures var r := Wrap(m, p, acquired);
      && r.0.handles[r.1] == m.handles[h]
      && Acquired(r.0, h) == acquired
      && UseCount(r.0, h) == UseCount(m, h) + 1
  {
    PrivateCtorShape(m, p, acquired);
    var r := Wrap(m, p, acquired);
    SharersAgree(r.0, h, r.1);
    assert r.0.blocks[Secret(m, p).value].refs == m.blocks[Secret(m, p).value].refs + 1;
  }

  /**
   * Otherwise the wrap creates a block of its own, never seen before, with
   * one user and the constructor's `acquired`, and a notifier object's
   * back-reference is pointed at it.
   */
  lemma WrapCreatesBlock(m: Memory, p: Addr, acquired: bool)
    requires Valid(m) && (p == 0 || OwnedOutside(m, p)) && Secret(m, p).None?
    requires p != 0 || m.header != Inc
    ensures var r := Wrap(m, p, acquired);
      && r.0.handles[r.1] == Shares(m.nextBlock) && m.nextBlock !in m.blocks
      && UseCount(r.0, r.1) == 1 && Acquired(r.0, r.1) == acquired
      && (Notifying(m, p) ==> r.0.objects[p].backRef == Some(m.nextBlock))
  {
    PrivateCtorShape(m, p, acquired);
  }

  /* ----------------------------------------------------------------------
   * Comparison
   * ---------------------------------------------------------------------- */

  /**
   * Comparison looks at addresses alone: deleting, acquiring or re-wrapping
   * an object changes no comparison result, and none of them throws.
   */
  lemma CompareSurvivesDeletion(m: Memory, a: Addr, h: HandleId, p: Addr, rel: Relation)
    requires Valid(m) && a != 0 && OwnedOutside(m, a) && h in m.handles
    ensures Compare(DeleteObject(m, a), h, p) == Compare(m, h, p)
    ensures Relate(DeleteObject(m, a), h, rel, p) == Relate(m, h, rel, p)
  {
    DeleteObjectSeen(m, a, h);
  }

  lemma CompareSurvivesAcquire(m: Memory, h: HandleId, h2: HandleId, p: Addr)
    requires Valid(m) && h in m.handles && h2 in m.handles
    ensures Compare(Acquire(m, h).0, h2, p) == Compare(m, h2, p)
  {
    var m' := Acquire(m, h).0;
    if m'.handles[h2].Shares? {
      assert m'.blocks[m'.handles[h2].block].addr == m.blocks[m.handles[h2].block].addr;
    }
  }

  /** Swapping two handles negates their three-way comparison. */
  lemma CompareHandlesAntisymmetric(m: Memory, h1: HandleId, h2: HandleId)
    requires Valid(m) && h1 in m.handles && h2 in m.handles
    ensures CompareHandles(m, h1, h2) == -CompareHandles(m, h2, h1)
  {
    CompareAddrAntisymmetric(Pointer(m, h1), Pointer(m, h2));
  }

  /* ----------------------------------------------------------------------
   * Where the headers differ
   * ---------------------------------------------------------------------- */

  /**
   * owned_pointer.hpp and ptr_owned_by_unique.hpp give a null `unique_ptr` or
   * link a block of its own: `bool` is false, `unique_ptr()` returns null,
   * and `acquired()` reports the constructor's flag, so a null link is
   * acquired.
   */
  lemma NullWrapHasBlock(m: Memory, acquired: bool)
    requires Valid(m) && m.header != Inc
    ensures var r := Wrap(m, 0, acquired);
      && r.0.handles[r.1].Shares?
      && !IsTrue(r.0, r.1) && Acquired(r.0, r.1) == acquired
      && Acquire(r.0, r.1) == (r.0, Ok(0))
  {
  }

  /** In inc/owned_pointer.hpp the same wraps give an empty handle that is never acquired. */
  lemma IncNullWrapIsEmpty(m: Memory, acquired: bool)
    requires Valid(m) && m.header == Inc
    ensures var r := Wrap(m, 0, acquired);
      r.0.handles[r.1].Empty? && !Acquired(r.0, r.1) && UseCount(r.0, r.1) == 0 && r.0.blocks == m.blocks
  {
  }

  /* ----------------------------------------------------------------------
   * Scenarios
   * ---------------------------------------------------------------------- */

  /**
   * `acquired` is not monotone: make an object with a virtual destructor,
   * acquire it, then wrap the `unique_ptr` again; the old handle reports
   * `acquired()` false once more, and the new one shares its block.
   */
  lemma AcquiredIsNotMonotone(header: Header)
    ensures var m0 := Initial(header);
      var (m1, h) := MakeOwned(m0, 1, true);
      var (m2, got) := Acquire(m1, h);
      var (m3, k) := Wrap(m2, 1, false);
      && got == Ok(1) && Acquired(m2, h)
      && !Acquired(m3, h) && !Acquired(m3, k)
      && m3.handles[k] == m3.handles[h] && UseCount(m3, h) == 2
  {
    var m0 := Initial(header);
    var (m1, h) := MakeOwned(m0, 1, true);
    var (m2, got) := Acquire(m1, h);
    assert OwnedOutside(m2, 1);
    assert Secret(m2, 1) == Some(m2.handles[h].block);
    WrapReusesLiveBlock(m2, 1, false, h);
  }

  /** The state `make_owned` leaves when it allocates address 1 in the initial state. */
  function Made(header: Header, virtualDtor: bool): (m: Memory)
    ensures Valid(m)
  {
    var handles := map[0 := Shares(0)];
    assert Holders(handles, Shares(0)) == {0};
    Memory(header, map[0 := Block(1, false, false, 1)],
      map[1 := Object(true, virtualDtor, if virtualDtor then Some(0) else None)], handles, 1, 1)
  }

  lemma MadeState(header: Header, virtualDtor: bool)
    ensures MakeOwned(Initial(header), 1, virtualDtor) == (Made(header, virtualDtor), 0)
  {
    MakeOwnedShape(Initial(header), 1, virtualDtor);
  }

  /** Two handles, 0 and 1, on the object `make_owned` allocated at address 1. */
  function Shared(header: Header, virtualDtor: bool, refs: nat): (m: Memory)
    requires refs == 1 || refs == 2
    ensures Valid(m)
  {
    var handles := if refs == 2 then map[0 := Shares(0), 1 := Shares(0)] else map[1 := Shares(0)];
    assert Holders(handles, Shares(0)) == if refs == 2 then {0, 1} else {1};
    Memory(header, map[0 := Block(1, false, false, refs)],
      map[1 := Object(true, virtualDtor, if virtualDtor then Some(0) else None)], handles, 1, 2)
  }

  lemma CopyMade(header: Header, virtualDtor: bool)
    ensures Copy(Made(header, virtualDtor), 0) == (Shared(header, virtualDtor, 2), 1)
  {
    var r := Copy(Made(header, virtualDtor), 0);
    assert r.0.blocks == Shared(header, virtualDtor, 2).blocks;
  }

  lemma DropOriginal(header: Header, virtualDtor: bool)
    ensures Drop(Shared(header, virtualDtor, 2), 0) == Shared(header, virtualDtor, 1)
  {
    var m := Shared(header, virtualDtor, 2);
    DropShared(m, 0);
    assert m.handles - {0} == Shared(header, virtualDtor, 1).handles;
  }

  lemma DropCopy(header: Header, virtualDtor: bool)
    ensures var m := Drop(Shared(header, virtualDtor, 1), 1);
      m.handles == map[] && m.blocks == map[] && !m.objects[1].alive
  {
    var m := Shared(header, virtualDtor, 1);
    assert m.handles - {1} == map[];
    assert m.blocks - {0} == map[];
  }

  /**
   * The wrapped object is deleted once its last handle goes: make, copy,
   * drop the original (the object lives on), drop the copy (it is gone and
   * its block with it).
   */
  lemma LastOfTwoDeletes(header: Header, virtualDtor: bool)
    ensures var (m1, h) := MakeOwned(Initial(header), 1, virtualDtor);
      var (m2, c) := Copy(m1, h);
      var m3 := Drop(m2, h);
      var m4 := Drop(m3, c);
      && UseCount(m2, c) == 2 && m3.objects[1].alive && UseCount(m3, c) == 1
      && !m4.objects[1].alive && m4.blocks == map[] && m4.handles == map[]
  {
    MadeState(header, virtualDtor);
    CopyMade(header, virtualDtor);
    DropOriginal(header, virtualDtor);
    DropCopy(header, virtualDtor);
  }

  /**
   * A notifier object that was acquired and then lost its last handle keeps
   * living in its `unique_ptr`; wrapping it again makes a new block, not
   * acquired and not expired.
   */
  lemma RewrapAfterRelease(header: Header)
    ensures var m0 := Initial(header);
      var (m1, h) := MakeOwned(m0, 1, true);
      var (m2, _) := Acquire(m1, h);
      var m3 := Drop(m2, h);
      var (m4, k) := Wrap(m3, 1, false);
      && m3.objects[1].alive && m3.blocks == map[]
      && m4.handles[k] == Shares(m3.nextBlock) && m3.nextBlock != m1.handles[h].block
      && !Acquired(m4, k) && !Expired(m4, k) && Get(m4, k) == Ok(1)
  {
    MadeState(header, true);
    AcquireThenDrop(header);
    WrapCreatesBlock(Drop(Acquire(Made(header, true), 0).0, 0), 1, false);
  }

  /** The first half: after `make_owned`, `unique_ptr()` and dropping the only handle, the object is owned outside. */
  lemma AcquireThenDrop(header: Header)
    ensures var m3 := Drop(Acquire(Made(header, true), 0).0, 0);
      OwnedOutside(m3, 1) && m3.blocks == map[] && Secret(m3, 1).None? && m3.nextBlock == 1
  {
    var m2 := Acquire(Made(header, true), 0).0;
    assert m2.blocks == map[0 := Block(1, true, false, 1)];
    DropLast(m2, 0);
  }
}
