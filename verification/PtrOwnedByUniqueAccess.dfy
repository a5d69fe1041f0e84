/**
 * The accessors of ptr_owned_by_unique.hpp as written. `is_acquired()`,
 * `get_pointer()` and the deleted check read the control block through the
 * `shared_ptr` base without first asking whether the base holds one. Every
 * constructor of that header creates a block, but the move constructor and
 * move assignment the compiler generates leave the source's base empty, and
 * reading through an empty `shared_ptr` is undefined behaviour. Here that
 * outcome is `None`.
 *
 * inc/owned_pointer.hpp guards the same reads with `base::operator bool()`,
 * which is what `OwnedPointer.Pointer`, `OwnedPointer.Acquired` and
 * `OwnedPointer.Expired` model; `MovedFromHandleIsInert` states what that
 * guard buys.
 */
module PtrOwnedByUniqueAccess {
  import opened Common
  import opened OwnedPointer

  /** `base::operator*()` on a handle: the control block, or nothing for an empty base. */
  function ControlBlock(m: Memory, h: HandleId): (r: Option<Block>)
    requires Valid(m) && h in m.handles
    ensures r.None? <==> m.handles[h].Empty?
    ensures r.Some? ==> r.value.addr == Pointer(m, h)
  {
    match m.handles[h]
    case Empty => None
    case Shares(b) => Some(m.blocks[b])
  }

  /** `is_acquired()` as written: defined only when the base holds a block. */
  function IsAcquiredAsWritten(m: Memory, h: HandleId): (r: Option<bool>)
    requires Valid(m) && h in m.handles
    ensures r.None? <==> m.handles[h].Empty?
    ensures r.Some? ==> r.value == Acquired(m, h)
  {
    match ControlBlock(m, h)
    case None => None
    case Some(blk) => Some(blk.acquired)
  }

  /** `get_pointer()` as written, behind `bool`, `compare` and `unique_ptr()`. */
  function GetPointerAsWritten(m: Memory, h: HandleId): (r: Option<Addr>)
    requires Valid(m) && h in m.handles
    ensures r.None? <==> m.handles[h].Empty?
    ensures r.Some? ==> r.value == Pointer(m, h)
  {
    match ControlBlock(m, h)
    case None => None
    case Some(blk) => Some(blk.addr)
  }

  /** `throw_if_is_destroyed_and_has_virtual_dtor()` as written, behind `get`, `->` and `*`. */
  function DeletedCheckAsWritten(m: Memory, h: HandleId): (r: Option<bool>)
    requires Valid(m) && h in m.handles
    ensures r.None? <==> m.handles[h].Empty?
    ensures r.Some? ==> r.value == Expired(m, h)
  {
    match ControlBlock(m, h)
    case None => None
    case Some(blk) => Some(blk.deleted)
  }

  /**
   * The input that shows it: a default-constructed handle of
   * ptr_owned_by_unique.hpp (which has a block) moved into a new handle. Every
   * accessor of the source handle then reads through an empty base.
   */
  lemma MovedFromHandleIsUndefined()
    ensures var (m1, h) := Default(Initial(PtrOwnedByUnique));
      var (m2, _) := Move(m1, h);
      && m1.handles[h].Shares?
      && IsAcquiredAsWritten(m2, h).None?
      && GetPointerAsWritten(m2, h).None?
      && DeletedCheckAsWritten(m2, h).None?
  {
  }

  /**
   * With the guard, a moved-from handle is an ordinary null handle under
   * every header: `bool`, `acquired()` and `expired()` are false, access gives
   * the null pointer, and `unique_ptr()` returns null and changes nothing.
   */
  lemma MovedFromHandleIsInert(m: Memory, src: HandleId)
    requires Valid(m) && src in m.handles
    ensures var (m', _) := Move(m, src);
      && !IsTrue(m', src) && !Acquired(m', src) && !Expired(m', src)
      && Get(m', src) == Ok(0) && Acquire(m', src) == (m', Ok(0))
  {
    var (m', _) := Move(m, src);
    assert m'.handles[src].Empty?;
  }
}
