/**
 * What the transitions of owned_by_unique.hpp promise across calls: flags
 * that belong to one wrap and are shared by its copies, one-shot
 * acquisition, the deleter, the destroyed flag, and comparisons that throw.
 */
module OwnedByUniqueProperties {
  import opened Common
  import opened OwnedByUnique

  /* ----------------------------------------------------------------------
   * Sharing
   * ---------------------------------------------------------------------- */

  /** Handles of one group agree on address, `is_acquired()`, access and `use_count()`. */
  lemma SharersAgree(m: Memory, h1: HandleId, h2: HandleId)
    requires Valid(m) && h1 in m.handles && h2 in m.handles
    requires m.handles[h1] == m.handles[h2]
    ensures Pointer(m, h1) == Pointer(m, h2) && IsAcquired(m, h1) == IsAcquired(m, h2)
    ensures Get(m, h1) == Get(m, h2) && UseCount(m, h1) == UseCount(m, h2)
  {
  }

  /**
   * A copy shares the acquired flag: acquiring through the copy marks the
   * original acquired too, and the copy adds one to the original's use count.
   */
  lemma CopySharesFlag(m: Memory, src: HandleId)
    requires Valid(m) && src in m.handles && Pointer(m, src) != 0 && !Acquired(m, src)
    ensures var (m1, k) := Copy(m, src);
      var (m2, got) := Acquire(m1, k);
      && UseCount(m1, src) == UseCount(m, src) + 1
      && got == Ok(Pointer(m, src)) && Acquired(m2, src)
  {
    var (m1, k) := Copy(m, src);
    assert m1.handles[k] == m1.handles[src];
    SharersAgree(m1, k, src);
    var m2 := Acquire(m1, k).0;
    assert m2.handles[k] == m2.handles[src];
    SharersAgree(m2, k, src);
  }

  /* ----------------------------------------------------------------------
   * unique_ptr()
   * ---------------------------------------------------------------------- */

  /**
   * The first `unique_ptr()` on a non-null unacquired handle hands out its
   * address; afterwards every handle on that address, in whatever group,
   * throws unique_ptr_already_acquired, while access still succeeds.
   */
  lemma AcquireOnce(m: Memory, h: HandleId, h2: HandleId)
    requires Valid(m) && h in m.handles && h2 in m.handles
    requires Pointer(m, h) != 0 && !Acquired(m, h) && Pointer(m, h2) == Pointer(m, h)
    ensures Acquire(m, h).1 == Ok(Pointer(m, h))
    ensures Acquire(Acquire(m, h).0, h2) == (Acquire(m, h).0, Err(AlreadyAcquired))
    ensures Get(Acquire(m, h).0, h2) == Ok(Pointer(m, h))
  {
    var m' := Acquire(m, h).0;
    var p := Pointer(m, h);
    assert OwnedOutside(m', p);
    assert Pointer(m', h2) == p;
    assert m'.handles[h2].Member?;
    assert m'.groups[m'.handles[h2].group].addr == p;
  }

  /**
   * A handle on the null pointer: `unique_ptr()` returns null and changes
   * nothing, so it can be called again; `bool` is false; access and
   * comparison with itself do not throw.
   */
  lemma NullHandleInert(m: Memory, h: HandleId)
    requires Valid(m) && h in m.handles && Pointer(m, h) == 0
    ensures Acquire(m, h) == (m, Ok(0)) && !IsTrue(m, h)
    ensures Get(m, h) == Ok(0) && Equal(m, h, h) == Ok(true)
  {
  }

  /**
   * A null pointer still gets a group and a flag: a default handle reads
   * `is_acquired()` false, a handle linked to an empty `unique_ptr` reads it
   * true.
   */
  lemma NullWrapHasGroup(m: Memory, acquired: bool)
    requires Valid(m)
    ensures var (r, k) := Wrap(m, 0, acquired);
      r.handles[k].Member? && Pointer(r, k) == 0 && Acquired(r, k) == acquired
    ensures var (r, k) := Default(m); r.handles[k].Member? && !Acquired(r, k)
  {
  }

  /* ----------------------------------------------------------------------
   * Flags per wrap
   * ---------------------------------------------------------------------- */

  /**
   * Wrapping never touches an existing handle: each keeps its address, its
   * flag, its access and its use count, whatever the new wrap's address.
   */
  lemma WrapKeepsOtherHandles(m: Memory, p: Addr, acquired: bool, h: HandleId)
    requires Valid(m) && (p == 0 || OwnedOutside(m, p)) && h in m.handles
    ensures var (r, k) := Wrap(m, p, acquired);
      && k != h && r.handles[h] == m.handles[h]
      && Pointer(r, h) == Pointer(m, h) && IsAcquired(r, h) == IsAcquired(m, h)
      && Get(r, h) == Get(m, h) && UseCount(r, h) == UseCount(m, h)
  {
    var (r, k) := Wrap(m, p, acquired);
    assert r.handles[h] == m.handles[h];
    match m.handles[h]
    case Empty =>
    case Member(g) =>
      assert g != m.nextGroup;
      assert r.groups[g] == m.groups[g];
  }

  /** Once a handle reads `is_acquired()` true it keeps reading true while it stays in its group. */
  lemma FlagNeverClears(m: Memory, m': Memory, h: HandleId)
    requires Valid(m) && Valid(m') && Evolves(m, m')
    requires h in m.handles && h in m'.handles && m'.handles[h] == m.handles[h]
    requires Acquired(m, h)
    ensures Acquired(m', h)
  {
  }

  /**
   * Handing the acquired object back through a new `unique_ptr` wrap makes a
   * second group: the old handle stays acquired and throws on `unique_ptr()`,
   * the new one is unacquired and hands the object out again. Each group
   * counts only its own handle.
   */
  lemma RewrapKeepsOldFlag(virtualDtor: bool)
    ensures var m0 := Initial();
      var (m1, h) := MakeOwned(m0, 1, virtualDtor);
      var (m2, got) := Acquire(m1, h);
      var (m3, k) := Wrap(m2, 1, false);
      && got == Ok(1)
      && Acquired(m3, h) && !Acquired(m3, k)
      && UseCount(m3, h) == 1 && UseCount(m3, k) == 1
      && Acquire(m3, h).1 == Err(AlreadyAcquired) && Acquire(m3, k).1 == Ok(1)
  {
    var m0 := Initial();
    var (m1, h) := MakeOwned(m0, 1, virtualDtor);
    var (m2, got) := Acquire(m1, h);
    var (m3, k) := Wrap(m2, 1, false);
    WrapKeepsOtherHandles(m2, 1, false, h);
  }

  /* ----------------------------------------------------------------------
   * The deleter
   * ---------------------------------------------------------------------- */

  /**
   * Dropping the last handle of a group frees the group and deletes the
   * object exactly when the flag is clear; an object deleted this way was
   * alive before. No other group and no other object changes.
   */
  lemma DropLast(m: Memory, h: HandleId)
    requires Valid(m) && h in m.handles && m.handles[h].Member? && UseCount(m, h) == 1
    ensures var g := m.handles[h].group; var grp := m.groups[g]; var r := Drop(m, h);
      && r.groups == m.groups - {g}
      && r.objects.Keys == m.objects.Keys
      && (grp.addr != 0 ==>
            && (r.objects[grp.addr].alive <==> m.objects[grp.addr].alive && grp.acquired)
            && (!grp.acquired ==> m.objects[grp.addr].alive))
      && (forall a :: a in m.objects && a != grp.addr ==> r.objects[a] == m.objects[a])
  {
    var g := m.handles[h].group;
    assert m.groups[g].refs == 1;
  }

  /** Dropping a handle whose group has others only lowers the use count. */
  lemma DropShared(m: Memory, h: HandleId)
    requires Valid(m) && h in m.handles && m.handles[h].Member? && UseCount(m, h) > 1
    ensures var g := m.handles[h].group; var r := Drop(m, h);
      r.groups == m.groups[g := m.groups[g].(refs := m.groups[g].refs - 1)] && r.objects == m.objects
  {
    var g := m.handles[h].group;
    assert m.groups[g].refs > 1;
  }

  /* ----------------------------------------------------------------------
   * The destroyed flag and the comparisons
   * ---------------------------------------------------------------------- */

  /**
   * The owner deleting a `dtor_notify_enabled` object sets its destroyed
   * flag: access through every handle on it throws ptr_is_already_deleted,
   * and so does comparing such a handle with any other by `==`, `!=` or `<`.
   */
  lemma DeleteDestroysHandles(m: Memory, a: Addr, h: HandleId, other: HandleId)
    requires Valid(m) && a != 0 && OwnedOutside(m, a) && m.objects[a].hasNotifier
    requires h in m.handles && Pointer(m, h) == a && other in m.handles
    ensures var r := DeleteObject(m, a);
      && Get(r, h) == Err(AlreadyDeleted)
      && Equal(r, h, other) == Err(AlreadyDeleted) && Equal(r, other, h) == Err(AlreadyDeleted)
      && NotEqual(r, h, other).Err?
      && Less(r, h, other) == Err(AlreadyDeleted) && Less(r, other, h) == Err(AlreadyDeleted)
  {
    DeleteObjectSeen(m, a, h);
  }

  /**
   * The life of a `dtor_notify_enabled` object handed out once:
   * `unique_ptr()` succeeds, its owner deletes the object, and from then on
   * access through every handle on that address throws, and so does access
   * through a copy made afterwards.
   */
  lemma AcquireThenDeleteDestroys(m: Memory, h: HandleId, h2: HandleId)
    requires Valid(m) && h in m.handles && h2 in m.handles
    requires Pointer(m, h) != 0 && !Acquired(m, h) && m.objects[Pointer(m, h)].hasNotifier
    requires Pointer(m, h2) == Pointer(m, h)
    ensures var (m2, got) := Acquire(m, h);
      && got == Ok(Pointer(m, h)) && OwnedOutside(m2, Pointer(m, h))
      && var m3 := DeleteObject(m2, Pointer(m, h));
      && Get(m3, h2) == Err(AlreadyDeleted)
      && Get(Copy(m3, h).0, Copy(m3, h).1) == Err(AlreadyDeleted)
  {
    var p := Pointer(m, h);
    var (m2, got) := Acquire(m, h);
    assert Pointer(m2, h2) == p && Pointer(m2, h) == p;
    DeleteDestroysHandles(m2, p, h2, h);
    DeleteDestroysHandles(m2, p, h, h);
  }

  /** An object without the notifier leaves no trace: access and comparisons keep working on its address. */
  lemma DeleteWithoutNotifier(m: Memory, a: Addr, h: HandleId, other: HandleId)
    requires Valid(m) && a != 0 && OwnedOutside(m, a) && !m.objects[a].hasNotifier
    requires h in m.handles && Pointer(m, h) == a && other in m.handles
    ensures var r := DeleteObject(m, a);
      && Get(r, h) == Ok(a) && Equal(r, h, other) == Equal(m, h, other)
  {
    DeleteObjectSeen(m, a, h);
    DeleteObjectSeen(m, a, other);
  }

  /** `<` is a strict order on addresses wherever it does not throw. */
  lemma LessIsStrict(m: Memory, h1: HandleId, h2: HandleId)
    requires Valid(m) && h1 in m.handles && h2 in m.handles
    requires Less(m, h1, h2).Ok?
    ensures Less(m, h2, h1).Ok? && Equal(m, h1, h2).Ok?
    ensures !(Less(m, h1, h2).value && Less(m, h2, h1).value)
    ensures Less(m, h1, h2).value || Less(m, h2, h1).value || Equal(m, h1, h2).value
  {
  }

  /* ----------------------------------------------------------------------
   * Moved-from handles
   * ---------------------------------------------------------------------- */

  /**
   * The input that shows it: a default handle, which has a flag, moved into
   * a new handle. `is_acquired()` on the source then dereferences the flag
   * it no longer holds.
   */
  lemma MovedFromIsAcquiredIsUndefined()
    ensures var (m1, h) := Default(Initial());
      var (m2, _) := Move(m1, h);
      && IsAcquired(m1, h) == Some(false)
      && IsAcquired(m2, h).None?
  {
  }

  /**
   * With the flag checked first, a moved-from handle is an ordinary null
   * handle: `is_acquired()` and `bool` are false, `use_count()` is 0, access
   * gives null, and `unique_ptr()` returns null and changes nothing.
   */
  lemma MovedFromHandleIsInert(m: Memory, src: HandleId)
    requires Valid(m) && src in m.handles
    ensures var (m', _) := Move(m, src);
      && !Acquired(m', src) && !IsTrue(m', src) && UseCount(m', src) == 0
      && Get(m', src) == Ok(0) && Acquire(m', src) == (m', Ok(0))
  {
    var (m', _) := Move(m, src);
    assert m'.handles[src].Empty?;
  }
}
