/**
 * The first form of the bridge, `owned_by_unique` (owned_by_unique.hpp).
 *
 * A handle holds three shared pointers: the object itself, whose deleter
 * carries an `acquiredByUniquePtr` flag; that flag; and, for an object made
 * as a `dtor_notify_enabled`, the object's own `isDestroyed` flag. Copies and
 * assignments copy all three, so every handle descending from one wrap sees
 * the same object reference count and the same flag: a `Group` here. There is
 * no back-reference from the object, so every wrap starts a new group with a
 * flag of its own, and the destroyed flag lives in the object itself.
 */
module OwnedByUnique {
  import opened Common

  type GroupId = nat
  type HandleId = nat

  /** One wrap: the address, the shared `acquiredByUniquePtr` flag, and the use count of the object's `shared_ptr`. */
  datatype Group = Group(addr: Addr, acquired: bool, refs: nat)

  /** A heap object: `alive` until deleted; `hasNotifier` when made as a `dtor_notify_enabled`, whose destructor sets `isDestroyed`. */
  datatype Object = Object(alive: bool, hasNotifier: bool)

  /** A handle is empty once moved from; otherwise it belongs to one group. */
  datatype Handle = Empty | Member(group: GroupId)

  datatype Memory = Memory(
    groups: map<GroupId, Group>,
    objects: map<Addr, Object>,
    handles: map<HandleId, Handle>,
    nextGroup: GroupId,
    nextHandle: HandleId)

  /* ----------------------------------------------------------------------
   * Invariant
   * ---------------------------------------------------------------------- */

  /** The object at `a` carries an `isDestroyed` flag, and that flag is set. */
  predicate Destroyed(m: Memory, a: Addr)
  {
    a in m.objects && m.objects[a].hasNotifier && !m.objects[a].alive
  }

  ghost predicate Fresh(m: Memory)
  {
    && 0 !in m.objects
    && (forall g :: g in m.groups ==> g < m.nextGroup)
    && (forall h :: h in m.handles ==> h < m.nextHandle)
  }

  /** Every member handle's group is live, and a group's use count is the number of its handles. */
  ghost predicate Counted(m: Memory)
  {
    && (forall h :: h in m.handles && m.handles[h].Member? ==> m.handles[h].group in m.groups)
    && (forall g :: g in m.groups ==> 0 < m.groups[g].refs == |Holders(m.handles, Member(g))|)
  }

  /** A group names a known object or the null pointer. */
  ghost predicate Addressed(m: Memory)
  {
    forall g :: g in m.groups && m.groups[g].addr != 0 ==> m.groups[g].addr in m.objects
  }

  /** A group whose flag is clear owns its object: the object is alive and no other unacquired group owns it. */
  ghost predicate Owned(m: Memory)
    requires Addressed(m)
  {
    && (forall g :: g in m.groups && !m.groups[g].acquired && m.groups[g].addr != 0 ==>
          m.objects[m.groups[g].addr].alive)
    && (forall g1, g2 ::
          (g1 in m.groups && g2 in m.groups && !m.groups[g1].acquired && !m.groups[g2].acquired
           && m.groups[g1].addr == m.groups[g2].addr != 0) ==> g1 == g2)
  }

  ghost predicate Valid(m: Memory)
  {
    Fresh(m) && Counted(m) && Addressed(m) && Owned(m)
  }

  /**
   * How the state may move between two calls: ids only grow, objects are
   * never forgotten nor revived, and a group that survives keeps its address
   * and never loses its acquired flag, since nothing but `unique_ptr()`
   * writes that flag once its wrap has created it.
   */
  ghost predicate Evolves(m: Memory, m': Memory)
  {
    && m.nextGroup <= m'.nextGroup
    && m.nextHandle <= m'.nextHandle
    && (forall a :: a in m.objects ==>
          && a in m'.objects
          && m'.objects[a].hasNotifier == m.objects[a].hasNotifier
          && (!m.objects[a].alive ==> !m'.objects[a].alive))
    && (forall g :: g in m.groups && g in m'.groups ==>
          && m'.groups[g].addr == m.groups[g].addr
          && (m.groups[g].acquired ==> m'.groups[g].acquired))
    && (forall g :: g in m'.groups && g !in m.groups ==> m.nextGroup <= g)
  }

  lemma EvolvesTransitive(m1: Memory, m2: Memory, m3: Memory)
    requires Fresh(m1) && Evolves(m1, m2) && Evolves(m2, m3)
    ensures Evolves(m1, m3)
  {
    forall g | g in m1.groups && g in m3.groups
      ensures g in m2.groups
    {
      assert g < m1.nextGroup <= m2.nextGroup;
    }
  }

  function Initial(): (m: Memory)
    ensures Valid(m) && m.handles == map[]
  {
    Memory(map[], map[], map[], 0, 0)
  }

  /** The caller's `unique_ptr` owns the object at `p` alone: it is alive and every group of it is acquired. */
  ghost predicate OwnedOutside(m: Memory, p: Addr)
  {
    && p in m.objects
    && m.objects[p].alive
    && (forall g :: g in m.groups && m.groups[g].addr == p ==> m.groups[g].acquired)
  }

  /* ----------------------------------------------------------------------
   * Queries
   * ---------------------------------------------------------------------- */

  /** `shared_ptr::get()`: the group's address; null for a moved-from handle. */
  function Pointer(m: Memory, h: HandleId): (r: Addr)
    requires Valid(m) && h in m.handles
    ensures r != 0 ==> r in m.objects && m.handles[h].Member?
  {
    match m.handles[h]
    case Empty => 0
    case Member(g) => m.groups[g].addr
  }

  /**
   * `is_acquired()` as written: it reads `*acquiredByUniquePtr`, which a
   * moved-from handle no longer holds (`None`: undefined behaviour).
   */
  function IsAcquired(m: Memory, h: HandleId): (r: Option<bool>)
    requires Valid(m) && h in m.handles
    ensures r.None? <==> m.handles[h].Empty?
    ensures r == Some(false) && Pointer(m, h) != 0 ==> m.objects[Pointer(m, h)].alive
  {
    match m.handles[h]
    case Empty => None
    case Member(g) => Some(m.groups[g].acquired)
  }

  /** `is_acquired()` guarded by a check for the flag: false on a moved-from handle. */
  function Acquired(m: Memory, h: HandleId): (r: bool)
    requires Valid(m) && h in m.handles
    ensures r ==> IsAcquired(m, h) == Some(true)
    ensures m.handles[h].Member? ==> IsAcquired(m, h) == Some(r)
  {
    match m.handles[h]
    case Empty => false
    case Member(g) => m.groups[g].acquired
  }

  /**
   * `get()`, `->` and `*`: throw ptr_is_already_deleted exactly when a
   * destroyed flag is attached and set, which needs an object made as a
   * `dtor_notify_enabled`.
   */
  function Get(m: Memory, h: HandleId): (r: Result<Addr>)
    requires Valid(m) && h in m.handles
    ensures r.Err? <==> Destroyed(m, Pointer(m, h))
    ensures r.Err? ==> r.error == AlreadyDeleted
    ensures r.Ok? ==> r.value == Pointer(m, h)
  {
    var p := Pointer(m, h);
    if p in m.objects && m.objects[p].hasNotifier && !m.objects[p].alive then Err(AlreadyDeleted) else Ok(p)
  }

  /** `explicit operator bool` (the `shared_ptr`'s). */
  function IsTrue(m: Memory, h: HandleId): (r: bool)
    requires Valid(m) && h in m.handles
    ensures r <==> Pointer(m, h) in m.objects
  {
    Pointer(m, h) != 0
  }

  /** `use_count()`: the handles of the group; 0 for a moved-from handle. */
  function UseCount(m: Memory, h: HandleId): (r: nat)
    requires Valid(m) && h in m.handles
    ensures m.handles[h].Empty? ==> r == 0
    ensures m.handles[h].Member? ==> r == |Holders(m.handles, m.handles[h])| && h in Holders(m.handles, m.handles[h])
  {
    match m.handles[h]
    case Empty => 0
    case Member(g) => m.groups[g].refs
  }

  /**
   * `==`: both sides go through `get()`, so the comparison throws when
   * either handle's object was destroyed; otherwise it compares addresses.
   */
  function Equal(m: Memory, h1: HandleId, h2: HandleId): (r: Result<bool>)
    requires Valid(m) && h1 in m.handles && h2 in m.handles
    ensures r.Err? <==> Destroyed(m, Pointer(m, h1)) || Destroyed(m, Pointer(m, h2))
    ensures r.Err? ==> r.error == AlreadyDeleted
    ensures r.Ok? ==> (r.value <==> Pointer(m, h1) == Pointer(m, h2))
  {
    match (Get(m, h1), Get(m, h2))
    case (Ok(a1), Ok(a2)) => Ok(a1 == a2)
    case _ => Err(AlreadyDeleted)
  }

  /** `!=`: the negation of `==`, throwing when it throws. */
  function NotEqual(m: Memory, h1: HandleId, h2: HandleId): (r: Result<bool>)
    requires Valid(m) && h1 in m.handles && h2 in m.handles
    ensures r.Err? <==> Equal(m, h1, h2).Err?
    ensures r.Ok? ==> (r.value <==> Pointer(m, h1) != Pointer(m, h2))
  {
    match Equal(m, h1, h2)
    case Ok(b) => Ok(!b)
    case Err(e) => Err(e)
  }

  /** `<`: by address through `get()`, so it throws like `==`. */
  function Less(m: Memory, h1: HandleId, h2: HandleId): (r: Result<bool>)
    requires Valid(m) && h1 in m.handles && h2 in m.handles
    ensures r.Err? <==> Destroyed(m, Pointer(m, h1)) || Destroyed(m, Pointer(m, h2))
    ensures r.Err? ==> r.error == AlreadyDeleted
    ensures r.Ok? ==> (r.value <==> Pointer(m, h1) < Pointer(m, h2))
  {
    match (Get(m, h1), Get(m, h2))
    case (Ok(a1), Ok(a2)) => Ok(a1 < a2)
    case _ => Err(AlreadyDeleted)
  }

  /* ----------------------------------------------------------------------
   * Building blocks
   * ---------------------------------------------------------------------- */

  /** Bind handle `k` to `v`, counting the new reference. */
  function Attach(m: Memory, k: HandleId, v: Handle): Memory
    requires v.Member? ==> v.group in m.groups
  {
    var m1 := m.(handles := m.handles[k := v]);
    match v
    case Empty => m1
    case Member(g) => m1.(groups := m.groups[g := m.groups[g].(refs := m.groups[g].refs + 1)])
  }

  /** The destructor of the object at `a`; a `dtor_notify_enabled` sets its `isDestroyed` flag on the way. */
  function Destruct(m: Memory, a: Addr): Memory
    requires a in m.objects
  {
    m.(objects := m.objects[a := m.objects[a].(alive := false)])
  }

  /**
   * A reference to `v` is given up. The last one frees the group and runs
   * `Deleter`, which deletes the object only while the flag is clear.
   */
  function Release(m: Memory, v: Handle): Memory
    requires v.Member? ==> v.group in m.groups
  {
    match v
    case Empty => m
    case Member(g) =>
      var grp := m.groups[g];
      if grp.refs > 1 then m.(groups := m.groups[g := grp.(refs := grp.refs - 1)])
      else
        var freed := m.(groups := m.groups - {g});
        if !grp.acquired && grp.addr in m.objects then Destruct(freed, grp.addr) else freed
  }

  /**
   * `r` is `m` with the groups `joined` after one reference to group `g` is
   * given up: the last one frees the group and deletes its object unless the
   * flag was set; any other only lowers the count.
   */
  ghost predicate ReleasedFrom(m: Memory, joined: map<GroupId, Group>, g: GroupId, r: Memory)
    requires g in m.groups
  {
    var grp := m.groups[g];
    && (grp.refs == 1 ==>
          && r.groups == joined - {g}
          && r.objects == if !grp.acquired && grp.addr in m.objects
                          then m.objects[grp.addr := m.objects[grp.addr].(alive := false)]
                          else m.objects)
    && (grp.refs > 1 ==> r.groups == joined[g := grp.(refs := grp.refs - 1)] && r.objects == m.objects)
  }

  /** Giving up a reference to group `g` from `m` leaves `m` released from `g`. */
  lemma ReleaseEffect(m: Memory, g: GroupId)
    requires g in m.groups && m.groups[g].refs >= 1
    ensures ReleasedFrom(m, m.groups, g, Release(m, Member(g)))
  {
  }

  /** The private constructor `owned_by_unique(p, acquired)`: a new flag and a new group, whatever `p` is. */
  function NewGroup(m: Memory, p: Addr, acquired: bool): (Memory, HandleId)
  {
    var g := m.nextGroup;
    var k := m.nextHandle;
    (m.(groups := m.groups[g := Group(p, acquired, 1)], handles := m.handles[k := Member(g)],
        nextGroup := g + 1, nextHandle := k + 1), k)
  }

  /* ----------------------------------------------------------------------
   * The invariant across the building blocks
   * ---------------------------------------------------------------------- */

  /** The invariant with one reference to `v` still counted though no handle holds it. */
  ghost predicate ValidButOne(m: Memory, v: Handle)
  {
    && Fresh(m) && Addressed(m) && Owned(m)
    && (v.Member? ==> v.group in m.groups)
    && (forall h :: h in m.handles && m.handles[h].Member? ==> m.handles[h].group in m.groups)
    && (forall g :: g in m.groups ==>
          0 < m.groups[g].refs == |Holders(m.handles, Member(g))| + (if v == Member(g) then 1 else 0))
  }

  /** A step that changes only use counts and handle bindings keeps everything but the counts. */
  lemma RefsFrame(m: Memory, m': Memory)
    requires Fresh(m) && Addressed(m) && Owned(m)
    requires m'.objects == m.objects && m'.nextGroup == m.nextGroup && m.nextHandle <= m'.nextHandle
    requires m'.groups.Keys == m.groups.Keys
    requires forall g :: g in m.groups ==> m'.groups[g] == m.groups[g].(refs := m'.groups[g].refs)
    requires forall h :: h in m'.handles ==> h < m'.nextHandle
    ensures Fresh(m') && Addressed(m') && Owned(m')
  {
  }

  lemma NewGroupValid(m: Memory, p: Addr, acquired: bool)
    requires Valid(m) && (p == 0 || OwnedOutside(m, p))
    ensures Valid(NewGroup(m, p, acquired).0) && Evolves(m, NewGroup(m, p, acquired).0)
  {
    var g := m.nextGroup;
    var k := m.nextHandle;
    var m' := NewGroup(m, p, acquired).0;
    assert k !in m.handles;
    forall g' | g' in m'.groups ensures 0 < m'.groups[g'].refs == |Holders(m'.handles, Member(g'))| {
      HoldersInsert(m.handles, k, Member(g), Member(g'));
      if g' == g {
        forall h | h in m.handles ensures m.handles[h] != Member(g) {
        }
        assert Holders(m.handles, Member(g)) == {};
      }
    }
    NewGroupOwned(m, p, acquired);
  }

  lemma NewGroupOwned(m: Memory, p: Addr, acquired: bool)
    requires Fresh(m) && Addressed(m) && Owned(m) && (p == 0 || OwnedOutside(m, p))
    ensures Fresh(NewGroup(m, p, acquired).0) && Addressed(NewGroup(m, p, acquired).0)
    ensures Owned(NewGroup(m, p, acquired).0)
  {
  }

  lemma NewHandleValid(m: Memory, v: Handle)
    requires Valid(m) && (v.Member? ==> v.group in m.groups)
    ensures Valid(Attach(m.(nextHandle := m.nextHandle + 1), m.nextHandle, v))
    ensures Evolves(m, Attach(m.(nextHandle := m.nextHandle + 1), m.nextHandle, v))
  {
    var k := m.nextHandle;
    var m' := Attach(m.(nextHandle := k + 1), k, v);
    assert k !in m.handles;
    RefsFrame(m, m');
    RebindEvolves(m, m');
    forall g | g in m'.groups ensures 0 < m'.groups[g].refs == |Holders(m'.handles, Member(g))| {
      HoldersInsert(m.handles, k, v, Member(g));
    }
  }

  lemma DestructValid(m: Memory, a: Addr)
    requires Valid(m) && a in m.objects
    requires forall g :: g in m.groups && m.groups[g].addr == a ==> m.groups[g].acquired
    ensures Valid(Destruct(m, a))
  {
    var m' := Destruct(m, a);
    assert m'.handles == m.handles && m'.groups == m.groups;
  }

  lemma ReleaseValid(m: Memory, v: Handle)
    requires ValidButOne(m, v)
    ensures Valid(Release(m, v))
  {
    match v
    case Empty =>
    case Member(g) =>
      var grp := m.groups[g];
      if grp.refs > 1 {
        var m' := Release(m, v);
        RefsFrame(m, m');
        assert Counted(m');
      } else {
        var freed := m.(groups := m.groups - {g});
        assert |Holders(m.handles, Member(g))| == 0;
        NoHolders(m.handles, Member(g));
        assert Counted(freed);
        if !grp.acquired && grp.addr in m.objects {
          forall g' | g' in freed.groups && freed.groups[g'].addr == grp.addr
            ensures freed.groups[g'].acquired
          {
            assert g' != g;
          }
          DestructValid(freed, grp.addr);
        }
      }
  }

  lemma ReleaseEvolves(m: Memory, v: Handle)
    requires v.Member? ==> v.group in m.groups
    ensures Evolves(m, Release(m, v))
  {
  }

  /** A step that only rebinds handles and adjusts use counts. */
  lemma RebindEvolves(m: Memory, m': Memory)
    requires m'.objects == m.objects && m'.nextGroup == m.nextGroup && m.nextHandle <= m'.nextHandle
    requires m'.groups.Keys == m.groups.Keys
    requires forall g :: g in m.groups ==> m'.groups[g] == m.groups[g].(refs := m'.groups[g].refs)
    ensures Evolves(m, m')
  {
  }

  /* ----------------------------------------------------------------------
   * Transitions
   * ---------------------------------------------------------------------- */

  /** `owned_by_unique()` and `owned_by_unique(nullptr)`: a group of its own for the null pointer, flag clear. */
  function Default(m: Memory): (r: (Memory, HandleId))
    requires Valid(m)
    ensures Evolves(m, r.0)
    ensures Valid(r.0) && r.1 !in m.handles
    ensures r.0.handles == m.handles[r.1 := Member(m.nextGroup)] && m.nextGroup !in m.groups
    ensures r.0.groups == m.groups[m.nextGroup := Group(0, false, 1)] && r.0.objects == m.objects
    ensures Pointer(r.0, r.1) == 0 && IsAcquired(r.0, r.1) == Some(false) && UseCount(r.0, r.1) == 1
  {
    NewGroupValid(m, 0, false);
    NewGroup(m, 0, false)
  }

  /**
   * The constructors from a `unique_ptr` (flag clear) and from a link (flag
   * set): always a new group, also for a null pointer, and whatever groups
   * the object already has.
   */
  function Wrap(m: Memory, p: Addr, acquired: bool): (r: (Memory, HandleId))
    requires Valid(m) && (p == 0 || OwnedOutside(m, p))
    ensures Evolves(m, r.0)
    ensures Valid(r.0) && r.1 !in m.handles
    ensures r.0.handles == m.handles[r.1 := Member(m.nextGroup)] && m.nextGroup !in m.groups
    ensures r.0.groups == m.groups[m.nextGroup := Group(p, acquired, 1)] && r.0.objects == m.objects
    ensures Pointer(r.0, r.1) == p && IsAcquired(r.0, r.1) == Some(acquired)
  {
    NewGroupValid(m, p, acquired);
    NewGroup(m, p, acquired)
  }

  /**
   * An object allocated at the unused address `p` and owned by the caller's
   * `unique_ptr` alone, so that it may then be wrapped. It carries an
   * `isDestroyed` flag only when it is a `dtor_notify_enabled` object, as
   * `make_owned_by_unique` builds for a type with a virtual destructor; a
   * plain `std::make_unique<T>` object has none, whatever its destructor.
   */
  function NewObject(m: Memory, p: Addr, notifier: bool): (r: Memory)
    requires Valid(m) && p != 0 && p !in m.objects
    ensures Valid(r) && Evolves(m, r) && OwnedOutside(r, p)
    ensures r.handles == m.handles && r.groups == m.groups
    ensures r.objects == m.objects[p := Object(true, notifier)]
  {
    m.(objects := m.objects[p := Object(true, notifier)])
  }

  /** `make_owned_by_unique<T>(args...)` for a non-array `T`: a new object at the unused address `p`, wrapped. */
  function MakeOwned(m: Memory, p: Addr, virtualDtor: bool): (r: (Memory, HandleId))
    requires Valid(m) && p != 0 && p !in m.objects
    ensures Evolves(m, r.0)
    ensures Valid(r.0) && r.1 !in m.handles
    ensures r.0.objects == m.objects[p := Object(true, virtualDtor)]
    ensures r.0.handles == m.handles[r.1 := Member(m.nextGroup)] && m.nextGroup !in m.groups
    ensures r.0.groups == m.groups[m.nextGroup := Group(p, false, 1)]
    ensures Pointer(r.0, r.1) == p && IsAcquired(r.0, r.1) == Some(false) && Get(r.0, r.1) == Ok(p)
  {
    var m1 := NewObject(m, p, virtualDtor);
    Wrap(m1, p, false)
  }

  /** The copy constructor and `operator=` from a fresh handle: all three shared pointers are copied. */
  function Copy(m: Memory, src: HandleId): (r: (Memory, HandleId))
    requires Valid(m) && src in m.handles
    ensures Evolves(m, r.0)
    ensures Valid(r.0) && r.1 !in m.handles && r.0.handles == m.handles[r.1 := m.handles[src]]
    ensures Pointer(r.0, r.1) == Pointer(m, src) && IsAcquired(r.0, r.1) == IsAcquired(m, src)
    ensures Get(r.0, r.1) == Get(m, src)
    ensures m.handles[src].Member? ==> UseCount(r.0, r.1) == UseCount(r.0, src) == UseCount(m, src) + 1
    ensures r.0.objects == m.objects
    ensures m.handles[src].Empty? ==> r.0.groups == m.groups
    ensures m.handles[src].Member? ==> var g := m.handles[src].group;
      r.0.groups == m.groups[g := m.groups[g].(refs := m.groups[g].refs + 1)]
  {
    NewHandleValid(m, m.handles[src]);
    (Attach(m.(nextHandle := m.nextHandle + 1), m.nextHandle, m.handles[src]), m.nextHandle)
  }

  /** The implicit move constructor: all three shared pointers move over; the source is left empty. */
  function Move(m: Memory, src: HandleId): (r: (Memory, HandleId))
    requires Valid(m) && src in m.handles
    ensures Evolves(m, r.0)
    ensures Valid(r.0) && r.1 !in m.handles
    ensures r.0.handles == m.handles[r.1 := m.handles[src]][src := Empty]
    ensures r.0.groups == m.groups && r.0.objects == m.objects
    ensures Pointer(r.0, r.1) == Pointer(m, src) && IsAcquired(r.0, r.1) == IsAcquired(m, src)
    ensures Pointer(r.0, src) == 0 && IsAcquired(r.0, src).None? && Get(r.0, src) == Ok(0)
  {
    var k := m.nextHandle;
    MoveValid(m, src);
    (m.(handles := m.handles[k := m.handles[src]][src := Empty], nextHandle := k + 1), k)
  }

  lemma MoveValid(m: Memory, src: HandleId)
    requires Valid(m) && src in m.handles
    ensures var k := m.nextHandle;
      var m' := m.(handles := m.handles[k := m.handles[src]][src := Empty], nextHandle := k + 1);
      Valid(m') && Evolves(m, m')
  {
    var k := m.nextHandle;
    var v := m.handles[src];
    var m' := m.(handles := m.handles[k := v][src := Empty], nextHandle := k + 1);
    RefsFrame(m, m');
    MoveCounts(m, src);
  }

  lemma MoveCounts(m: Memory, src: HandleId)
    requires Fresh(m) && Counted(m) && src in m.handles
    ensures var k := m.nextHandle;
      Counted(m.(handles := m.handles[k := m.handles[src]][src := Empty], nextHandle := k + 1))
  {
    var k := m.nextHandle;
    var v := m.handles[src];
    var m' := m.(handles := m.handles[k := v][src := Empty], nextHandle := k + 1);
    assert k !in m.handles;
    forall g | g in m'.groups ensures 0 < m'.groups[g].refs == |Holders(m'.handles, Member(g))| {
      HoldersInsert(m.handles, k, v, Member(g));
      HoldersUpdate(m.handles[k := v], src, Empty, Member(g));
    }
  }

  /**
   * `operator=`: copy the object pointer, the destroyed flag and the
   * acquired flag; the old group loses a reference and its last one runs
   * the deleter. Assigning within a group changes nothing.
   */
  function Assign(m: Memory, dst: HandleId, src: HandleId): (r: Memory)
    requires Valid(m) && dst in m.handles && src in m.handles
    ensures Evolves(m, r)
    ensures Valid(r) && r.handles == m.handles[dst := m.handles[src]]
    ensures Pointer(r, dst) == Pointer(m, src) && IsAcquired(r, dst) == IsAcquired(m, src)
    ensures m.handles[dst].Member? && m.handles[dst] != m.handles[src] ==>
      ReleasedFrom(m, Attach(m, dst, m.handles[src]).groups, m.handles[dst].group, r)
  {
    var prev := m.handles[dst];
    var v := m.handles[src];
    if prev == v then
      assert m.handles[dst := v] == m.handles;
      m
    else
      AssignValid(m, dst, src);
      AssignEvolves(m, dst, src);
      AssignKeeps(m, dst, src);
      Release(Attach(m, dst, v), prev)
  }

  lemma AssignValid(m: Memory, dst: HandleId, src: HandleId)
    requires Valid(m) && dst in m.handles && src in m.handles && m.handles[dst] != m.handles[src]
    ensures Valid(Release(Attach(m, dst, m.handles[src]), m.handles[dst]))
  {
    AttachButOne(m, dst, m.handles[src]);
    ReleaseValid(Attach(m, dst, m.handles[src]), m.handles[dst]);
  }

  /** The old group is not the new one, so releasing it leaves the new one in place. */
  lemma AssignKeeps(m: Memory, dst: HandleId, src: HandleId)
    requires dst in m.handles && src in m.handles && m.handles[dst] != m.handles[src]
    requires forall h :: h in m.handles && m.handles[h].Member? ==> m.handles[h].group in m.groups
    ensures var v := m.handles[src]; var r := Release(Attach(m, dst, v), m.handles[dst]);
      && r.handles == m.handles[dst := v]
      && (v.Member? ==> v.group in r.groups && r.groups[v.group].(refs := 0) == m.groups[v.group].(refs := 0))
      && (m.handles[dst].Member? ==> ReleasedFrom(m, Attach(m, dst, v).groups, m.handles[dst].group, r))
  {
  }

  lemma AssignEvolves(m: Memory, dst: HandleId, src: HandleId)
    requires Fresh(m) && dst in m.handles && src in m.handles
    requires forall h :: h in m.handles && m.handles[h].Member? ==> m.handles[h].group in m.groups
    ensures var v := m.handles[src]; Evolves(m, Release(Attach(m, dst, v), m.handles[dst]))
  {
    var v := m.handles[src];
    var m1 := Attach(m, dst, v);
    RebindEvolves(m, m1);
    ReleaseEvolves(m1, m.handles[dst]);
    EvolvesTransitive(m, m1, Release(m1, m.handles[dst]));
  }

  lemma AttachButOne(m: Memory, dst: HandleId, v: Handle)
    requires Valid(m) && dst in m.handles && (v.Member? ==> v.group in m.groups) && m.handles[dst] != v
    ensures ValidButOne(Attach(m, dst, v), m.handles[dst])
  {
    RefsFrame(m, Attach(m, dst, v));
    AttachCounts(m, dst, v);
  }

  lemma AttachCounts(m: Memory, dst: HandleId, v: Handle)
    requires Counted(m) && dst in m.handles && (v.Member? ==> v.group in m.groups) && m.handles[dst] != v
    ensures var m' := Attach(m, dst, v);
      && (forall h :: h in m'.handles && m'.handles[h].Member? ==> m'.handles[h].group in m'.groups)
      && (forall g :: g in m'.groups ==>
            0 < m'.groups[g].refs == |Holders(m'.handles, Member(g))| + (if m.handles[dst] == Member(g) then 1 else 0))
  {
    var m' := Attach(m, dst, v);
    assert m'.handles == m.handles[dst := v];
    forall g | g in m'.groups
      ensures 0 < m'.groups[g].refs == |Holders(m'.handles, Member(g))| + (if m.handles[dst] == Member(g) then 1 else 0)
    {
      assert m'.groups[g].refs == m.groups[g].refs + (if v == Member(g) then 1 else 0);
      HoldersUpdate(m.handles, dst, v, Member(g));
    }
  }

  /**
   * Releasing a reference changes no handle, and the group of a handle
   * still holding one survives unchanged except for its use count.
   */
  lemma ReleaseKeeps(m: Memory, v: Handle, h: HandleId)
    requires ValidButOne(m, v) && h in m.handles && m.handles[h].Member?
    ensures Release(m, v).handles == m.handles
    ensures var g := m.handles[h].group;
      g in Release(m, v).groups && Release(m, v).groups[g].(refs := 0) == m.groups[g].(refs := 0)
  {
    if v == m.handles[h] {
      assert h in Holders(m.handles, v);
    }
  }

  /**
   * The implicit move assignment: the three shared pointers move over one by
   * one, the source is left empty, and the old group loses a reference.
   * Moving a handle into itself leaves it as it was.
   */
  function MoveAssign(m: Memory, dst: HandleId, src: HandleId): (r: Memory)
    requires Valid(m) && dst in m.handles && src in m.handles
    ensures Evolves(m, r)
    ensures Valid(r)
    ensures dst != src ==> r.handles == m.handles[dst := m.handles[src]][src := Empty]
    ensures dst == src ==> r == m
    ensures Pointer(r, dst) == Pointer(m, src) && IsAcquired(r, dst) == IsAcquired(m, src)
    ensures dst != src && m.handles[dst].Member? && m.handles[dst] != m.handles[src] ==>
      ReleasedFrom(m, m.groups, m.handles[dst].group, r)
  {
    if dst == src then m
    else
      MoveAssignValid(m, dst, src);
      MoveAssignEvolves(m, dst, src);
      MoveAssignKeeps(m, dst, src);
      Release(m.(handles := m.handles[dst := m.handles[src]][src := Empty]), m.handles[dst])
  }

  lemma MoveAssignValid(m: Memory, dst: HandleId, src: HandleId)
    requires Valid(m) && dst in m.handles && src in m.handles && dst != src
    ensures Valid(Release(m.(handles := m.handles[dst := m.handles[src]][src := Empty]), m.handles[dst]))
  {
    MoveButOne(m, dst, src);
    ReleaseValid(m.(handles := m.handles[dst := m.handles[src]][src := Empty]), m.handles[dst]);
  }

  /**
   * When both handles hold the same group that group has at least two
   * references, so releasing the old one leaves it in place.
   */
  lemma MoveAssignKeeps(m: Memory, dst: HandleId, src: HandleId)
    requires Counted(m) && dst in m.handles && src in m.handles && dst != src
    ensures var v := m.handles[src];
      var r := Release(m.(handles := m.handles[dst := v][src := Empty]), m.handles[dst]);
      && r.handles == m.handles[dst := v][src := Empty]
      && (v.Member? ==> v.group in r.groups && r.groups[v.group].(refs := 0) == m.groups[v.group].(refs := 0))
      && (m.handles[dst].Member? && m.handles[dst] != v ==> ReleasedFrom(m, m.groups, m.handles[dst].group, r))
  {
    var v := m.handles[src];
    var prev := m.handles[dst];
    if v.Member? && prev == v {
      var hs := Holders(m.handles, v);
      assert hs == {dst, src} + (hs - {dst, src});
      assert |{dst, src}| == 2;
    } else if prev.Member? {
      ReleaseEffect(m.(handles := m.handles[dst := v][src := Empty]), prev.group);
    }
  }

  lemma MoveAssignEvolves(m: Memory, dst: HandleId, src: HandleId)
    requires Fresh(m) && dst in m.handles && src in m.handles
    requires forall h :: h in m.handles && m.handles[h].Member? ==> m.handles[h].group in m.groups
    ensures Evolves(m, Release(m.(handles := m.handles[dst := m.handles[src]][src := Empty]), m.handles[dst]))
  {
    var m1 := m.(handles := m.handles[dst := m.handles[src]][src := Empty]);
    ReleaseEvolves(m1, m.handles[dst]);
    EvolvesTransitive(m, m1, Release(m1, m.handles[dst]));
  }

  lemma MoveButOne(m: Memory, dst: HandleId, src: HandleId)
    requires Valid(m) && dst in m.handles && src in m.handles && dst != src
    ensures ValidButOne(m.(handles := m.handles[dst := m.handles[src]][src := Empty]), m.handles[dst])
  {
    RefsFrame(m, m.(handles := m.handles[dst := m.handles[src]][src := Empty]));
    MoveCountsButOne(m, dst, src);
  }

  lemma MoveCountsButOne(m: Memory, dst: HandleId, src: HandleId)
    requires Counted(m) && dst in m.handles && src in m.handles && dst != src
    ensures var m1 := m.(handles := m.handles[dst := m.handles[src]][src := Empty]);
      && (forall h :: h in m1.handles && m1.handles[h].Member? ==> m1.handles[h].group in m1.groups)
      && (forall g :: g in m1.groups ==>
            0 < m1.groups[g].refs == |Holders(m1.handles, Member(g))| + (if m.handles[dst] == Member(g) then 1 else 0))
  {
    var v := m.handles[src];
    var m1 := m.(handles := m.handles[dst := v][src := Empty]);
    forall g | g in m1.groups
      ensures 0 < m1.groups[g].refs == |Holders(m1.handles, Member(g))| + (if m.handles[dst] == Member(g) then 1 else 0)
    {
      HoldersUpdate(m.handles, dst, v, Member(g));
      HoldersUpdate(m.handles[dst := v], src, Empty, Member(g));
    }
  }

  /** The destructor of a handle; the last handle of a group runs its deleter. */
  function Drop(m: Memory, h: HandleId): (r: Memory)
    requires Valid(m) && h in m.handles
    ensures Evolves(m, r)
    ensures Valid(r) && r.handles == m.handles - {h}
  {
    var m1 := m.(handles := m.handles - {h});
    DropButOne(m, h);
    ReleaseValid(m1, m.handles[h]);
    ReleaseEvolves(m1, m.handles[h]);
    EvolvesTransitive(m, m1, Release(m1, m.handles[h]));
    Release(m1, m.handles[h])
  }

  lemma DropButOne(m: Memory, h: HandleId)
    requires Valid(m) && h in m.handles
    ensures ValidButOne(m.(handles := m.handles - {h}), m.handles[h])
  {
    RefsFrame(m, m.(handles := m.handles - {h}));
    DropCounts(m, h);
  }

  lemma DropCounts(m: Memory, h: HandleId)
    requires Counted(m) && h in m.handles
    ensures var m1 := m.(handles := m.handles - {h});
      && (forall h' :: h' in m1.handles && m1.handles[h'].Member? ==> m1.handles[h'].group in m1.groups)
      && (forall g :: g in m1.groups ==>
            0 < m1.groups[g].refs == |Holders(m1.handles, Member(g))| + (if m.handles[h] == Member(g) then 1 else 0))
  {
    var m1 := m.(handles := m.handles - {h});
    forall g | g in m1.groups
      ensures 0 < m1.groups[g].refs == |Holders(m1.handles, Member(g))| + (if m.handles[h] == Member(g) then 1 else 0)
    {
      HoldersRemove(m.handles, h, Member(g));
    }
  }

  /**
   * `unique_ptr()`: null (also for a moved-from handle) without touching any
   * flag; unique_ptr_already_acquired when the group's flag is set; otherwise
   * the flag is set and the caller owns the object alone.
   */
  function Acquire(m: Memory, h: HandleId): (r: (Memory, Result<Addr>))
    requires Valid(m) && h in m.handles
    ensures Evolves(m, r.0)
    ensures Valid(r.0) && r.0.handles == m.handles && r.0.objects == m.objects
    ensures Pointer(m, h) == 0 ==> r == (m, Ok(0))
    ensures Pointer(m, h) != 0 && Acquired(m, h) ==> r == (m, Err(AlreadyAcquired))
    ensures Pointer(m, h) != 0 && !Acquired(m, h) ==>
      && r.1 == Ok(Pointer(m, h)) && Acquired(r.0, h) && OwnedOutside(r.0, Pointer(m, h))
      && r.0.groups == m.groups[m.handles[h].group := m.groups[m.handles[h].group].(acquired := true)]
  {
    var p := Pointer(m, h);
    if p == 0 then (m, Ok(0))
    else if Acquired(m, h) then (m, Err(AlreadyAcquired))
    else
      var g := m.handles[h].group;
      var m' := m.(groups := m.groups[g := m.groups[g].(acquired := true)]);
      assert Counted(m') by {
        assert m'.groups.Keys == m.groups.Keys;
      }
      (m', Ok(p))
  }

  /**
   * The owner of the `unique_ptr` deletes the object at `a`; for a
   * `dtor_notify_enabled` its destructor sets `isDestroyed`, which every
   * handle on it sees.
   */
  function DeleteObject(m: Memory, a: Addr): (r: Memory)
    requires Valid(m) && a != 0 && OwnedOutside(m, a)
    ensures Evolves(m, r)
    ensures Valid(r) && r.handles == m.handles && r.groups == m.groups
    ensures r.objects == m.objects[a := m.objects[a].(alive := false)]
  {
    DestructValid(m, a);
    Destruct(m, a)
  }

  /**
   * Seen through one handle, deleting the object at `a` changes no address,
   * and access throws iff it threw already or the handle is on `a` and `a`
   * is a `dtor_notify_enabled`.
   */
  lemma DeleteObjectSeen(m: Memory, a: Addr, h: HandleId)
    requires Valid(m) && a != 0 && OwnedOutside(m, a) && h in m.handles
    ensures Pointer(DeleteObject(m, a), h) == Pointer(m, h)
    ensures Get(DeleteObject(m, a), h).Err? <==>
      Get(m, h).Err? || (Pointer(m, h) == a && m.objects[a].hasNotifier)
  {
  }
}
