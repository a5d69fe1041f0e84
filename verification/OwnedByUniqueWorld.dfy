/**
 * owned_by_unique.hpp as the C++ code runs it: one mutable `World` holding
 * every group, object and handle, whose methods update them step by step the
 * way the constructors, `operator=`, the `Deleter` and `unique_ptr()` do.
 * Each method is proved to leave the state that the matching function of
 * `OwnedByUnique` describes, so every property proved about those functions
 * holds of the methods.
 */
module OwnedByUniqueWorld {
  import opened Common
  import opened OwnedByUnique

  class World {
    var groups: map<GroupId, Group>
    var objects: map<Addr, Object>
    var handles: map<HandleId, Handle>
    var nextGroup: GroupId
    var nextHandle: HandleId

    /** The state as a value. */
    function Model(): Memory
      reads this
    {
      Memory(groups, objects, handles, nextGroup, nextHandle)
    }

    constructor()
      ensures Model() == Initial()
    {
      groups := map[];
      objects := map[];
      handles := map[];
      nextGroup := 0;
      nextHandle := 0;
    }

    /** The object's destructor; a `dtor_notify_enabled` writes `*isDestroyed = true`. */
    method Destruct(a: Addr)
      requires a in objects
      modifies this
      ensures Model() == OwnedByUnique.Destruct(old(Model()), a)
    {
      objects := objects[a := objects[a].(alive := false)];
    }

    /** Give up one reference to `v`; the last one frees the group and runs `Deleter`. */
    method Release(v: Handle)
      requires v.Member? ==> v.group in groups
      modifies this
      ensures Model() == OwnedByUnique.Release(old(Model()), v)
    {
      if v.Member? {
        var g := v.group;
        var grp := groups[g];
        if grp.refs > 1 {
          groups := groups[g := grp.(refs := grp.refs - 1)];
        } else {
          groups := groups - {g};
          if !grp.acquired && grp.addr in objects {
            Destruct(grp.addr);
          }
        }
      }
    }

    /**
     * The private constructor: make the flag, give the object's `shared_ptr`
     * a `Deleter` holding it, and pick up the object's destroyed flag if it
     * has one (that flag lives in the object, so nothing is written here).
     */
    method PrivateCtor(p: Addr, acquired: bool) returns (k: HandleId)
      modifies this
      ensures (Model(), k) == NewGroup(old(Model()), p, acquired)
    {
      var g := nextGroup;
      nextGroup := nextGroup + 1;
      groups := groups[g := Group(p, acquired, 1)];
      k := nextHandle;
      nextHandle := nextHandle + 1;
      handles := handles[k := Member(g)];
    }

    /** `owned_by_unique()` and `owned_by_unique(nullptr)`. */
    method Default() returns (k: HandleId)
      requires OwnedByUnique.Valid(Model())
      modifies this
      ensures (Model(), k) == OwnedByUnique.Default(old(Model()))
    {
      k := PrivateCtor(0, false);
    }

    /** The constructors from a `unique_ptr` (`acquired` false) and from a link (`acquired` true). */
    method Wrap(p: Addr, acquired: bool) returns (k: HandleId)
      requires OwnedByUnique.Valid(Model()) && (p == 0 || OwnedOutside(Model(), p))
      modifies this
      ensures (Model(), k) == OwnedByUnique.Wrap(old(Model()), p, acquired)
    {
      k := PrivateCtor(p, acquired);
    }

    /** An object the caller allocates at the unused address `p` and owns through a `unique_ptr`; `notifier` when it is `dtor_notify_enabled`. */
    method NewObject(p: Addr, notifier: bool)
      requires OwnedByUnique.Valid(Model()) && p != 0 && p !in objects
      modifies this
      ensures Model() == OwnedByUnique.NewObject(old(Model()), p, notifier)
    {
      objects := objects[p := Object(true, notifier)];
    }

    /** `make_owned_by_unique`: allocate the object at the unused address `p` and wrap it. */
    method MakeOwned(p: Addr, virtualDtor: bool) returns (k: HandleId)
      requires OwnedByUnique.Valid(Model()) && p != 0 && p !in objects
      modifies this
      ensures (Model(), k) == OwnedByUnique.MakeOwned(old(Model()), p, virtualDtor)
    {
      objects := objects[p := Object(true, virtualDtor)];
      k := PrivateCtor(p, false);
    }

    /** The copy constructor. */
    method Copy(src: HandleId) returns (k: HandleId)
      requires OwnedByUnique.Valid(Model()) && src in handles
      modifies this
      ensures (Model(), k) == OwnedByUnique.Copy(old(Model()), src)
    {
      ghost var m := Model();
      var v := handles[src];
      k := nextHandle;
      nextHandle := nextHandle + 1;
      handles := handles[k := v];
      if v.Member? {
        groups := groups[v.group := groups[v.group].(refs := groups[v.group].refs + 1)];
      }
      assert Model() == Attach(m.(nextHandle := k + 1), k, v);
    }

    /** The implicit move constructor. */
    method Move(src: HandleId) returns (k: HandleId)
      requires OwnedByUnique.Valid(Model()) && src in handles
      modifies this
      ensures (Model(), k) == OwnedByUnique.Move(old(Model()), src)
    {
      k := nextHandle;
      nextHandle := nextHandle + 1;
      handles := handles[k := handles[src]][src := Empty];
    }

    /**
     * `operator=`: `acquireSharedResource` takes a reference to the source's
     * object and releases the old one, then the two flags are copied.
     */
    method Assign(dst: HandleId, src: HandleId)
      requires OwnedByUnique.Valid(Model()) && dst in handles && src in handles
      modifies this
      ensures Model() == OwnedByUnique.Assign(old(Model()), dst, src)
    {
      var prev := handles[dst];
      var v := handles[src];
      if prev != v {
        handles := handles[dst := v];
        if v.Member? {
          groups := groups[v.group := groups[v.group].(refs := groups[v.group].refs + 1)];
        }
        Release(prev);
      }
    }

    /** The implicit move assignment. */
    method MoveAssign(dst: HandleId, src: HandleId)
      requires OwnedByUnique.Valid(Model()) && dst in handles && src in handles
      modifies this
      ensures Model() == OwnedByUnique.MoveAssign(old(Model()), dst, src)
    {
      if dst != src {
        var prev := handles[dst];
        handles := handles[dst := handles[src]][src := Empty];
        Release(prev);
      }
    }

    /** The destructor of a handle. */
    method Drop(h: HandleId)
      requires OwnedByUnique.Valid(Model()) && h in handles
      modifies this
      ensures Model() == OwnedByUnique.Drop(old(Model()), h)
    {
      var v := handles[h];
      handles := handles - {h};
      Release(v);
    }

    /** `unique_ptr()`: set the shared flag once and hand out the address. */
    method UniquePtr(h: HandleId) returns (r: Result<Addr>)
      requires OwnedByUnique.Valid(Model()) && h in handles
      modifies this
      ensures (Model(), r) == Acquire(old(Model()), h)
    {
      var v := handles[h];
      if v.Empty? || groups[v.group].addr == 0 {
        return Ok(0);
      }
      if groups[v.group].acquired {
        return Err(AlreadyAcquired);
      }
      groups := groups[v.group := groups[v.group].(acquired := true)];
      r := Ok(groups[v.group].addr);
    }

    /** The holder of the `unique_ptr` deletes the object. */
    method DeleteObject(a: Addr)
      requires OwnedByUnique.Valid(Model()) && a != 0 && OwnedOutside(Model(), a)
      modifies this
      ensures Model() == OwnedByUnique.DeleteObject(old(Model()), a)
    {
      Destruct(a);
    }
  }
}
