/**
 * The control-block bridge as the C++ code runs it: one mutable `World`
 * holding every control block, object and handle, whose methods update
 * them step by step the way the constructors, the deleter, the notifier and
 * `unique_ptr()` do. Each method is proved to leave the state that the
 * matching function of `OwnedPointer` describes, so every property proved
 * about those functions holds of the methods.
 */
module OwnedPointerWorld {
  import opened Common
  import opened OwnedPointer

  class World {
    const header: Header
    var blocks: map<BlockId, Block>
    var objects: map<Addr, Object>
    var handles: map<HandleId, Handle>
    var nextBlock: BlockId
    var nextHandle: HandleId

    /** The state as a value. */
    function Model(): Memory
      reads this
    {
      Memory(header, blocks, objects, handles, nextBlock, nextHandle)
    }

    constructor(header: Header)
      ensures Model() == Initial(header)
    {
      this.header := header;
      blocks := map[];
      objects := map[];
      handles := map[];
      nextBlock := 0;
      nextHandle := 0;
    }

    /**
     * The object's destructor; `delete_event` (the notifier's part) locks
     * the weak back-reference and writes `deleted` only when that succeeds.
     */
    method Destruct(a: Addr)
      requires a in objects
      modifies this
      ensures Model() == OwnedPointer.Destruct(old(Model()), a)
    {
      var obj := objects[a];
      objects := objects[a := obj.(alive := false)];
      if obj.hasNotifier && obj.backRef.Some? {
        var weak := obj.backRef.value;
        if weak in blocks {
          blocks := blocks[weak := blocks[weak].(deleted := true)];
        }
      }
    }

    /**
     * `owned_deleter`: free the block, then delete the object unless it was
     * acquired. The source deletes first, but at use count 0 the notifier's
     * weak reference no longer locks, so the order makes no difference.
     */
    method OwnedDeleter(b: BlockId)
      requires b in blocks
      modifies this
      ensures Model() == OwnedPointer.OwnedDeleter(old(Model()), b)
    {
      var blk := blocks[b];
      blocks := blocks - {b};
      if !blk.acquired && blk.addr in objects {
        Destruct(blk.addr);
      }
    }

    /** Give up one reference to `v`; the last one runs the deleter. */
    method Release(v: Handle)
      requires v.Shares? ==> v.block in blocks
      modifies this
      ensures Model() == OwnedPointer.Release(old(Model()), v)
    {
      if v.Shares? {
        var b := v.block;
        if blocks[b].refs > 1 {
          blocks := blocks[b := blocks[b].(refs := blocks[b].refs - 1)];
        } else {
          OwnedDeleter(b);
        }
      }
    }

    /** A new handle bound to `v`, taking a reference. */
    method NewHandle(v: Handle) returns (k: HandleId)
      requires v.Shares? ==> v.block in blocks
      modifies this
      ensures (Model(), k) == OwnedPointer.NewHandle(old(Model()), v)
    {
      k := nextHandle;
      nextHandle := nextHandle + 1;
      handles := handles[k := v];
      if v.Shares? {
        blocks := blocks[v.block := blocks[v.block].(refs := blocks[v.block].refs + 1)];
      }
    }

    /**
     * The private constructor: `get_secret_when_possible` locks the
     * back-reference of a notifier object; if that fails a new block is
     * created and `set_shared_secret_when_possible` points the
     * back-reference at it; then the `acquired` slot is written.
     */
    method PrivateCtor(p: Addr, acquired: bool) returns (k: HandleId)
      modifies this
      ensures (Model(), k) == OwnedPointer.PrivateCtor(old(Model()), p, acquired)
    {
      var notifier := p in objects && objects[p].hasNotifier;
      var b: BlockId;
      if notifier && objects[p].backRef.Some? && objects[p].backRef.value in blocks {
        b := objects[p].backRef.value;
        k := NewHandle(Shares(b));
      } else {
        b := nextBlock;
        nextBlock := nextBlock + 1;
        blocks := blocks[b := Block(p, false, false, 0)];
        k := NewHandle(Shares(b));
        if notifier {
          objects := objects[p := objects[p].(backRef := Some(b))];
        }
      }
      blocks := blocks[b := blocks[b].(acquired := acquired)];
    }

    /** `owned_pointer()` and `owned_pointer(nullptr)`. */
    method Default() returns (k: HandleId)
      requires OwnedPointer.Valid(Model())
      modifies this
      ensures (Model(), k) == OwnedPointer.Default(old(Model()))
    {
      if header == PtrOwnedByUnique {
        k := PrivateCtor(0, false);
      } else {
        k := NewHandle(Empty);
      }
    }

    /** The constructors from a `unique_ptr` (`acquired` false) and from a link (`acquired` true). */
    method Wrap(p: Addr, acquired: bool) returns (k: HandleId)
      requires OwnedPointer.Valid(Model()) && (p == 0 || OwnedOutside(Model(), p))
      modifies this
      ensures (Model(), k) == OwnedPointer.Wrap(old(Model()), p, acquired)
    {
      if p == 0 && header == Inc {
        k := NewHandle(Empty);
      } else {
        k := PrivateCtor(p, acquired);
      }
    }

    /** An object the caller allocates at the unused address `p` and owns through a `unique_ptr`; `notifier` when it is a `destruction_notify_object`. */
    method NewObject(p: Addr, notifier: bool)
      requires OwnedPointer.Valid(Model()) && p != 0 && p !in objects
      modifies this
      ensures Model() == OwnedPointer.NewObject(old(Model()), p, notifier)
    {
      AddObjectValid(Model(), p, notifier);
      objects := objects[p := Object(true, notifier, None)];
    }

    /** `make_owned`: allocate the object at the unused address `p` and wrap it. */
    method MakeOwned(p: Addr, virtualDtor: bool) returns (k: HandleId)
      requires OwnedPointer.Valid(Model()) && p != 0 && p !in objects
      modifies this
      ensures (Model(), k) == OwnedPointer.MakeOwned(old(Model()), p, virtualDtor)
    {
      NewObject(p, virtualDtor);
      k := Wrap(p, false);
    }

    /** The copy constructor. */
    method Copy(src: HandleId) returns (k: HandleId)
      requires OwnedPointer.Valid(Model()) && src in handles
      modifies this
      ensures (Model(), k) == OwnedPointer.Copy(old(Model()), src)
    {
      k := NewHandle(handles[src]);
    }

    /** The move constructor: the reference moves over and the source is left empty. */
    method Move(src: HandleId) returns (k: HandleId)
      requires OwnedPointer.Valid(Model()) && src in handles
      modifies this
      ensures (Model(), k) == OwnedPointer.Move(old(Model()), src)
    {
      ghost var m := Model();
      k := nextHandle;
      nextHandle := nextHandle + 1;
      handles := handles[k := handles[src]][src := Empty];
      assert Model() == m.(handles := m.handles[k := m.handles[src]][src := Empty], nextHandle := k + 1);
    }

    /** Copy assignment: take a reference to `src`'s block, then release the old one. */
    method Assign(dst: HandleId, src: HandleId)
      requires OwnedPointer.Valid(Model()) && dst in handles && src in handles
      modifies this
      ensures Model() == OwnedPointer.Assign(old(Model()), dst, src)
    {
      var prev := handles[dst];
      var v := handles[src];
      if prev != v {
        handles := handles[dst := v];
        if v.Shares? {
          blocks := blocks[v.block := blocks[v.block].(refs := blocks[v.block].refs + 1)];
        }
        Release(prev);
      }
    }

    /** Move assignment: take `src`'s reference, empty `src`, then release the old one. */
    method MoveAssign(dst: HandleId, src: HandleId)
      requires OwnedPointer.Valid(Model()) && dst in handles && src in handles
      modifies this
      ensures Model() == OwnedPointer.MoveAssign(old(Model()), dst, src)
    {
      if dst != src {
        var prev := handles[dst];
        handles := handles[dst := handles[src]][src := Empty];
        Release(prev);
      }
    }

    /** The destructor of a handle. */
    method Drop(h: HandleId)
      requires OwnedPointer.Valid(Model()) && h in handles
      modifies this
      ensures Model() == OwnedPointer.Drop(old(Model()), h)
    {
      var v := handles[h];
      handles := handles - {h};
      Release(v);
    }

    /** `unique_ptr()`: hand out sole ownership once per unacquired block. */
    method UniquePtr(h: HandleId) returns (r: Result<Addr>)
      requires OwnedPointer.Valid(Model()) && h in handles
      modifies this
      ensures (Model(), r) == Acquire(old(Model()), h)
    {
      var v := handles[h];
      if v.Empty? || blocks[v.block].addr == 0 {
        return Ok(0);
      }
      if blocks[v.block].acquired {
        return Err(AlreadyAcquired);
      }
      blocks := blocks[v.block := blocks[v.block].(acquired := true)];
      r := Ok(blocks[v.block].addr);
    }

    /** The holder of the `unique_ptr` deletes the object. */
    method DeleteObject(a: Addr)
      requires OwnedPointer.Valid(Model()) && a != 0 && OwnedOutside(Model(), a)
      modifies this
      ensures Model() == OwnedPointer.DeleteObject(old(Model()), a)
    {
      Destruct(a);
    }
  }
}
