# Ownership bridge between `unique_ptr` and shared handles

This project is a Dafny model of the `pobu` ownership bridge. The bridge is a handle type: many parties share a heap object through reference-counted handles, and `unique_ptr()` hands sole ownership of the object to one `std::unique_ptr` exactly once. If that owner deletes the object, handles on an object with a virtual destructor find out and throw `ptr_is_already_deleted` on access.

The repository holds three generations of the handle.

- **`owned_pointer` and `ptr_owned_by_unique`** keep a control block `(address, acquired, deleted)` owned by a `shared_ptr`. An object made by the factory for a type with a virtual destructor carries a notifier. The notifier holds a weak back-reference to the block and marks the block deleted from the object's destructor. There are three headers of this kind: `inc/owned_pointer.hpp`, the root `owned_pointer.hpp` and `ptr_owned_by_unique.hpp`. They share one model, `OwnedPointer`, whose state names the header. In the model the headers differ in how they treat a null pointer. In the source, ptr_owned_by_unique.hpp also has a narrower public interface and unguarded accessors; "## Left out" and "## Findings" list those differences.
- **`owned_by_unique`** (`owned_by_unique.hpp`) has no back-reference. Each wrap of a raw pointer creates its own `acquiredByUniquePtr` flag. A `dtor_notify_enabled` object carries its own `isDestroyed` flag. Comparisons go through `get()` and can throw. The model is `OwnedByUnique`.

Both models are state machines over one value, `Memory`. It holds every control block (or group), every object and every handle, and a handle is an identifier in that table. The invariant `Valid` says:

- every use count equals the number of handles sharing the block;
- identifiers are never reused, so a stale weak reference never locks again;
- a block that is not acquired owns its object, which is alive and has no second unacquired owner;
- for the control-block headers, `deleted` is set exactly when a notifier object was destroyed.

Every operation is a function that keeps `Valid` and the two-state relation `Evolves`. The classes `OwnedPointerWorld.World` and `OwnedByUniqueWorld.World` hold the same state in mutable fields. Their methods update it step by step as the C++ constructors, deleters and `unique_ptr()` do. Each method is proved to leave exactly the state the matching function describes.

Files:

- `Common.dfy`: addresses, `Option`, `Result`, the two exceptions, and the three-way address comparison. It also has `Holders`, the set of handles bound to one block, with its counting lemmas.
- `OwnedPointer.dfy`, `OwnedPointerProperties.dfy` and `OwnedPointerWorld.dfy`: the control-block headers.
- `PtrOwnedByUniqueAccess.dfy`: the unguarded accessors of `ptr_owned_by_unique.hpp` (see Findings).
- `OwnedByUnique.dfy`, `OwnedByUniqueProperties.dfy` and `OwnedByUniqueWorld.dfy`: `owned_by_unique.hpp`.

Three behaviours of the code are easy to miss; the model follows the code each time:

- **`acquired` is not monotone in the control-block headers.** Wrapping a notifier object whose block is still alive reuses that block and overwrites `acquired` (inc/owned_pointer.hpp:270, owned_pointer.hpp:265, ptr_owned_by_unique.hpp:223), so an acquired object can read `acquired()` false again (`OwnedPointerProperties.AcquiredIsNotMonotone`). The library's own test `testMoveAndLinkSemantics` (ut/owned_pointer_ut.cpp:260-280) relies on this: it wraps `u` again after `unique_ptr()` and links, and expects `acquired()` to be false (ut/owned_pointer_ut.cpp:126-129). In `owned_by_unique.hpp` each wrap has its own flag, so there the flag never clears (`OwnedByUniqueProperties.FlagNeverClears`).
- **A null link is acquired.** In `owned_pointer.hpp`, `ptr_owned_by_unique.hpp` and `owned_by_unique.hpp`, a link to an empty `unique_ptr` still gets a block or flag with `acquired` true. Only `inc/owned_pointer.hpp` returns early and leaves an empty handle whose `acquired()` is false.
- **A wrap shares a live block of a notifier object instead of creating a new one.** This happens in the control-block headers (`OwnedPointerProperties.WrapReusesLiveBlock`).

## Model

| member | source | states |
|---|---|---|
| Common.CompareAddr | inc/owned_pointer.hpp:238-242 | The result is -1, 0 or +1; it is 0 iff the addresses are equal, negative iff the first is lower, positive iff it is higher |
| Common.CompareAddrAntisymmetric | inc/owned_pointer.hpp:238-242 | Swapping the operands negates the comparison |
| OwnedPointer.Initial | inc/owned_pointer.hpp:132 | The state with no handle and no block satisfies the invariant |
| OwnedPointer.Pointer | inc/owned_pointer.hpp:251-257 | `get_pointer()` is null without a block; a non-null result names a known object; under inc/owned_pointer.hpp a handle with a block is never null |
| OwnedPointer.Acquired | inc/owned_pointer.hpp:218-221 | `acquired()` is false without a block; a non-null handle that is not acquired points at a live object |
| OwnedPointer.Expired | inc/owned_pointer.hpp:223-226 | `expired()` holds iff the handle's object carries a notifier and has been destroyed |
| OwnedPointer.IsTrue | inc/owned_pointer.hpp:233-236 | `bool` is true iff the handle points at an object |
| OwnedPointer.UseCount | inc/owned_pointer.hpp:130 | `use_count()` is the number of handles sharing the block, including this one; it is 0 for an empty handle |
| OwnedPointer.Get | inc/owned_pointer.hpp:186-202 | Access throws `ptr_is_already_deleted` iff the handle has expired; otherwise it gives the address, never that of a destroyed notifier object |
| OwnedPointer.Compare | inc/owned_pointer.hpp:238-242 | `compare(ptr)` is the sign of the address order and never throws |
| OwnedPointer.CompareHandles | inc/owned_pointer.hpp:244-248 | Comparing two handles compares their addresses alone |
| OwnedPointer.Relate | inc/owned_pointer.hpp:334-392 | `==`, `!=`, `<`, `<=`, `>` and `>=` with a handle on the left are exactly the address relations |
| OwnedPointer.RelateReversed | inc/owned_pointer.hpp:400-440 | `==` and `!=` with a raw pointer, `unique_ptr` or nullptr on the left agree with the swapped operator |
| OwnedPointer.PrivateCtorValid | inc/owned_pointer.hpp:259-271 | The private constructor keeps the invariant when the wrapped object is null or owned by the caller alone |
| OwnedPointer.PrivateCtorShape | inc/owned_pointer.hpp:259-271 | The private constructor reuses the block that the back-reference locks; otherwise it creates a fresh block and points a notifier's back-reference at it; either way it then writes `acquired` |
| OwnedPointer.DestructValid | inc/owned_pointer.hpp:75-88 | A destructor run on an object whose blocks are all acquired keeps the invariant: `delete_event` marks only the block that the weak reference locks |
| OwnedPointer.ReleaseValid | inc/owned_pointer.hpp:53-67 | Releasing the last reference frees the block and deletes the object iff the block is unacquired, and this keeps the invariant |
| OwnedPointer.ReleaseKeeps | inc/owned_pointer.hpp:53-67 | Releasing changes no handle and no other block: when the deleter destroys a notifier object, its notifier finds that object's own block already freed (inc/owned_pointer.hpp:75-88) |
| OwnedPointer.ReleaseLastEffect | inc/owned_pointer.hpp:53-67 | The last reference's release removes exactly its block and deletes exactly its object when the block is not acquired; no handle changes |
| OwnedPointer.SharedSecretValid | inc/owned_pointer.hpp:279-289 | Joining the block that a notifier object's back-reference still locks, then overwriting its `acquired`, keeps the invariant |
| OwnedPointer.NewBlockValid | inc/owned_pointer.hpp:259-271 | Creating a block when the back-reference does not lock keeps the invariant, for a null pointer only where the header allows a null block |
| OwnedPointer.WriteAcquiredValid | inc/owned_pointer.hpp:270 | Writing `acquired` keeps the invariant, provided that clearing it is done only for an object the caller owns alone |
| OwnedPointer.Default | inc/owned_pointer.hpp:132-133 | The default and nullptr constructors give a null, unacquired, unexpired handle; it has a block of its own only under ptr_owned_by_unique.hpp (ptr_owned_by_unique.hpp:133-134). No object and no existing block changes |
| OwnedPointer.Wrap | inc/owned_pointer.hpp:135-151 | Wrapping a `unique_ptr` (acquired false) or a link (acquired true) gives a handle on that address with that `acquired`, except that a null wrap under inc/owned_pointer.hpp is empty and changes no block or object; no other handle changes. Otherwise only the constructor's block (the locked one or a new one) changes, and a notifier object's back-reference is set only when a new block is made |
| OwnedPointer.NewObject | inc/owned_pointer.hpp:135-141 | An object the caller allocates and holds in a `unique_ptr` is alive and owned outside (`OwnedOutside`), so it can be wrapped; nothing else changes. It has a notifier only if built as a `destruction_notify_object` |
| OwnedPointer.MakeOwned | inc/owned_pointer.hpp:307-320 | `make_owned` gives one handle, with use count 1, on a new live object that is not acquired and not expired; the object has a notifier iff its type has a virtual destructor, and the back-reference names the new block. Exactly one block, one handle and one object are added and nothing else changes |
| OwnedPointer.MakeOwnedShape | inc/owned_pointer.hpp:307-320 | The exact state `make_owned` leaves: one new object, one new block and one new handle |
| OwnedPointer.Copy | inc/owned_pointer.hpp:153-157 | A copy shares the block, so address, `acquired()` and `expired()` agree, and every sharer's use count rises by one. Only the shared block's count changes; no object changes |
| OwnedPointer.Move | inc/owned_pointer.hpp:159-164 | The move constructor transfers the block unchanged and leaves the source empty, null, unacquired and with use count 0 |
| OwnedPointer.Assign | inc/owned_pointer.hpp:166-174 | Copy assignment binds the target to the source's block and releases the old one; assigning within a block changes nothing. Releasing the old block (`ReleasedFrom`): if it was the last reference, the block is freed and its object is deleted unless acquired, and nothing else changes; otherwise only its count drops |
| OwnedPointer.AssignKeeps | inc/owned_pointer.hpp:166-174 | Releasing the target's old block leaves the source's block as the new reference left it, one count higher; the old reference's own release is `ReleasedFrom` |
| OwnedPointer.MoveAssign | inc/owned_pointer.hpp:176-184 | Move assignment transfers the source's binding, empties the source and releases the old one; self-move changes nothing. The old block is released as for `Assign` (`ReleasedFrom`) |
| OwnedPointer.MoveAssignKeeps | inc/owned_pointer.hpp:176-184 | The moved block survives the release of the target's old reference with everything but its count unchanged, also when both handles shared it; the old reference's own release is `ReleasedFrom` |
| OwnedPointer.Drop | inc/owned_pointer.hpp:53-67 | A handle's destructor removes it and releases its reference, keeping the invariant |
| OwnedPointer.Acquire | inc/owned_pointer.hpp:204-216 | `unique_ptr()` returns null and changes nothing on a null handle, throws `unique_ptr_already_acquired` if acquired, and otherwise sets `acquired` on that block alone and hands sole ownership of the address to the caller |
| OwnedPointer.DeleteObject | inc/owned_pointer.hpp:75-88 | Its owner deleting the object keeps the invariant, changes no handle and no other object, and leaves the object destroyed |
| OwnedPointer.DestructBlocks | inc/owned_pointer.hpp:75-88 | The destructor frees no block and moves no address; a block becomes deleted iff it already was or it belongs to the destroyed notifier object |
| OwnedPointer.DeleteObjectSeen | inc/owned_pointer.hpp:223-226 | Seen through any handle, deleting the object changes no address, and the handle expires iff it had expired already or it is on the deleted notifier object |
| OwnedPointerProperties.SharersAgree | ut/owned_pointer_ut.cpp:245-258 | Handles sharing a block agree on address, `acquired()`, `expired()`, access and `use_count()` |
| OwnedPointerProperties.CopyCountsEverySharer | ut/owned_pointer_ut.cpp:332-341 | A copy adds one to the use count seen through every sharer |
| OwnedPointerProperties.AcquireOnce | ut/owned_pointer_ut.cpp:296-305 | After the first `unique_ptr()`, every handle on the address throws `unique_ptr_already_acquired` and access still succeeds |
| OwnedPointerProperties.NullHandleInert | ut/owned_pointer_ut.cpp:343-353 | On a null handle, `unique_ptr()` returns null and changes nothing, so it can be called repeatedly; `bool` and `expired()` are false |
| OwnedPointerProperties.IncNullHasNoBlock | inc/owned_pointer.hpp:218-221 | Under inc/owned_pointer.hpp a handle is null iff it has no block, so a null handle is never acquired |
| OwnedPointerProperties.DropLast | inc/owned_pointer.hpp:53-67 | Dropping the last handle frees the block and deletes the object iff the block is unacquired; the object was alive before. The blocks and objects afterwards are stated exactly, so nothing else changes |
| OwnedPointerProperties.DropShared | inc/owned_pointer.hpp:53-67 | Dropping a shared handle only lowers the use count |
| OwnedPointerProperties.DeleteExpiresHandles | ut/owned_pointer_ut.cpp:321-330 | Deleting a notifier object expires every handle on it, and access then throws |
| OwnedPointerProperties.AcquireThenDeleteExpires | ut/owned_pointer_ut.cpp:355-373 | Acquiring and then deleting a notifier object makes access throw through every handle on it and through copies made afterwards |
| OwnedPointerProperties.NotifierNeedsLock | inc/owned_pointer.hpp:75-78 | The notifier writes no block when its weak reference does not lock |
| OwnedPointerProperties.DeleteWithoutNotifier | inc/owned_pointer.hpp:273-277 | Deleting an object without a notifier changes neither `expired()` nor access on any handle |
| OwnedPointerProperties.ExpiredStaysExpired | inc/owned_pointer.hpp:223-226 | An expired handle stays expired, and keeps throwing, for as long as it keeps its block |
| OwnedPointerProperties.WrapReusesLiveBlock | inc/owned_pointer.hpp:279-289 | Wrapping a notifier object whose block is alive shares that block and overwrites `acquired` for every handle on it |
| OwnedPointerProperties.WrapCreatesBlock | inc/owned_pointer.hpp:259-271 | Otherwise the wrap creates a never-used block with one user and the given `acquired`, and a notifier's back-reference is pointed at it |
| OwnedPointerProperties.CompareSurvivesDeletion | ut/owned_pointer_ut.cpp:460-510 | Deleting an object changes no comparison result |
| OwnedPointerProperties.CompareSurvivesAcquire | inc/owned_pointer.hpp:238-248 | `unique_ptr()` changes no comparison result |
| OwnedPointerProperties.CompareHandlesAntisymmetric | inc/owned_pointer.hpp:244-248 | Swapping two handles negates their comparison |
| OwnedPointerProperties.NullWrapHasBlock | owned_pointer.hpp:131-143 | In the root and ptr_owned_by_unique.hpp headers a null `unique_ptr` or link gets a block: `bool` is false, `unique_ptr()` returns null, and `acquired()` is the constructor's flag |
| OwnedPointerProperties.IncNullWrapIsEmpty | inc/owned_pointer.hpp:135-151 | inc/owned_pointer.hpp gives the same wraps an empty handle that is never acquired and makes no block |
| OwnedPointerProperties.AcquiredIsNotMonotone | inc/owned_pointer.hpp:259-271 | make, acquire, then wrap the `unique_ptr` again: both handles share one block and read `acquired()` false |
| OwnedPointerProperties.Made | inc/owned_pointer.hpp:307-320 | The state after `make_owned` at address 1 satisfies the invariant |
| OwnedPointerProperties.MadeState | inc/owned_pointer.hpp:307-320 | `make_owned` at address 1 in the initial state gives exactly that state |
| OwnedPointerProperties.Shared | inc/owned_pointer.hpp:153-157 | A state in which one or two handles share that block satisfies the invariant |
| OwnedPointerProperties.CopyMade | inc/owned_pointer.hpp:153-157 | Copying the made handle gives the two-handle state |
| OwnedPointerProperties.DropOriginal | inc/owned_pointer.hpp:53-67 | Dropping one of two handles leaves the object alive |
| OwnedPointerProperties.DropCopy | inc/owned_pointer.hpp:53-67 | Dropping the last handle deletes the object and frees the block |
| OwnedPointerProperties.LastOfTwoDeletes | ut/owned_pointer_ut.cpp:282-294 | make, copy, drop the original (the object lives on), then drop the copy (the object and its block are gone) |
| OwnedPointerProperties.RewrapAfterRelease | inc/owned_pointer.hpp:279-302 | An acquired notifier object whose last handle is gone gets a fresh block, unacquired and unexpired, when wrapped again |
| OwnedPointerWorld.World.constructor | inc/owned_pointer.hpp:119-132 | The world starts in the initial state |
| OwnedPointerWorld.World.Destruct | inc/owned_pointer.hpp:75-88 | The object's destructor, with `delete_event` writing through the locked weak reference, leaves the state `OwnedPointer.Destruct` describes |
| OwnedPointerWorld.World.OwnedDeleter | inc/owned_pointer.hpp:53-67 | `owned_deleter` frees the block and deletes the object unless acquired |
| OwnedPointerWorld.World.Release | inc/owned_pointer.hpp:53-67 | Giving up one reference equals `OwnedPointer.Release` |
| OwnedPointerWorld.World.NewHandle | inc/owned_pointer.hpp:153-157 | A new handle bound to a block takes one reference |
| OwnedPointerWorld.World.PrivateCtor | inc/owned_pointer.hpp:259-302 | The step-by-step private constructor (lock the secret, else reset and set the secret, then write `acquired`) equals `OwnedPointer.PrivateCtor` |
| OwnedPointerWorld.World.Default | inc/owned_pointer.hpp:132-133 | Equals `OwnedPointer.Default` |
| OwnedPointerWorld.World.Wrap | inc/owned_pointer.hpp:135-151 | Equals `OwnedPointer.Wrap` |
| OwnedPointerWorld.World.NewObject | inc/owned_pointer.hpp:135-141 | Equals `OwnedPointer.NewObject` |
| OwnedPointerWorld.World.MakeOwned | inc/owned_pointer.hpp:307-320 | Equals `OwnedPointer.MakeOwned` |
| OwnedPointerWorld.World.Copy | inc/owned_pointer.hpp:153-157 | Equals `OwnedPointer.Copy` |
| OwnedPointerWorld.World.Move | inc/owned_pointer.hpp:159-164 | Equals `OwnedPointer.Move` |
| OwnedPointerWorld.World.Assign | inc/owned_pointer.hpp:166-174 | Equals `OwnedPointer.Assign` |
| OwnedPointerWorld.World.MoveAssign | inc/owned_pointer.hpp:176-184 | Equals `OwnedPointer.MoveAssign` |
| OwnedPointerWorld.World.Drop | inc/owned_pointer.hpp:53-67 | Equals `OwnedPointer.Drop` |
| OwnedPointerWorld.World.UniquePtr | inc/owned_pointer.hpp:204-216 | Returns and leaves what `OwnedPointer.Acquire` describes |
| OwnedPointerWorld.World.DeleteObject | inc/owned_pointer.hpp:75-88 | Equals `OwnedPointer.DeleteObject` |
| PtrOwnedByUniqueAccess.ControlBlock | ptr_owned_by_unique.hpp:197 | Dereferencing the base is defined iff the handle holds a block, and that block has the handle's address |
| PtrOwnedByUniqueAccess.IsAcquiredAsWritten | ptr_owned_by_unique.hpp:197 | `is_acquired()` as written is undefined on an empty base and equals `acquired()` otherwise |
| PtrOwnedByUniqueAccess.GetPointerAsWritten | ptr_owned_by_unique.hpp:211 | `get_pointer()` as written is undefined on an empty base and equals the address otherwise |
| PtrOwnedByUniqueAccess.DeletedCheckAsWritten | ptr_owned_by_unique.hpp:226-230 | The deleted check as written is undefined on an empty base and equals `expired()` otherwise |
| PtrOwnedByUniqueAccess.MovedFromHandleIsUndefined | ptr_owned_by_unique.hpp:133-134 | A default handle, which has a block, moved into another handle: every accessor of the source is then undefined |
| PtrOwnedByUniqueAccess.MovedFromHandleIsInert | inc/owned_pointer.hpp:218-226 | With the `operator bool` guard, a moved-from handle is null, unacquired and unexpired, access gives null, and `unique_ptr()` changes nothing |
| OwnedByUnique.Initial | owned_by_unique.hpp:67-78 | The empty state satisfies the invariant |
| OwnedByUnique.Pointer | owned_by_unique.hpp:117-121 | The `shared_ptr`'s pointer is null for a moved-from handle; a non-null one names a known object |
| OwnedByUnique.IsAcquired | owned_by_unique.hpp:154-157 | `is_acquired()` as written is undefined iff the handle was moved from; when it reads false on a non-null handle, the object is alive |
| OwnedByUnique.Acquired | owned_by_unique.hpp:154-157 | The guarded `is_acquired()` is false on a moved-from handle and agrees with the flag otherwise |
| OwnedByUnique.Get | owned_by_unique.hpp:117-133 | Access throws `ptr_is_already_deleted` iff a destroyed flag is attached and set (owned_by_unique.hpp:183-187); otherwise it gives the address |
| OwnedByUnique.IsTrue | owned_by_unique.hpp:77 | `bool` is true iff the handle points at an object |
| OwnedByUnique.UseCount | owned_by_unique.hpp:78 | `use_count()` is the number of handles in the group, and 0 after a move |
| OwnedByUnique.Equal | owned_by_unique.hpp:242-246 | `==` throws iff either side's object was destroyed; otherwise it is address equality |
| OwnedByUnique.NotEqual | owned_by_unique.hpp:248-252 | `!=` throws when `==` does; otherwise it is address inequality |
| OwnedByUnique.Less | owned_by_unique.hpp:254-258 | `<` throws iff either side's object was destroyed; otherwise it is address order |
| OwnedByUnique.NewGroupValid | owned_by_unique.hpp:219-225 | A fresh flag and a fresh `shared_ptr` with a `Deleter` keep the invariant for a null pointer or for an object the caller owns alone |
| OwnedByUnique.DestructValid | owned_by_unique.hpp:29-31 | The destructor, which sets `isDestroyed`, keeps the invariant when every group of the object is acquired |
| OwnedByUnique.ReleaseValid | owned_by_unique.hpp:163-181 | Releasing the last reference frees the group and runs the `Deleter` (it deletes iff the flag is clear), keeping the invariant |
| OwnedByUnique.ReleaseKeeps | owned_by_unique.hpp:163-181 | Releasing changes no handle, and a group that a handle still holds survives unchanged except for its count |
| OwnedByUnique.ReleaseEffect | owned_by_unique.hpp:163-181 | Giving up any reference is `ReleasedFrom`: the last frees exactly its group and deletes its object unless the flag is set, any other only lowers the count |
| OwnedByUnique.Default | owned_by_unique.hpp:80-84 | The default and nullptr constructors make a new group on null with the flag clear; no object and no existing group changes |
| OwnedByUnique.Wrap | owned_by_unique.hpp:86-96 | A link (flag set) or `unique_ptr` (flag clear) wrap always makes a new group, even for null, and touches no other group |
| OwnedByUnique.NewObject | owned_by_unique.hpp:92-96 | An object the caller allocates and holds in a `unique_ptr` is alive and owned outside (`OwnedOutside`), so it can be wrapped; nothing else changes. It has an `isDestroyed` flag only if it is a `dtor_notify_enabled` |
| OwnedByUnique.MakeOwned | owned_by_unique.hpp:260-276 | A new live object (a `dtor_notify_enabled` iff the type has a virtual destructor) is wrapped unacquired in one new group, and access gives its address; no existing handle or group changes |
| OwnedByUnique.Copy | owned_by_unique.hpp:98-115 | A copy joins the source's group, sharing address, both flags and access; every member's use count rises by one, only that group's count changes, and no object changes |
| OwnedByUnique.Move | owned_by_unique.hpp:67-78 | The implicit move constructor transfers the group and leaves the source with no flag at all |
| OwnedByUnique.Assign | owned_by_unique.hpp:104-115 | `operator=` joins the source's group and releases the old one; assigning within a group changes nothing. Releasing the old group (`ReleasedFrom`): if it was the last reference, the group is freed and its object is deleted unless the flag is set, and nothing else changes; otherwise only its count drops |
| OwnedByUnique.AssignKeeps | owned_by_unique.hpp:104-115 | Releasing the target's old group leaves the source's group as it was except for its count; the old reference's own release is `ReleasedFrom` |
| OwnedByUnique.MoveAssign | owned_by_unique.hpp:67-78 | The implicit move assignment transfers the group, empties the source and releases the old one; self-move changes nothing. The old group is released as for `Assign` (`ReleasedFrom`) |
| OwnedByUnique.MoveAssignKeeps | owned_by_unique.hpp:67-78 | The moved group survives the release of the target's old reference with everything but its count unchanged, also when both handles were in it; the old reference's own release is `ReleasedFrom` |
| OwnedByUnique.Drop | owned_by_unique.hpp:163-181 | A handle's destructor removes it and releases its reference |
| OwnedByUnique.Acquire | owned_by_unique.hpp:135-147 | `unique_ptr()` returns null and touches nothing on a null handle, throws `unique_ptr_already_acquired` if the flag is set, and otherwise sets the flag of that group alone and hands sole ownership to the caller |
| OwnedByUnique.DeleteObject | owned_by_unique.hpp:29-31 | Its owner deleting the object keeps the invariant and changes only that object, which is no longer alive |
| OwnedByUnique.DeleteObjectSeen | owned_by_unique.hpp:183-187 | Seen through any handle, deleting the object changes no address, and access throws afterwards iff it threw already or the handle is on the deleted `dtor_notify_enabled` object |
| OwnedByUniqueProperties.SharersAgree | owned_by_unique.hpp:105-115 | Handles of one group agree on address, `is_acquired()`, access and use count |
| OwnedByUniqueProperties.CopySharesFlag | owned_by_unique.hpp:110-113 | Acquiring through a copy marks the original acquired; the copy adds one to the use count |
| OwnedByUniqueProperties.AcquireOnce | owned_by_unique.hpp:135-147 | After the first `unique_ptr()`, every handle on the address, in any group, throws `unique_ptr_already_acquired` while access succeeds |
| OwnedByUniqueProperties.NullHandleInert | owned_by_unique.hpp:137-146 | On a null handle `unique_ptr()` returns null and changes nothing; `bool` is false and access does not throw |
| OwnedByUniqueProperties.NullWrapHasGroup | owned_by_unique.hpp:80-96 | A null wrap still has a flag: it is clear for the default constructor and set for a null link |
| OwnedByUniqueProperties.WrapKeepsOtherHandles | owned_by_unique.hpp:219-225 | A wrap changes nothing seen through any existing handle |
| OwnedByUniqueProperties.FlagNeverClears | owned_by_unique.hpp:135-147 | Once a handle reads acquired, it reads acquired for as long as it stays in its group |
| OwnedByUniqueProperties.RewrapKeepsOldFlag | owned_by_unique.hpp:92-96 | make, acquire, then wrap the `unique_ptr` again: the old handle stays acquired and throws; the new one is unacquired and hands the object out |
| OwnedByUniqueProperties.DropLast | owned_by_unique.hpp:163-181 | Dropping a group's last handle frees the group and deletes the object iff the flag is clear; nothing else changes |
| OwnedByUniqueProperties.DropShared | owned_by_unique.hpp:163-181 | Dropping a handle of a larger group only lowers its count |
| OwnedByUniqueProperties.DeleteDestroysHandles | owned_by_unique.hpp:242-258 | After a `dtor_notify_enabled` object is deleted, access, `==`, `!=` and `<` through any handle on it throw |
| OwnedByUniqueProperties.AcquireThenDeleteDestroys | owned_by_unique.hpp:183-187 | Acquiring and then deleting a `dtor_notify_enabled` object makes access throw through every handle on it and through copies made afterwards |
| OwnedByUniqueProperties.DeleteWithoutNotifier | owned_by_unique.hpp:213-217 | An object that is not a `dtor_notify_enabled` has no destroyed flag: after its deletion, access still gives the stale address and `==` is unchanged |
| OwnedByUniqueProperties.LessIsStrict | owned_by_unique.hpp:254-258 | Where it does not throw, `<` is irreflexive, asymmetric and total up to equality |
| OwnedByUniqueProperties.MovedFromIsAcquiredIsUndefined | owned_by_unique.hpp:154-157 | A moved-from default handle has lost the flag that `is_acquired()` dereferences |
| OwnedByUniqueProperties.MovedFromHandleIsInert | owned_by_unique.hpp:135-147 | With the flag checked first, a moved-from handle is null and unacquired, has use count 0, gives null on access, and `unique_ptr()` changes nothing |
| OwnedByUniqueWorld.World.constructor | owned_by_unique.hpp:67-78 | The world starts in the initial state |
| OwnedByUniqueWorld.World.Destruct | owned_by_unique.hpp:29-31 | The destructor, setting `isDestroyed`, equals `OwnedByUnique.Destruct` |
| OwnedByUniqueWorld.World.Release | owned_by_unique.hpp:163-181 | Freeing a reference and running the `Deleter` equals `OwnedByUnique.Release` |
| OwnedByUniqueWorld.World.PrivateCtor | owned_by_unique.hpp:219-225 | A new flag and a new group equal `OwnedByUnique.NewGroup` |
| OwnedByUniqueWorld.World.Default | owned_by_unique.hpp:80-84 | Equals `OwnedByUnique.Default` |
| OwnedByUniqueWorld.World.Wrap | owned_by_unique.hpp:86-96 | Equals `OwnedByUnique.Wrap` |
| OwnedByUniqueWorld.World.NewObject | owned_by_unique.hpp:92-96 | Equals `OwnedByUnique.NewObject` |
| OwnedByUniqueWorld.World.MakeOwned | owned_by_unique.hpp:260-276 | Equals `OwnedByUnique.MakeOwned` |
| OwnedByUniqueWorld.World.Copy | owned_by_unique.hpp:98-102 | Equals `OwnedByUnique.Copy` |
| OwnedByUniqueWorld.World.Move | owned_by_unique.hpp:67-78 | Equals `OwnedByUnique.Move` |
| OwnedByUniqueWorld.World.Assign | owned_by_unique.hpp:104-115 | Equals `OwnedByUnique.Assign` |
| OwnedByUniqueWorld.World.MoveAssign | owned_by_unique.hpp:67-78 | Equals `OwnedByUnique.MoveAssign` |
| OwnedByUniqueWorld.World.Drop | owned_by_unique.hpp:163-181 | Equals `OwnedByUnique.Drop` |
| OwnedByUniqueWorld.World.UniquePtr | owned_by_unique.hpp:135-147 | Returns and leaves what `OwnedByUnique.Acquire` describes |
| OwnedByUniqueWorld.World.DeleteObject | owned_by_unique.hpp:29-31 | Equals `OwnedByUnique.DeleteObject` |

## Left out

- Element types, upcasts and `ptr_static_cast` beyond a plain copy are not modelled. The `static_assert`s on derived types are compile-time checks, and addresses are abstract naturals, so an address adjustment made by a cast is not captured.
- Arrays are not modelled: the array `make_owned_by_unique` and the `delete[]` path of the `Deleter` (owned_by_unique.hpp:176-177, 278-286).
- Threads, atomic reference counts, and races between `unique_ptr()` and other handles are not modelled. Every operation is one atomic step.
- The `OWNED_POINTER_ASSERT_DTOR` and `OWNED_BY_UNIQUE_ASSERT_DTOR` debug asserts and the `__builtin_expect` hints are left out; they change no result.
- The Google Mock glue (inc/gmock_macros_for_unique_ptr.hpp) and the example program are not part of this model.
- Test features under the `csp` namespace that are absent from inc/owned_pointer.hpp, such as `get(std::nothrow)` and `is_expired_enabled`, are not modelled.
- Concrete address order between separate allocations is allocator-dependent. Addresses are abstract, so no order between allocations is assumed.
- A destructor of the pointee that itself creates, copies or drops handles is not modelled.
- The ptr_owned_by_unique.hpp `compare` subtracts pointers to unrelated objects (ptr_owned_by_unique.hpp:203), which C++ leaves undefined. It is modelled as the sign of the address order, as in the other headers.
- `OwnedByUnique.Get` assumes the static type lets the private constructor find a `dtor_notify_enabled` object's flag. A `dtor_notify_enabled` object seen through a type without a virtual destructor, or through a non-notify base, is not distinguished (owned_by_unique.hpp:195-217).
- `OwnedPointer.Wrap`, `OwnedByUnique.Wrap`, `OwnedPointer.DeleteObject` and `OwnedByUnique.DeleteObject` require that the caller's `unique_ptr` owns the object alone (`OwnedOutside`). A wrap of an object that another `unique_ptr` or an unacquired block still owns would lead to a double delete, which the model does not describe.
- Memory is never reused. A deleted object stays in `objects` with `alive` false, and `OwnedPointer.MakeOwned`, `OwnedByUnique.MakeOwned` and both `NewObject`s demand an address not in `objects`. So the model does not capture a new object placed at a freed object's address. There, C++ handles on the dead object would compare equal to handles on the new one (`OwnedPointer.Compare`, `OwnedPointer.Relate`, `OwnedByUnique.Equal`, `OwnedByUnique.Less`). Likewise `OwnedPointer.Expired` and `Destroyed` treat an address and its one object as the same thing.
- ptr_owned_by_unique.hpp has a narrower public interface than the other two headers, and the model does not restrict it. `OwnedPointer.Expired` and `OwnedPointer.Acquired` stand for `expired()` and `acquired()` of inc/owned_pointer.hpp and owned_pointer.hpp. ptr_owned_by_unique.hpp names the flag `is_acquired()` (ptr_owned_by_unique.hpp:197) and reads `deleted` only privately (ptr_owned_by_unique.hpp:226-230).
- ptr_owned_by_unique.hpp's operators take only `nullptr` or another handle as operand (ptr_owned_by_unique.hpp:290-348). So under that header, `OwnedPointer.Relate` and `OwnedPointer.RelateReversed` stand for a real operator only when the address is null or another handle's address. Raw-pointer and `unique_ptr` operands exist only in the other two headers.
- The unguarded accessors of ptr_owned_by_unique.hpp (lines 197, 211 and 228) are modelled as the guarded ones of the other headers; "## Findings" covers what they do on a moved-from handle.

## Findings

| source | as written | input that shows it | evidently intended | confidence | as-written member | corrected member |
|---|---|---|---|---|---|---|
| ptr_owned_by_unique.hpp:197 | `is_acquired()`, `get_pointer()` (line 211) and the deleted check (line 228) dereference the `shared_ptr` base unconditionally, but the compiler-generated move constructor leaves the source's base empty | a default `ptr_owned_by_unique` (which has a block) moved into another handle, followed by `is_acquired()`, `bool`, `get()` or `unique_ptr()` on the source | a moved-from handle behaves as a null handle, as the guarded accessors of inc/owned_pointer.hpp:218-226,251-257 do | medium, not executed | PtrOwnedByUniqueAccess.MovedFromHandleIsUndefined | PtrOwnedByUniqueAccess.MovedFromHandleIsInert |
| owned_by_unique.hpp:154-157 | `is_acquired()` dereferences `acquiredByUniquePtr`, which the implicit move constructor leaves null | a default `owned_by_unique` moved into another handle, followed by `is_acquired()` on the source | a moved-from handle reads `is_acquired()` false | medium, not executed | OwnedByUniqueProperties.MovedFromIsAcquiredIsUndefined | OwnedByUniqueProperties.MovedFromHandleIsInert |
