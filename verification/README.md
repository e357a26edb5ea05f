# tao::pool — a verified model

`tao::pool<T>` (the single header `pool.hpp`) is an object pool: `get()` hands
out a shared pointer to a reusable instance, taken from a list of resting
instances or newly created; when the last copy of that pointer is released, its
deleter returns the instance to the pool it is bound to, provided the pool
still exists and the validity hook accepts the instance. `erase_invalid()`
sweeps stale instances out of the resting list.

The model is sequential Dafny with the source's own shape:

- `wrappers.dfy` — `Option`.
- `resting_list.dfy` (module `RestingList`) — the resting list as a value: `Filter`
  (what `erase_invalid` keeps) and `LastValid` (where `get` finds its instance),
  with their laws: membership, order, idempotence, conservation, LIFO reuse.
- `pool.dfy` (module `ObjectPool`) — the heap model. `Instance` is an object of
  type `T` (identity = object identity; allocating one stands for `v_create`).
  `Handle` is a shared pointer's control block: its `item` and its deleter's
  weak pool reference `binding` (`None` for a default deleter). `Pool` holds
  `items` (`items_`, resting handles, most recent last) and `alive` (whether weak
  references to it still resolve). `Pool.Valid()` is the invariant the source
  relies on: every resting handle has an unattached deleter, and no handle rests
  twice. `push`, `pull`, `get` and `erase_invalid` are methods that update
  `items` in place, `get` and `erase_invalid` with the source's loops; each is
  proved against the functions of `RestingList`.
- `scenarios.dfy` (module `PoolScenarios`) — client code that strings the
  operations together: reuse identity, the borrow/release/borrow sequence, the
  all-invalid regime, releasing handles after the pool is gone, sweeping twice.

The validity hook `v_is_valid` is a parameter `isValid: Instance -> bool` of
each operation that consults it: it is the hook's answer at the time of the
call, since an instance's state (and so its validity) can change between calls.
The default hook is `DefaultIsValid`, which accepts everything.

## Model

| member | source | states |
|---|---|---|
| `RestingList.Filter` | pool.hpp:133-152 | the kept list is no longer than the input, every kept element is valid, and every kept element comes from the input |
| `RestingList.FilterAppend` | pool.hpp:142-151 | the sweep handles the list front to back piecewise: filtering a concatenation is the concatenation of the filtered parts |
| `RestingList.FilterMembership` | pool.hpp:144-150 | an element survives the sweep if and only if it was in the list and is valid |
| `RestingList.FilterKeepsAllValid` | pool.hpp:143-151 | a list whose elements are all valid is left unchanged by the sweep |
| `RestingList.FilterIdempotent` | pool.hpp:133-152 | sweeping twice gives the same list as sweeping once |
| `RestingList.FilterPartition` | pool.hpp:140-146 | every element is either kept or moved to the deferred-delete list: kept count plus discarded count equals the original length |
| `RestingList.FilterDistinct` | pool.hpp:146 | erasing elements from a list without duplicates leaves a list without duplicates |
| `RestingList.LastValid` | pool.hpp:119-128 | the index found is valid and every element after it is invalid; no index is found exactly when every element is invalid |
| `RestingList.LastValidIs` | pool.hpp:121-125 | a valid element with only invalid elements behind it is the one `get` stops at |
| `RestingList.PushThenGet` | pool.hpp:64-72 | after a valid element is appended, `get` takes exactly that element and the list returns to its value before the append (LIFO) |
| `RestingList.InvalidPushThenGet` | pool.hpp:121-126 | an invalid element at the tail is discarded, so `get` behaves as on the list without it |
| `ObjectPool.DefaultNeverDiscards` | pool.hpp:30-33 | with the default hook a sweep removes nothing and `get` reuses the most recently returned instance |
| `ObjectPool.InstancesOf` | pool.hpp:37 | the instance list has one entry per resting handle, the instance of that handle, in the same order |
| `ObjectPool.LastValidOfHandles` | pool.hpp:121-122 | searching resting handles from the tail with the hook applied to their instances finds the same position as searching the instances |
| `ObjectPool.InstancesOfFilter` | pool.hpp:143-151 | sweeping handles by their instances' validity and sweeping the instances themselves give the same instance list |
| `ObjectPool.Handle.constructor` | pool.hpp:44-48 | a handle holds its instance and the given binding (unattached for a default deleter) |
| `ObjectPool.Handle.Release` | pool.hpp:52-59 | when the bound pool is alive the effect is exactly that of `push` on it; when the handle is unattached or the pool is gone, nothing is modified |
| `ObjectPool.Pool.constructor` | pool.hpp:19 | a new pool is alive, has no resting instances and satisfies the invariant |
| `ObjectPool.Pool.Destroy` | pool.hpp:20 | after destruction weak references no longer resolve and the resting list is gone; its handles are unattached, so no push is triggered |
| `ObjectPool.Pool.Push` | pool.hpp:64-72 | a valid instance is appended at the tail under a fresh unattached handle; an invalid one leaves the list unchanged; the invariant is kept |
| `ObjectPool.Pool.Pull` | pool.hpp:76-85 | on a non-empty list the last handle is returned (unattached, no longer resting) and the list loses its last element; on an empty list nothing is returned and nothing changes |
| `ObjectPool.Pool.Attach` | pool.hpp:95-100 | the handle's deleter is bound to the given pool |
| `ObjectPool.Pool.Detach` | pool.hpp:104-109 | the handle's deleter is reset to unattached |
| `ObjectPool.Pool.Create` | pool.hpp:112-115 | a new handle to a new instance, bound to this pool; the resting list is not modified and does not contain the new instance |
| `ObjectPool.Pool.Get` | pool.hpp:119-128 | if some resting instance is valid, the returned handle is the one at `LastValid` of the old list and the list is cut back to just before it; otherwise a new instance is created and the list is empty; the result is bound to this pool and no longer rests |
| `ObjectPool.Pool.EraseInvalid` | pool.hpp:133-152 | the resting list becomes the old list filtered by validity, same handles in the same order, and the invariant is kept |
| `PoolScenarios.ReuseIdentity` | pool.hpp:119-128 | releasing a valid instance and borrowing right after returns the same instance and restores the resting list |
| `PoolScenarios.BorrowReleaseBorrow` | pool.hpp:119-128 | two borrows from an empty pool give distinct instances; after releasing both, the next two borrows return them most recent first |
| `PoolScenarios.AllInvalidRegime` | pool.hpp:64-72 | when the hook rejects everything, a release keeps nothing and the next borrow creates a new instance and leaves the list empty |
| `PoolScenarios.ReleaseAfterDestroy` | pool.hpp:52-59 | handles released after their pool is destroyed touch no pool |
| `PoolScenarios.SweepTwice` | pool.hpp:133-152 | a second sweep right after the first changes nothing |

## Left out

- The mutex (`mutex_`, the `lock_guard`s): every operation is modelled as one atomic step, so the concurrent "sweep conservation" property reduces to `FilterPartition` and the sequential contracts.
- Reference counting (`shared_ptr`, `weak_ptr`, `enable_shared_from_this`): a handle's release is an explicit call to `Handle.Release`, and that it happens exactly once, when the last copy goes away, is the runtime's job and is not modelled; a weak reference resolving is the bound pool's `alive` flag, and pool destruction is the explicit `Pool.Destroy`.
- The `deferred_delete` list of `erase_invalid`: it only postpones destructors until the lock is released; the discarded handles are simply dropped (their count is `FilterPartition`'s second term).
- Allocation failure in `push` (the `abort()` through `noexcept`) and exceptions from `v_create`: creation always succeeds with a new instance.
- The `std::get_deleter` lookup and `assert(d)` in `attach`/`detach`: the binding is a direct field of the handle, so the misuse case does not exist in the model.
- The deleted copy constructor and copy assignment and the virtual destructor: C++ language mechanics.
- The abstract factory `v_create` is `new Instance()`; the hook `v_is_valid` is a parameter of the operations that call it rather than a virtual member.
- ObjectPool.Pool.Get: its postcondition is stated over the resting handles (`LastValid(old(items), Keeps(isValid))`); the same statement over instances follows from `LastValidOfHandles` and `InstancesOfPrefix`.
