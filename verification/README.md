# workflow-wasm core, modelled in Dafny

This project models the three small state machines in `workflow-wasm` that sit
under the wasm-bindgen glue:

- **Timer handles** (`src/timers.rs`). `set_interval` and `set_timeout` wrap a
  host timer id in an `IntervalHandle` or `TimeoutHandle`. The id sits in a
  shared `Arc<Mutex<u32>>` cell, where `0` means "cleared or never set".
  `clear_interval` and `clear_timeout` cancel the timer and reset the cell.
  `Drop` cancels the timer when the cell is set.
- **The closure bridge `Callback<T>`** (`src/callback.rs`, declared again in
  `src/listener.rs`). It has an immutable id, a shared slot holding the
  `Option<Arc<Closure<T>>>`, and its own copy of the closure's JS value.
- **`CallbackMap`** (`src/callback.rs`). A mutex-guarded `HashMap` from
  callback id to callback.

## How the model is built

- **Shared cells are references into a store.** Every `Arc<Mutex<…>>` becomes
  an index into a store that the operations take and return: `Timers.World.cells`,
  `Bridge.Heap.slots` and `Callbacks.Registry.cells`. A `Clone` copies the
  `Arc`, so a clone holds the same index. That is how the model shows
  aliasing: a change made through one clone is visible through every other.
  Everything is a pure function or a method without `modifies`, so every
  contract speaks about results. This replaces the heap objects of the Rust
  code with explicit indices.
- **Both kinds of timer handle index one store.** `IntervalHandle` and
  `TimeoutHandle` each wrap an `Arc<Mutex<u32>>` of the same type, so their
  cells share `Timers.World.cells`. Only `SetInterval` and `SetTimeout` create
  handles, and each gets a fresh cell. So in any world they build, an interval
  handle never names a timeout's cell. The types alone do not rule that out:
  an arbitrary starting world may hold an `IntervalHandle` whose index is a
  timeout's cell, and the operations then treat it as an interval.
- **A mutex is a value plus a `poisoned` flag.** `lock().unwrap()` on a
  poisoned mutex ends in `Wrappers.Completion.Panicked`. When the timer
  `Drop` panics through `expect`, it does so while holding the lock, so the
  cell becomes poisoned.
- **The host is an oracle** (module `Host`). It holds three things:
  - the active timers, keyed by id;
  - a log of every cancel call, recording which host function was used;
  - a mode that makes every host call succeed or throw a given exception.

  Following the "Timers" section of the WHATWG HTML Living Standard:
  - Intervals and timeouts share one map of active timers.
  - `clearInterval` and `clearTimeout` both remove an id from that map.
  - The id a host issues is positive and not currently active. This is stated
    as the explicit assumption `Host.MayIssue`, and it is what makes the
    sentinel `0` safe.
- **Closures and JS values are opaque tokens** (module `Js`):
  - `NativeFn` stands for the Rust closure.
  - `WasmClosure` stands for one `Closure::new` allocation. A counter in
    `Bridge.Heap` makes each allocation fresh.
  - `Js.DerivedFrom` relates a JS function to the allocation it came from.
- **`callback.rs` and `listener.rs` share one model.** They declare the same
  `Callback<T>` struct and the same `set_closure`, so both are modelled once
  in module `Bridge`. Modules `Callbacks` and `Listeners` add each file's own
  error type and its constructors and accessors.
- **Ids are parameters.** `CallbackId::new()` / `Id::new()` is not part of this
  model. The fresh id is passed in.

### Where the code departs from the intended design (the model follows the code)

- **`clear_interval` cancels through `clearTimeout`** (src/timers.rs:87).
  `Timers.ClearInterval` logs `ClearTimeoutFn`. Under the HTML standard both
  clear functions act on the same map of active timers, so the interval is
  still cancelled.
- **`Drop` panics when the host's clear throws** (src/timers.rs:58, 72). A scoped
  handle's drop is meant never to fail loudly. The model ends
  `Timers.DropCell` in `Panicked` and poisons the cell. After that, every clone
  panics on its next clear or drop (`TimerLifetimes.PanickedDropPoisonsClones`).
- **`Drop` does not reset the cell.** Every clone that is dropped cancels the
  same id again. When no drop panics, `TimerLifetimes.DropInOrder` issues one
  cancel per set handle, clones included. An explicit clear through a clone of an already dropped
  handle still succeeds (`TimerLifetimes.DroppedCloneStillClears`). The intended
  design treats clear-after-drop as an invalid-handle error.
- **A stale clone can cancel a reused id.** After a drop, the id is no longer
  active, and the host may issue it again to a new timer. Dropping a remaining
  clone of the first handle then cancels the new timer, while the new handle
  still holds the id (`TimerLifetimes.StaleCloneCancelsReusedId`).
- **`CallbackMap::insert` overwrites silently** when an entry already holds the
  same id (`Callbacks.InsertOverwrites`).
- **A clone keeps its old JS value.** The intended design has clones share
  the host value. In the code, `set_closure` changes the JS value of the instance
  it is called on only. Every other clone keeps its old value, which no longer
  belongs to the closure in the shared slot (`Callbacks.CloneSharesSlotNotJs`).

## Model

| member | source | states |
|---|---|---|
| `Host.Register` | src/timers.rs:34-41 | Host `setInterval`/`setTimeout`. When the host accepts, the timer is registered under the issued id and only that key is added. When the host throws, its exception is returned and the host is unchanged. |
| `Host.Cancel` | src/timers.rs:37-44 | Host `clearInterval`/`clearTimeout`. Every call is appended to the cancel log with its primitive. When the host accepts, the id is no longer active. When it throws, the active timers are unchanged and the exception is returned. |
| `Timers.SetInterval` | src/timers.rs:78-81 | Succeeds exactly when the host accepts. Success gives a handle on a fresh cell holding exactly the issued id, and a repeating host timer running the closure's JS function. Every other active timer, the cancel log and the host mode are unchanged. Failure gives `Error::JsValue` with the host's exception, and no cell or handle is created. |
| `Timers.SetTimeout` | src/timers.rs:96-99 | The same for a one-shot timer: on success only the issued id is added, and every other active timer and the host mode are unchanged. |
| `Timers.ClearCell` | src/timers.rs:84-111 | On a poisoned cell: panics. On a cleared cell: returns the invalid-handle error and makes no host call. On a set cell: exactly one `clearTimeout` of the id. When that succeeds, the cell is reset to `0` and `Ok` is returned. When it throws, the `JsValue` error is returned and the cell keeps its id. Other cells are unchanged. |
| `Timers.ClearInterval` | src/timers.rs:84-93 | Returns `InvalidIntervalHandle` iff the cell is unpoisoned and holds `0`. Returns `Ok` iff the cell is unpoisoned and set and the host accepts, and then the cell becomes `0`. The only host call it can make is `clearTimeout` of the cell's id. |
| `Timers.ClearTimeout` | src/timers.rs:102-111 | Returns `InvalidTimeoutHandle` iff the cell is unpoisoned and holds `0`. Returns `Ok` iff the cell is unpoisoned and set and the host accepts, and then the cell becomes `0`. The only host call it can make is `clearTimeout` of the cell's id. |
| `Timers.DropCell` | src/timers.rs:53-75 | Issues a host cancel iff the cell is set and unpoisoned, and never changes the cell's id. A host failure is a panic with the `expect` message followed by `": "` and the exception's Debug text, and it poisons the cell. A cleared cell is a no-op. |
| `Timers.DropInterval` | src/timers.rs:53-61 | Panics iff the cell is poisoned, or it is set and the host throws. Otherwise it issues nothing, or one `clearInterval` of the cell's id. The id is unchanged. |
| `Timers.DropTimeout` | src/timers.rs:67-75 | The same, with `clearTimeout`. |
| `TimerLifetimes.ClearIntervalTwiceFails` | src/timers.rs:84-93 | After a successful clear, a clear through any clone returns `InvalidIntervalHandle` and changes nothing. |
| `TimerLifetimes.ClearTimeoutTwiceFails` | src/timers.rs:102-111 | After a successful clear, a clear through any clone returns `InvalidTimeoutHandle` and changes nothing. |
| `TimerLifetimes.ClearedIntervalDropsQuietly` | src/timers.rs:53-61 | After an explicit clear, dropping any clone makes no host call and changes nothing. |
| `TimerLifetimes.ClearedTimeoutDropsQuietly` | src/timers.rs:67-75 | After an explicit clear, dropping any clone makes no host call and changes nothing. |
| `TimerLifetimes.FailedClearCanBeRetried` | src/timers.rs:84-89 | A clear whose host call throws returns `JsValue(exception)` and leaves the cell's id in place. A later clear with an accepting host succeeds. |
| `TimerLifetimes.DroppedCloneStillClears` | src/timers.rs:84-93 | Dropping a set handle does not reset the shared cell. A clear through a clone then succeeds and cancels the same id a second time. |
| `TimerLifetimes.PanickedDropPoisonsClones` | src/timers.rs:55-58 | A drop whose host call throws panics with "Unable to clear interval: " followed by the exception's Debug text. Afterwards, clear and drop through any clone panic at `lock().unwrap()`. |
| `TimerLifetimes.StaleCloneCancelsReusedId` | src/timers.rs:53-61 | After a handle is dropped, the host may reissue its id to a new interval. Dropping a stale clone of the first handle then makes the id inactive, although the new handle's cell still holds it. |
| `TimerLifetimes.IntervalReleasedOnDrop` | src/timers.rs:78-81 | Setting an interval and dropping its handle leaves the host's active timers as before, after exactly one `clearInterval(issued)`. |
| `TimerLifetimes.TimeoutCancelledOnce` | src/timers.rs:96-111 | Set, clear, then drop a timeout: the active timers end as before, and exactly one cancel call is made, the explicit `clearTimeout`. |
| `TimerLifetimes.DropInOrder` | src/timers.rs:53-61 | Dropping a sequence of interval handles in order returns iff no handle's drop would panic. When it returns, every cell is unchanged, the cancel log grows by `DropCalls` and the dropped ids are inactive. When no drop panics and every cell is set, the log grows by exactly one call per handle, clones included. |
| `TimerLifetimes.DropCallsCount` | src/timers.rs:56-58 | The cancel calls that dropping N handles issues when no drop panics (`DropCalls`) number exactly N when every cell is set, clones included. |
| `Bridge.Empty` | src/callback.rs:102-108 | A fresh callback with the given id, a new empty unpoisoned slot appended to the heap and a null JS value. Earlier slots are untouched. |
| `Bridge.SetClosure` | src/callback.rs:136-144 | Panics iff the slot is poisoned. Otherwise the shared slot holds the newly allocated closure of `f`, with last write winning. This instance's JS value is derived from that closure and is fresh. Id, slot index and every other slot are unchanged. |
| `Bridge.Look` | src/callback.rs:157-167 | Reports a poisoned lock iff the slot is poisoned, and an empty slot iff it is unpoisoned and `None`. Otherwise it reports the slot's closure. |
| `Callbacks.Default` | src/callback.rs:99-109 | Has the given id and a null JS value, and `closure()` on it returns `ClosureNotInitialized`. |
| `Callbacks.New` | src/callback.rs:125-133 | Has the given id, and `closure()` succeeds with a closure wrapping `f`. Its JS value is derived from that closure. |
| `Callbacks.Closure` | src/callback.rs:155-172 | Returns `LockError` iff the slot is poisoned, and `ClosureNotInitialized` iff it is empty. On an unpoisoned slot holding a closure, it returns exactly that closure. It never panics. |
| `Callbacks.LastWriteWins` | src/callback.rs:136-144 | After `set_closure(f1)` then `set_closure(f2)`, `closure()` yields a closure of `f2` that is not the `f1` closure. The JS value changes, and `get_id` does not. |
| `Callbacks.CloneSharesSlotNotJs` | src/callback.rs:89-97 | A clone has the same id and shares the slot. After `set_closure` on the original, `closure()` through the clone sees the new closure. The clone's `into_js` still gives the old value, which is not derived from that closure. |
| `Callbacks.PoisonedSlotReportsLockError` | src/callback.rs:168-170 | On a poisoned slot, `closure()` through any clone returns `LockError`, and `set_closure` panics at `unwrap`. |
| `Callbacks.SetClosureReplacesOld` | src/callback.rs:136-144 | In a valid heap (every stored closure allocated before the counter), `set_closure` on a slot that holds a closure replaces it with a different one. The instance's new JS value is not derived from the old closure, and the heap stays valid. |
| `Callbacks.NewMap` | src/callback.rs:222-226 | A new, empty, unpoisoned map on a fresh cell. |
| `Callbacks.NewMapIsEmpty` | src/callback.rs:222-255 | On a new map, `inner()` finds no entries, and `remove` of any id returns `None` and changes nothing. |
| `Callbacks.Inner` | src/callback.rs:229-231 | Panics iff the lock is poisoned. Otherwise it gives the map's entries. |
| `Callbacks.Insert` | src/callback.rs:234-246 | On a poisoned lock: `LockError`, with the registry unchanged. Otherwise it returns `Ok`, and the entry under the callback's own `get_id()` is that callback, overwriting any earlier one. All other keys and all other maps are unchanged. |
| `Callbacks.Remove` | src/callback.rs:249-255 | On a poisoned lock: `LockError`, with the registry unchanged. Otherwise: `Some(entry)` when the id is present, `None` when it is absent. The id is absent afterwards, and all other keys and maps are unchanged. |
| `Callbacks.InsertThenRemove` | src/callback.rs:234-255 | Removing a just-inserted callback by its id returns it. If the id was new, the registry is back to what it was. |
| `Callbacks.InsertOverwrites` | src/callback.rs:238-243 | Inserting two callbacks with the same id keeps the second. |
| `Callbacks.RemoveLeavesOthers` | src/callback.rs:249-255 | With two callbacks under distinct ids, removing the first returns it and leaves the second retrievable. A second removal returns `None` and changes nothing. |
| `Callbacks.ClonedMapsShareEntries` | src/callback.rs:215-218 | An entry inserted through one clone of a map is removed through another. |
| `Listeners.New` | src/listener.rs:81-87 | Has the given id and a null JS value, and `closure()` on it returns `ClosureNotIntialized`. |
| `Listeners.WithClosure` | src/listener.rs:89-96 | Has the given id, and `closure()` succeeds with a closure wrapping `f`. Its JS value is derived from that closure. |
| `Listeners.Closure` | src/listener.rs:114-131 | Returns `LockError` iff the slot is poisoned, and `ClosureNotIntialized` iff it is empty. On an unpoisoned slot holding a closure, it returns exactly that closure. |
| `Listeners.SetClosureLastWriteWins` | src/listener.rs:98-106 | After two `set_closure` calls, `closure()` yields a closure of the second that is not the first. The JS value is derived from it, and `get_id` is unchanged. |
| `Listeners.CloneSharesSlotNotJs` | src/listener.rs:67-75 | After `set_closure` on the original, a clone sees the new closure but keeps its own old JS value, which differs from the original's new one. |

`GetId`, `IntoJs` and `Clone` (in `Callbacks` and in `Listeners`) and
`CloneInterval`/`CloneTimeout` only return a field or their argument.
`Timers.ExpectMessage` only spells out the panic text of Rust's
`Result::expect`: the message, then `": "` and the error's Debug text. The
lemmas and the `Timers.DropCell` row above state what they mean.

## Left out

- Firing of timers, and calls into closures. A closure is identified by the
  Rust closure it wraps (`WasmClosure.body`). Invoking it is not modelled.
- Threads and interleavings. Each mutex is a sequential cell with a poison
  flag. Poisoning from panics elsewhere in the program is an input (any
  starting state may hold poisoned cells). The lifetime of the guard that
  `inner()` returns is not modelled.
- Reclaiming memory when the last `Arc` goes. Dropping a `Callback`, dropping
  the last owner of a `Closure` (which invalidates its JS function), and
  dropping a `CallbackMap` are not modelled.
- wasm-bindgen conversions. The unchecked casts in `into_js`/`as_ref`/`into`
  return the same value in the model. Converting host numbers to `u32` is not
  modelled. The `Display`/`From` conversions of the error types are not
  modelled, except that `LockError` carries the poisoned-lock message.
  `Error::String` is never produced by the modelled code.
- `CallbackId::new()` / `Id::new()` are not part of this model. Fresh ids are
  parameters.
- Timers.SetInterval and Timers.SetTimeout: only host replies that satisfy
  `Host.MayIssue` are considered (a positive id that is not active). The HTML
  standard guarantees this, so a host issuing `0` or an active id is not
  modelled.
- Js.Debug: the Debug text of a JS exception is abstracted to
  the exception's kind (`JsValue(null)`, `JsValue(Function)`,
  `JsValue(Object)` from `Js.Debug`). The host's rendering of an object is
  not modelled.
- Callbacks.Insert: `insert` accepts any value implementing `AsCallback`.
  The model stores `Bridge.Callback` values only. The map's behaviour depends
  only on `get_id()`, so other implementors behave the same.
- TimerLifetimes.DropInOrder: stops at the first drop that panics. Rust
  would keep dropping the remaining elements while unwinding, and abort on a
  second panic. That continuation is not modelled.
- The procedural macro (`macros/src/lib.rs`), the reflection helpers
  (`src/utils.rs`), the panic and log hooks (`src/panic.rs`, `src/logs.rs`)
  and the re-exports (`src/prelude.rs`). They are adapters with no state of
  their own.
