/** src/callback.rs: `Callback<T>`, which owns a Rust closure bound to
    JavaScript, and `CallbackMap`, a lock-guarded registry of callbacks keyed
    by their ids. */
module Callbacks {
  import opened Wrappers
  import Js
  import opened Bridge

  /** `callback::Error`. */
  datatype Error =
    | String(text: string)
    | JsValue(value: Js.JsValue)
    | LockError(message: string)
    | ClosureNotInitialized

  /** `Callback::default()` (src/callback.rs:99-109): id `id` (the fresh
      `CallbackId::new()`), a new empty slot and a null JS value, so the
      closure cannot be read yet. */
  function Default(h: Heap, id: Id): (r: Built)
    ensures GetId(r.callback) == id
    ensures IntoJs(r.callback) == Js.Null
    ensures |r.heap.slots| == |h.slots| + 1 && r.heap.slots[..|h.slots|] == h.slots
    ensures r.callback.slot == |h.slots|
    ensures Closure(r.heap, r.callback) == Err(ClosureNotInitialized)
    ensures Valid(h) ==> Valid(r.heap)
    ensures Live(r.heap, r.callback)
  {
    Empty(h, id)
  }

  /** `Callback::new(f)` (src/callback.rs:125-133): a default callback on
      which `set_closure(f)` runs. Its slot is fresh, so it is never
      poisoned, and the closure can be read back. */
  function New(h: Heap, id: Id, f: Js.NativeFn): (r: Built)
    ensures GetId(r.callback) == id
    ensures |r.heap.slots| == |h.slots| + 1 && r.heap.slots[..|h.slots|] == h.slots
    ensures r.callback.slot == |h.slots|
    ensures Closure(r.heap, r.callback).Ok?
    ensures Closure(r.heap, r.callback).value.body == f
    ensures Js.DerivedFrom(IntoJs(r.callback), Closure(r.heap, r.callback).value)
    ensures Valid(h) ==> Valid(r.heap)
    ensures Live(r.heap, r.callback)
  {
    var d := Default(h, id);
    var s := SetClosure(d.heap, d.callback, f);
    // The slot was just created unpoisoned, so `s` is never a panic.
    if s.Returned? then s.value else d
  }

  /** `get_id` of `AsCallback` (src/callback.rs:81-87). */
  function GetId(cb: Callback): Id
  {
    cb.id
  }

  /** `into_js`, `AsRef<JsValue>`, `AsRef<Function>` and `Into<JsValue>`
      (src/callback.rs:146-203): this instance's JS value, whatever view
      type it is cast to. */
  function IntoJs(cb: Callback): Js.JsValue
  {
    cb.js
  }

  /** `Clone` (src/callback.rs:89-97): the id and JS value are copied, the
      `Arc` of the slot is shared. */
  function Clone(cb: Callback): Callback
  {
    Callback(cb.id, cb.slot, cb.js)
  }

  /** `closure()` (src/callback.rs:155-172): the closure in the shared
      slot, `ClosureNotInitialized` for an empty slot, `LockError` for a
      poisoned one; it never panics and changes nothing. */
  function Closure(h: Heap, cb: Callback): (r: Result<Js.WasmClosure, Error>)
    requires cb.slot < |h.slots|
    ensures r == Err(LockError(PoisonedLock)) <==> h.slots[cb.slot].poisoned
    ensures r == Err(ClosureNotInitialized) <==>
      !h.slots[cb.slot].poisoned && h.slots[cb.slot].content.None?
    ensures r.Ok? ==> h.slots[cb.slot].content == Some(r.value)
    ensures !h.slots[cb.slot].poisoned && h.slots[cb.slot].content.Some? ==>
      r == Ok(h.slots[cb.slot].content.value)
  {
    match Look(h, cb)
    case Poisoned => Err(LockError(PoisonedLock))
    case Vacant => Err(ClosureNotInitialized)
    case Holding(c) => Ok(c)
  }

  /** Two `set_closure` calls: `closure()` yields the closure of the second,
      never the first, and the id stays (src/callback.rs:136-144, 155-172). */
  lemma LastWriteWins(h: Heap, cb: Callback, f1: Js.NativeFn, f2: Js.NativeFn)
    requires cb.slot < |h.slots| && !h.slots[cb.slot].poisoned
    ensures
      var s1 := SetClosure(h, cb, f1).value;
      var s2 := SetClosure(s1.heap, s1.callback, f2).value;
      var c1 := Closure(s1.heap, s1.callback).value;
      && Closure(s2.heap, s2.callback).Ok?
      && Closure(s2.heap, s2.callback).value.body == f2
      && Closure(s2.heap, s2.callback).value != c1
      && IntoJs(s2.callback) != IntoJs(s1.callback)
      && GetId(s2.callback) == GetId(cb)
  {
  }

  /** A clone shares the slot but keeps its own copy of the JS value: after
      `set_closure(f)` on `cb`, `closure()` through the clone sees the new
      closure while the clone's `into_js` still gives the old value, which
      is no longer the host function of the slot's closure
      (src/callback.rs:89-97, 136-151). */
  lemma CloneSharesSlotNotJs(h: Heap, cb: Callback, f: Js.NativeFn)
    requires Live(h, cb) && !h.slots[cb.slot].poisoned
    ensures
      var other := Clone(cb);
      var s := SetClosure(h, cb, f).value;
      && GetId(other) == GetId(s.callback)
      && Closure(s.heap, other) == Closure(s.heap, s.callback)
      && Closure(s.heap, other).Ok? && Closure(s.heap, other).value.body == f
      && Js.DerivedFrom(IntoJs(s.callback), Closure(s.heap, other).value)
      && IntoJs(other) == IntoJs(cb)
      && !Js.DerivedFrom(IntoJs(other), Closure(s.heap, other).value)
  {
  }

  /** A poisoned slot makes `closure()` report `LockError` through every
      clone, and makes `set_closure` panic (src/callback.rs:142, 157-170). */
  lemma PoisonedSlotReportsLockError(h: Heap, cb: Callback, f: Js.NativeFn)
    requires cb.slot < |h.slots| && h.slots[cb.slot].poisoned
    ensures Closure(h, Clone(cb)) == Err(LockError(PoisonedLock))
    ensures SetClosure(h, cb, f) == Panicked(UnwrapPoisoned)
  {
  }

  /** In a valid heap, `set_closure` on a slot that already holds a closure
      replaces it by a new one, distinct from the old: the old closure is
      released from the slot and this instance's JS value no longer refers
      to it (src/callback.rs:136-144). */
  lemma SetClosureReplacesOld(h: Heap, cb: Callback, f: Js.NativeFn)
    requires Valid(h) && cb.slot < |h.slots| && !h.slots[cb.slot].poisoned
    requires Closure(h, cb).Ok?
    ensures
      var prev := Closure(h, cb).value;
      var s := SetClosure(h, cb, f).value;
      && Valid(s.heap)
      && Closure(s.heap, s.callback).Ok?
      && Closure(s.heap, s.callback).value != prev
      && !Js.DerivedFrom(IntoJs(s.callback), prev)
  {
  }

  // ---------------------------------------------------------------------
  // CallbackMap
  // ---------------------------------------------------------------------

  /** One `Mutex<HashMap<CallbackId, Arc<dyn AsCallback>>>`. The entries
      are the callbacks themselves: `dyn AsCallback` only exposes `get_id`. */
  datatype Guarded = Guarded(entries: map<Id, Callback>, poisoned: bool)

  /** Every registry mutex allocated so far. */
  datatype Registry = Registry(cells: seq<Guarded>)

  /** `CallbackMap { inner: Arc<Mutex<…>> }`: the index of its mutex;
      `#[derive(Clone)]` shares it. */
  datatype CallbackMap = CallbackMap(cell: nat)

  /** The registry after a call on a map, and what the call returned. */
  datatype MapStep<+T> = MapStep(registry: Registry, result: Result<T, Error>)

  /** The entries of `m1` and `m2` agree on every key other than `key`. */
  ghost predicate AgreeExcept(m1: map<Id, Callback>, m2: map<Id, Callback>, key: Id)
  {
    forall k :: k != key ==>
      (k in m1 <==> k in m2) && (k in m1 ==> m1[k] == m2[k])
  }

  /** Only cell `c` of the registry differs between `s` and `s'`. */
  ghost predicate OthersUnchanged(s: Registry, s': Registry, c: nat)
  {
    |s'.cells| == |s.cells|
    && forall i :: 0 <= i < |s.cells| && i != c ==> s'.cells[i] == s.cells[i]
  }

  /** `CallbackMap::new()` (src/callback.rs:222-226): a fresh, empty,
      unpoisoned map shared with no other. */
  function NewMap(s: Registry): (r: (Registry, CallbackMap))
    ensures r.1.cell == |s.cells|
    ensures r.0.cells == s.cells + [Guarded(map[], false)]
  {
    (Registry(s.cells + [Guarded(map[], false)]), CallbackMap(|s.cells|))
  }

  /** A new map is empty: `inner()` finds no entries and `remove` of any id
      returns `None` without changing anything (src/callback.rs:222-231,
      249-255). */
  lemma NewMapIsEmpty(s: Registry, id: Id)
    ensures
      var (s1, m) := NewMap(s);
      && Inner(s1, m) == Returned(map[])
      && Remove(s1, m, id) == MapStep(s1, Ok(None))
  {
  }

  /** `inner()` (src/callback.rs:229-231): `lock().unwrap()`, which panics
      on a poisoned lock and otherwise gives access to the entries. */
  function Inner(s: Registry, m: CallbackMap): (r: Completion<map<Id, Callback>>)
    requires m.cell < |s.cells|
    ensures r.Panicked? <==> s.cells[m.cell].poisoned
    ensures r.Returned? ==> r.value == s.cells[m.cell].entries
  {
    var g := s.cells[m.cell];
    if g.poisoned then Panicked(UnwrapPoisoned) else Returned(g.entries)
  }

  /** `insert(callback)` (src/callback.rs:234-246): store `cb` under its own
      `get_id()`, replacing any entry under that key; a poisoned lock gives
      `LockError` and changes nothing. */
  function Insert(s: Registry, m: CallbackMap, cb: Callback): (r: MapStep<()>)
    requires m.cell < |s.cells|
    ensures OthersUnchanged(s, r.registry, m.cell)
    ensures s.cells[m.cell].poisoned ==> r == MapStep(s, Err(LockError(PoisonedLock)))
    ensures !s.cells[m.cell].poisoned ==>
      var after := r.registry.cells[m.cell];
      && r.result == Ok(())
      && !after.poisoned
      && GetId(cb) in after.entries && after.entries[GetId(cb)] == cb
      && AgreeExcept(s.cells[m.cell].entries, after.entries, GetId(cb))
  {
    var g := s.cells[m.cell];
    if g.poisoned then MapStep(s, Err(LockError(PoisonedLock)))
    else
      var id := GetId(cb);
      MapStep(Registry(s.cells[m.cell := g.(entries := g.entries[id := cb])]), Ok(()))
  }

  /** `remove(id)` (src/callback.rs:249-255): take out and return the entry
      under `id`, or `None` when there is none; a poisoned lock gives
      `LockError` and changes nothing. */
  function Remove(s: Registry, m: CallbackMap, id: Id): (r: MapStep<Option<Callback>>)
    requires m.cell < |s.cells|
    ensures OthersUnchanged(s, r.registry, m.cell)
    ensures s.cells[m.cell].poisoned ==> r == MapStep(s, Err(LockError(PoisonedLock)))
    ensures !s.cells[m.cell].poisoned ==>
      var before := s.cells[m.cell].entries;
      var after := r.registry.cells[m.cell];
      && !after.poisoned
      && id !in after.entries
      && AgreeExcept(before, after.entries, id)
      && (id in before ==> r.result == Ok(Some(before[id])))
      && (id !in before ==> r.result == Ok(None))
  {
    var g := s.cells[m.cell];
    if g.poisoned then MapStep(s, Err(LockError(PoisonedLock)))
    else if id in g.entries then
      MapStep(Registry(s.cells[m.cell := g.(entries := g.entries - {id})]), Ok(Some(g.entries[id])))
    else MapStep(s, Ok(None))
  }

  /** A callback inserted into a map is removed again under its own id,
      and if no entry held that id before, the map is back to what it was
      (src/callback.rs:234-255). */
  lemma InsertThenRemove(s: Registry, m: CallbackMap, cb: Callback)
    requires m.cell < |s.cells| && !s.cells[m.cell].poisoned
    ensures
      var s1 := Insert(s, m, cb).registry;
      var s2 := Remove(s1, m, GetId(cb));
      && s2.result == Ok(Some(cb))
      && (GetId(cb) !in s.cells[m.cell].entries ==> s2.registry == s)
  {
    var s1 := Insert(s, m, cb).registry;
    var s2 := Remove(s1, m, GetId(cb));
    if GetId(cb) !in s.cells[m.cell].entries {
      assert s2.registry.cells[m.cell].entries == s.cells[m.cell].entries;
      assert s2.registry.cells == s.cells;
    }
  }

  /** Inserting under an id already present replaces the earlier callback:
      a later `remove` returns the second one (src/callback.rs:238-243). */
  lemma InsertOverwrites(s: Registry, m: CallbackMap, a: Callback, b: Callback)
    requires m.cell < |s.cells| && !s.cells[m.cell].poisoned
    requires GetId(a) == GetId(b)
    ensures
      var s1 := Insert(s, m, a).registry;
      var s2 := Insert(s1, m, b).registry;
      Remove(s2, m, GetId(a)).result == Ok(Some(b))
  {
  }

  /** Two callbacks under distinct ids: removing the first returns it and
      leaves the second in place; removing the first again returns `None`,
      not an error (src/callback.rs:249-255). */
  lemma RemoveLeavesOthers(s: Registry, m: CallbackMap, b1: Callback, b2: Callback)
    requires m.cell < |s.cells| && !s.cells[m.cell].poisoned
    requires GetId(b1) != GetId(b2)
    ensures
      var s1 := Insert(Insert(s, m, b1).registry, m, b2).registry;
      var r1 := Remove(s1, m, GetId(b1));
      var r2 := Remove(r1.registry, m, GetId(b1));
      && r1.result == Ok(Some(b1))
      && Inner(r1.registry, m).Returned?
      && GetId(b2) in Inner(r1.registry, m).value
      && Inner(r1.registry, m).value[GetId(b2)] == b2
      && r2.result == Ok(None)
      && r2.registry == r1.registry
  {
  }

  /** Clones of a `CallbackMap` share one map: an entry inserted through
      one is removed through the other (src/callback.rs:215-218). */
  lemma ClonedMapsShareEntries(s: Registry, m: CallbackMap, cb: Callback)
    requires m.cell < |s.cells| && !s.cells[m.cell].poisoned
    ensures
      var other := CallbackMap(m.cell);
      Remove(Insert(s, m, cb).registry, other, GetId(cb)).result == Ok(Some(cb))
  {
  }
}
