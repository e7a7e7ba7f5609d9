/** src/listener.rs: the older `Callback<T>`, with the same state and the
    same `set_closure` as src/callback.rs (both are `Bridge`), its own error
    type and the `Listener` id trait. */
module Listeners {
  import opened Wrappers
  import Js
  import opened Bridge

  /** `listener::Error`; `ClosureNotIntialized` keeps the source's spelling. */
  datatype Error =
    | String(text: string)
    | JsValue(value: Js.JsValue)
    | LockError(message: string)
    | ClosureNotIntialized

  /** `Callback::new()` (src/listener.rs:81-87): id `id` (the fresh
      `Id::new()`), a new empty slot and a null JS value, so the closure
      cannot be read yet. */
  function New(h: Heap, id: Id): (r: Built)
    ensures |r.heap.slots| == |h.slots| + 1 && r.heap.slots[..|h.slots|] == h.slots
    ensures r.callback.slot == |h.slots|
    ensures GetId(r.callback) == id
    ensures IntoJs(r.callback) == Js.Null
    ensures Closure(r.heap, r.callback) == Err(ClosureNotIntialized)
    ensures Valid(h) ==> Valid(r.heap)
    ensures Live(r.heap, r.callback)
  {
    Empty(h, id)
  }

  /** `with_closure(f)` (src/listener.rs:89-96): `new()` followed by
      `set_closure(f)`; the fresh slot cannot be poisoned, so the closure
      can be read back. */
  function WithClosure(h: Heap, id: Id, f: Js.NativeFn): (r: Built)
    ensures |r.heap.slots| == |h.slots| + 1 && r.heap.slots[..|h.slots|] == h.slots
    ensures r.callback.slot == |h.slots|
    ensures GetId(r.callback) == id
    ensures Closure(r.heap, r.callback).Ok?
    ensures Closure(r.heap, r.callback).value.body == f
    ensures Js.DerivedFrom(IntoJs(r.callback), Closure(r.heap, r.callback).value)
    ensures Valid(h) ==> Valid(r.heap)
    ensures Live(r.heap, r.callback)
  {
    var d := New(h, id);
    var s := SetClosure(d.heap, d.callback, f);
    // The slot was just created unpoisoned, so `s` is never a panic.
    if s.Returned? then s.value else d
  }

  /** `get_id` of `Listener` (src/listener.rs:58-64). */
  function GetId(cb: Callback): Id
  {
    cb.id
  }

  /** `into_js` (src/listener.rs:108-112): this instance's JS value. */
  function IntoJs(cb: Callback): Js.JsValue
  {
    cb.js
  }

  /** `Clone` (src/listener.rs:67-75): copies id and JS value, shares the
      slot. */
  function Clone(cb: Callback): Callback
  {
    Callback(cb.id, cb.slot, cb.js)
  }

  /** `closure()` (src/listener.rs:114-131): the closure in the shared
      slot, `ClosureNotIntialized` for an empty slot, `LockError` for a
      poisoned one; it never panics and changes nothing. */
  function Closure(h: Heap, cb: Callback): (r: Result<Js.WasmClosure, Error>)
    requires cb.slot < |h.slots|
    ensures r == Err(LockError(PoisonedLock)) <==> h.slots[cb.slot].poisoned
    ensures r == Err(ClosureNotIntialized) <==>
      !h.slots[cb.slot].poisoned && h.slots[cb.slot].content.None?
    ensures r.Ok? ==> h.slots[cb.slot].content == Some(r.value)
    ensures !h.slots[cb.slot].poisoned && h.slots[cb.slot].content.Some? ==>
      r == Ok(h.slots[cb.slot].content.value)
  {
    match Look(h, cb)
    case Poisoned => Err(LockError(PoisonedLock))
    case Vacant => Err(ClosureNotIntialized)
    case Holding(c) => Ok(c)
  }

  /** `set_closure` (src/listener.rs:98-106) is last-write-wins on the
      slot, refreshes this instance's JS value and keeps `get_id()`. */
  lemma SetClosureLastWriteWins(h: Heap, cb: Callback, f1: Js.NativeFn, f2: Js.NativeFn)
    requires cb.slot < |h.slots| && !h.slots[cb.slot].poisoned
    ensures
      var s1 := SetClosure(h, cb, f1).value;
      var s2 := SetClosure(s1.heap, s1.callback, f2).value;
      && Closure(s2.heap, s2.callback).Ok?
      && Closure(s2.heap, s2.callback).value.body == f2
      && Closure(s2.heap, s2.callback).value != Closure(s1.heap, s1.callback).value
      && Js.DerivedFrom(IntoJs(s2.callback), Closure(s2.heap, s2.callback).value)
      && GetId(s2.callback) == GetId(cb)
  {
  }

  /** Clones share the slot but each keeps its own JS value
      (src/listener.rs:67-75, 98-106). */
  lemma CloneSharesSlotNotJs(h: Heap, cb: Callback, f: Js.NativeFn)
    requires Live(h, cb) && !h.slots[cb.slot].poisoned
    ensures
      var other := Clone(cb);
      var s := SetClosure(h, cb, f).value;
      && Closure(s.heap, other) == Closure(s.heap, s.callback)
      && Closure(s.heap, other).Ok? && Closure(s.heap, other).value.body == f
      && IntoJs(other) == IntoJs(cb)
      && IntoJs(other) != IntoJs(s.callback)
  {
  }
}
