/** The state behind `Callback<T>`, which src/callback.rs and src/listener.rs
    declare identically: an immutable id, a shared closure slot
    `Arc<Mutex<Option<Arc<Closure<T>>>>>` and a per-instance JS value.

    The slots live in a store (`Heap.slots`); an instance holds the index of
    its slot, so clones share the slot while each keeps its own copy of the
    JS value. `Heap.closures` counts the `Closure::new` calls so far, which
    makes every new closure, and the JS function derived from it, fresh. */
module Bridge {
  import opened Wrappers
  import opened Js

  /** Rust's `u64`. */
  newtype u64 = x: int | 0 <= x < 0x1_0000_0000_0000_0000

  /** `workflow_core::id::Id`, a `u64`-based token. */
  type Id = u64

  /** One `Mutex<Option<Arc<Closure<T>>>>`. */
  datatype Slot = Slot(content: Option<WasmClosure>, poisoned: bool)

  /** Every slot allocated so far, and the number of closures allocated. */
  datatype Heap = Heap(slots: seq<Slot>, closures: nat)

  /** One `Callback<T>` value: `id`, the index of its `closure` slot and its
      `closure_js_value`. */
  datatype Callback = Callback(id: Id, slot: nat, js: JsValue)

  /** The heap after building or updating a callback, and that callback. */
  datatype Built = Built(heap: Heap, callback: Callback)

  /** Every closure stored in a slot was allocated before the counter. */
  ghost predicate Valid(h: Heap)
  {
    forall i :: 0 <= i < |h.slots| && h.slots[i].content.Some? ==>
      h.slots[i].content.value.serial < h.closures
  }

  /** `cb` is a callback of `h`: its slot exists and its JS value was
      derived from a closure allocated in `h` (or is `null`). */
  ghost predicate Live(h: Heap, cb: Callback)
  {
    cb.slot < |h.slots| && IssuedBefore(cb.js, h.closures)
  }

  /** The closure the next `Closure::new(f)` allocates. */
  function NextClosure(h: Heap, f: NativeFn): WasmClosure
  {
    WasmClosure(h.closures, f)
  }

  /** A fresh callback with an empty, unpoisoned slot and a null JS value
      (`Callback::default`, and listener's `Callback::new`). */
  function Empty(h: Heap, id: Id): (r: Built)
    ensures r.callback.id == id && r.callback.js == Null
    ensures r.callback.slot == |h.slots|
    ensures r.heap.slots == h.slots + [Slot(None, false)]
    ensures r.heap.closures == h.closures
    ensures Valid(h) ==> Valid(r.heap)
    ensures Live(r.heap, r.callback)
  {
    Built(Heap(h.slots + [Slot(None, false)], h.closures), Callback(id, |h.slots|, Null))
  }

  /** `set_closure` (src/callback.rs:136-144, src/listener.rs:98-106):
      allocate `Closure::new(f)`, store it in the shared slot through
      `lock().unwrap()` and make its host function this instance's JS value.
      On a poisoned slot the unwrap panics and nothing changes. */
  function SetClosure(h: Heap, cb: Callback, f: NativeFn): (r: Completion<Built>)
    requires cb.slot < |h.slots|
    ensures r.Panicked? <==> h.slots[cb.slot].poisoned
    ensures r.Panicked? ==> r.message == UnwrapPoisoned
    ensures r.Returned? ==>
      var c := NextClosure(h, f);
      && r.value.callback.id == cb.id
      && r.value.callback.slot == cb.slot
      && |r.value.heap.slots| == |h.slots|
      && r.value.heap.slots[cb.slot] == Slot(Some(c), false)
      && (forall i :: 0 <= i < |h.slots| && i != cb.slot ==> r.value.heap.slots[i] == h.slots[i])
      && DerivedFrom(r.value.callback.js, c)
      && !IssuedBefore(r.value.callback.js, h.closures)
      && r.value.heap.closures == h.closures + 1
    ensures r.Returned? && Valid(h) ==> Valid(r.value.heap)
  {
    if h.slots[cb.slot].poisoned then Panicked(UnwrapPoisoned)
    else
      var c := NextClosure(h, f);
      Returned(Built(Heap(h.slots[cb.slot := Slot(Some(c), false)], h.closures + 1),
                     cb.(js := FunctionOf(c))))
  }

  /** What `self.closure.lock()` followed by `as_ref()` finds. */
  datatype Lookup = Poisoned | Vacant | Holding(closure: WasmClosure)

  /** Lock the slot of `cb` and look inside; nothing changes. */
  function Look(h: Heap, cb: Callback): (r: Lookup)
    requires cb.slot < |h.slots|
    ensures r == Poisoned <==> h.slots[cb.slot].poisoned
    ensures r == Vacant <==> !h.slots[cb.slot].poisoned && h.slots[cb.slot].content.None?
    ensures r.Holding? ==> h.slots[cb.slot].content == Some(r.closure)
  {
    var slot := h.slots[cb.slot];
    if slot.poisoned then Poisoned
    else match slot.content
      case None => Vacant
      case Some(c) => Holding(c)
  }
}
