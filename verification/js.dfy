/** The wasm-bindgen values the core handles, as opaque tokens. */
module Js {

  /** Rust's `u32`. */
  newtype u32 = x: int | 0 <= x < 0x1_0000_0000

  /** A Rust closure `F` handed to the bridge; only its identity matters. */
  datatype NativeFn = NativeFn(tag: nat)

  /** One `wasm_bindgen::closure::Closure<T>` allocation wrapping `body`.
      `serial` tells allocations apart: two `Closure::new` calls on the same
      Rust closure give two different host functions. */
  datatype WasmClosure = WasmClosure(serial: nat, body: NativeFn)

  /** A JavaScript value as native code sees it: `null`, the host function
      object behind one closure allocation, or any other host value (an
      exception object, say). */
  datatype JsValue = Null | FunctionRef(serial: nat) | Other(handle: nat)

  /** `closure.as_ref()`: the host function backed by the allocation `c`. */
  function FunctionOf(c: WasmClosure): JsValue
  {
    FunctionRef(c.serial)
  }

  /** Freshness relation: the JS value `v` was derived from the closure `c`. */
  predicate DerivedFrom(v: JsValue, c: WasmClosure)
  {
    v == FunctionOf(c)
  }

  /** The JS value `v` denotes a closure allocated before the counter reached
      `count` (or denotes no closure at all). */
  predicate IssuedBefore(v: JsValue, count: nat)
  {
    v.FunctionRef? ==> v.serial < count
  }

  /** The `{:?}` (Debug) text of a JS value, `JsValue(...)`. The host's own
      rendering of the value is abstracted to its kind. */
  function Debug(v: JsValue): (r: string)
    ensures |r| > 9 && r[..8] == "JsValue(" && r[|r| - 1] == ')'
  {
    match v
    case Null => "JsValue(null)"
    case FunctionRef(_) => "JsValue(Function)"
    case Other(_) => "JsValue(Object)"
  }
}
