/** The host's timer API (`setInterval`, `clearInterval`, `setTimeout`,
    `clearTimeout`) as an oracle: the state it keeps and what each call does
    to it. Following the "Timers" section of the WHATWG HTML Living Standard,
    both kinds of timer live in one map of active timers, the ids the host
    hands out are positive and unique among active timers, and either clear
    call removes an id from that map (an unknown id is ignored). */
module Host {
  import opened Wrappers
  import opened Js

  /** The host cancel function a native call went through. */
  datatype Primitive = ClearIntervalFn | ClearTimeoutFn

  /** One cancel call as the host saw it. */
  datatype CancelCall = CancelCall(primitive: Primitive, id: u32)

  /** A registered timer: repeating or one-shot, the host function it runs
      and its period or delay in milliseconds. */
  datatype Timer = Timer(repeating: bool, callback: JsValue, delay: u32)

  /** Whether host calls succeed, or throw the given exception. */
  datatype Mode = Accepting | Throwing(exception: JsValue)

  /** The host's timer state: active timers by id, every cancel call issued
      so far in order, and the success switch. */
  datatype Host = Host(active: map<u32, Timer>, cancels: seq<CancelCall>, mode: Mode)

  /** A host call's answer together with the host state after it. */
  datatype Reply<+T> = Reply(host: Host, result: Result<T, JsValue>)

  /** Assumption about the host, not a demand of the native code: an id
      the host issues is positive (so the native sentinel `0` never collides
      with a live timer) and names no timer that is still active. */
  predicate MayIssue(h: Host, id: u32)
  {
    0 < id && id !in h.active
  }

  /** `setInterval` / `setTimeout` (src/timers.rs:34-41): register `t` under the
      host-chosen id `issued`, or throw without registering anything. */
  function Register(h: Host, t: Timer, issued: u32): (r: Reply<u32>)
    requires MayIssue(h, issued)
    ensures h.mode.Accepting? ==> r.result == Ok(issued)
    ensures h.mode.Accepting? ==> r.host.active.Keys == h.active.Keys + {issued}
    ensures h.mode.Accepting? ==> r.host.active[issued] == t
    ensures h.mode.Accepting? ==>
      forall id :: id in h.active ==> r.host.active[id] == h.active[id]
    ensures h.mode.Throwing? ==> r.result == Err(h.mode.exception) && r.host == h
    ensures r.host.cancels == h.cancels && r.host.mode == h.mode
  {
    match h.mode
    case Accepting => Reply(h.(active := h.active[issued := t]), Ok(issued))
    case Throwing(e) => Reply(h, Err(e))
  }

  /** `clearInterval` / `clearTimeout` (src/timers.rs:37-44): the call is
      recorded; if the host accepts it, `id` is no longer active. */
  function Cancel(h: Host, p: Primitive, id: u32): (r: Reply<()>)
    ensures r.host.cancels == h.cancels + [CancelCall(p, id)]
    ensures r.host.mode == h.mode
    ensures h.mode.Accepting? ==> r.result.Ok? && r.host.active == h.active - {id}
    ensures h.mode.Throwing? ==> r.result == Err(h.mode.exception) && r.host.active == h.active
  {
    var logged := h.(cancels := h.cancels + [CancelCall(p, id)]);
    match h.mode
    case Accepting => Reply(logged.(active := h.active - {id}), Ok(()))
    case Throwing(e) => Reply(logged, Err(e))
  }
}
