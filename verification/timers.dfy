/** src/timers.rs: interval and timeout handles whose drop clears the host
    timer they wrap.

    Each handle holds an `Arc<Mutex<u32>>`. The model keeps those mutexes in
    a store (`World.cells`); a handle is the index of its cell, so a clone,
    which copies the `Arc`, is the same index. The id `0` means "cleared or
    never set". */
module Timers {
  import opened Wrappers
  import Js
  import opened Host

  type u32 = Js.u32

  /** `timers::Error`. */
  datatype Error = JsValue(value: Js.JsValue) | InvalidIntervalHandle | InvalidTimeoutHandle

  /** One `Mutex<u32>`: the host id (`Unset` once cleared) and whether a
      panic while it was locked has poisoned it. */
  datatype Cell = Cell(id: u32, poisoned: bool)

  /** The sentinel id of a cleared cell. */
  const Unset: u32 := 0

  /** Every timer cell allocated so far, and the host. */
  datatype World = World(cells: seq<Cell>, host: Host)

  /** `IntervalHandle(Arc<Mutex<u32>>)`: the index of its cell. */
  datatype IntervalHandle = IntervalHandle(cell: nat)

  /** `TimeoutHandle(Arc<Mutex<u32>>)`: the index of its cell. */
  datatype TimeoutHandle = TimeoutHandle(cell: nat)

  /** The world after a call, and what the call produced. */
  datatype Step<+T> = Step(world: World, outcome: T)

  const IntervalDropMessage: string := "Unable to clear interval"
  const TimeoutDropMessage: string := "Unable to clear timeout"

  /** The panic message of `Result::expect(message)` on `Err(e)`:
      `"{message}: {e:?}"`, which starts with `message`. */
  function ExpectMessage(message: string, e: Js.JsValue): (r: string)
    ensures |r| > |message| + 2 && r[..|message|] == message
  {
    message + ": " + Js.Debug(e)
  }

  /** `#[derive(Clone)]` on a handle clones the `Arc`: same cell. */
  function CloneInterval(h: IntervalHandle): IntervalHandle { h }

  function CloneTimeout(h: TimeoutHandle): TimeoutHandle { h }

  /** The cells other than `c` are the same in `w` and `w'`. */
  ghost predicate OthersUnchanged(w: World, w': World, c: nat)
  {
    && |w'.cells| == |w.cells|
    && forall i :: 0 <= i < |w.cells| && i != c ==> w'.cells[i] == w.cells[i]
  }

  /** `set_interval` (src/timers.rs:78-81): register a repeating host timer
      running `closure` every `timeout` ms; on success wrap the issued id in a
      handle with a fresh cell, otherwise pass the host's exception on. */
  function SetInterval(w: World, closure: Js.WasmClosure, timeout: u32, issued: u32)
    : (r: Step<Result<IntervalHandle, Error>>)
    requires MayIssue(w.host, issued)
    ensures r.outcome.Ok? <==> w.host.mode.Accepting?
    ensures r.outcome.Ok? ==>
      && r.outcome.value.cell == |w.cells|
      && r.world.cells == w.cells + [Cell(issued, false)]
      && r.world.cells[r.outcome.value.cell].id == issued
      && r.world.host.active.Keys == w.host.active.Keys + {issued}
      && r.world.host.active[issued] == Timer(true, Js.FunctionOf(closure), timeout)
      && r.world.host.cancels == w.host.cancels
      && r.world.host.mode == w.host.mode
      && (forall id :: id in w.host.active ==> r.world.host.active[id] == w.host.active[id])
    ensures r.outcome.Err? ==> r.outcome.error == JsValue(w.host.mode.exception) && r.world == w
  {
    var reply := Register(w.host, Timer(true, Js.FunctionOf(closure), timeout), issued);
    match reply.result
    case Err(e) => Step(w, Err(JsValue(e)))
    case Ok(id) => Step(World(w.cells + [Cell(id, false)], reply.host), Ok(IntervalHandle(|w.cells|)))
  }

  /** `set_timeout` (src/timers.rs:96-99): as `SetInterval`, for a one-shot
      timer. */
  function SetTimeout(w: World, closure: Js.WasmClosure, timeout: u32, issued: u32)
    : (r: Step<Result<TimeoutHandle, Error>>)
    requires MayIssue(w.host, issued)
    ensures r.outcome.Ok? <==> w.host.mode.Accepting?
    ensures r.outcome.Ok? ==>
      && r.outcome.value.cell == |w.cells|
      && r.world.cells == w.cells + [Cell(issued, false)]
      && r.world.cells[r.outcome.value.cell].id == issued
      && r.world.host.active.Keys == w.host.active.Keys + {issued}
      && r.world.host.active[issued] == Timer(false, Js.FunctionOf(closure), timeout)
      && r.world.host.cancels == w.host.cancels
      && r.world.host.mode == w.host.mode
      && (forall id :: id in w.host.active ==> r.world.host.active[id] == w.host.active[id])
    ensures r.outcome.Err? ==> r.outcome.error == JsValue(w.host.mode.exception) && r.world == w
  {
    var reply := Register(w.host, Timer(false, Js.FunctionOf(closure), timeout), issued);
    match reply.result
    case Err(e) => Step(w, Err(JsValue(e)))
    case Ok(id) => Step(World(w.cells + [Cell(id, false)], reply.host), Ok(TimeoutHandle(|w.cells|)))
  }

  /** The body of `clear_interval` and `clear_timeout` (src/timers.rs:84-111)
      on cell `c`: both cancel through the host's `clearTimeout`; `invalid`
      is the error for a cell that is already cleared. */
  function ClearCell(w: World, c: nat, invalid: Error): (r: Step<Completion<Result<(), Error>>>)
    requires c < |w.cells|
    ensures OthersUnchanged(w, r.world, c)
    ensures r.world.host.mode == w.host.mode
    ensures w.cells[c].poisoned ==> r == Step(w, Panicked(UnwrapPoisoned))
    ensures !w.cells[c].poisoned && w.cells[c].id == Unset ==> r == Step(w, Returned(Err(invalid)))
    ensures !w.cells[c].poisoned && w.cells[c].id != Unset ==>
      r.world.host.cancels == w.host.cancels + [CancelCall(ClearTimeoutFn, w.cells[c].id)]
    ensures !w.cells[c].poisoned && w.cells[c].id != Unset && w.host.mode.Accepting? ==>
      && r.outcome == Returned(Ok(()))
      && r.world.cells[c] == Cell(Unset, false)
      && r.world.host.active == w.host.active - {w.cells[c].id}
    ensures !w.cells[c].poisoned && w.cells[c].id != Unset && w.host.mode.Throwing? ==>
      && r.outcome == Returned(Err(JsValue(w.host.mode.exception)))
      && r.world.cells[c] == w.cells[c]
      && r.world.host.active == w.host.active
  {
    var cell := w.cells[c];
    if cell.poisoned then Step(w, Panicked(UnwrapPoisoned))
    else if cell.id != Unset then
      var reply := Cancel(w.host, ClearTimeoutFn, cell.id);
      match reply.result
      case Err(e) => Step(w.(host := reply.host), Returned(Err(JsValue(e))))
      case Ok(_) => Step(World(w.cells[c := Cell(Unset, false)], reply.host), Returned(Ok(())))
    else Step(w, Returned(Err(invalid)))
  }

  /** `clear_interval` (src/timers.rs:84-93). */
  function ClearInterval(w: World, h: IntervalHandle): (r: Step<Completion<Result<(), Error>>>)
    requires h.cell < |w.cells|
    ensures |r.world.cells| == |w.cells|
    ensures r.outcome == Returned(Err(InvalidIntervalHandle)) <==>
      !w.cells[h.cell].poisoned && w.cells[h.cell].id == Unset
    ensures r.outcome == Returned(Ok(())) <==>
      !w.cells[h.cell].poisoned && w.cells[h.cell].id != Unset && w.host.mode.Accepting?
    ensures r.outcome == Returned(Ok(())) ==> r.world.cells[h.cell].id == Unset
    ensures r.world.host.cancels == w.host.cancels ||
      r.world.host.cancels == w.host.cancels + [CancelCall(ClearTimeoutFn, w.cells[h.cell].id)]
  {
    ClearCell(w, h.cell, InvalidIntervalHandle)
  }

  /** `clear_timeout` (src/timers.rs:102-111). */
  function ClearTimeout(w: World, h: TimeoutHandle): (r: Step<Completion<Result<(), Error>>>)
    requires h.cell < |w.cells|
    ensures |r.world.cells| == |w.cells|
    ensures r.outcome == Returned(Err(InvalidTimeoutHandle)) <==>
      !w.cells[h.cell].poisoned && w.cells[h.cell].id == Unset
    ensures r.outcome == Returned(Ok(())) <==>
      !w.cells[h.cell].poisoned && w.cells[h.cell].id != Unset && w.host.mode.Accepting?
    ensures r.outcome == Returned(Ok(())) ==> r.world.cells[h.cell].id == Unset
    ensures r.world.host.cancels == w.host.cancels ||
      r.world.host.cancels == w.host.cancels + [CancelCall(ClearTimeoutFn, w.cells[h.cell].id)]
  {
    ClearCell(w, h.cell, InvalidTimeoutHandle)
  }

  /** The `Drop` body shared by both handles (src/timers.rs:53-75) on cell
      `c`: cancel through primitive `p` when the cell is set, never touching
      the id. A host failure is a panic (`expect(message)`, which appends the
      exception's Debug text) raised while the
      lock is held, so it poisons the cell. */
  function DropCell(w: World, c: nat, p: Primitive, message: string): (r: Step<Completion<()>>)
    requires c < |w.cells|
    ensures OthersUnchanged(w, r.world, c)
    ensures r.world.host.mode == w.host.mode
    ensures r.world.cells[c].id == w.cells[c].id
    ensures r.world.host.cancels != w.host.cancels <==> !w.cells[c].poisoned && w.cells[c].id != Unset
    ensures w.cells[c].poisoned ==> r == Step(w, Panicked(UnwrapPoisoned))
    ensures !w.cells[c].poisoned && w.cells[c].id == Unset ==> r == Step(w, Returned(()))
    ensures !w.cells[c].poisoned && w.cells[c].id != Unset ==>
      r.world.host.cancels == w.host.cancels + [CancelCall(p, w.cells[c].id)]
    ensures !w.cells[c].poisoned && w.cells[c].id != Unset && w.host.mode.Accepting? ==>
      && r.outcome == Returned(())
      && r.world.cells == w.cells
      && r.world.host.active == w.host.active - {w.cells[c].id}
    ensures !w.cells[c].poisoned && w.cells[c].id != Unset && w.host.mode.Throwing? ==>
      && r.outcome == Panicked(ExpectMessage(message, w.host.mode.exception))
      && r.world.cells[c].poisoned
      && r.world.host.active == w.host.active
  {
    var cell := w.cells[c];
    if cell.poisoned then Step(w, Panicked(UnwrapPoisoned))
    else if cell.id != Unset then
      var reply := Cancel(w.host, p, cell.id);
      match reply.result
      case Err(e) => Step(World(w.cells[c := cell.(poisoned := true)], reply.host), Panicked(ExpectMessage(message, e)))
      case Ok(_) => Step(w.(host := reply.host), Returned(()))
    else Step(w, Returned(()))
  }

  /** `Drop for IntervalHandle` (src/timers.rs:53-61). */
  function DropInterval(w: World, h: IntervalHandle): (r: Step<Completion<()>>)
    requires h.cell < |w.cells|
    ensures |r.world.cells| == |w.cells|
    ensures r.world.cells[h.cell].id == w.cells[h.cell].id
    ensures r.outcome.Panicked? <==>
      w.cells[h.cell].poisoned || (w.cells[h.cell].id != Unset && w.host.mode.Throwing?)
    ensures r.world.host.cancels == w.host.cancels ||
      r.world.host.cancels == w.host.cancels + [CancelCall(ClearIntervalFn, w.cells[h.cell].id)]
  {
    DropCell(w, h.cell, ClearIntervalFn, IntervalDropMessage)
  }

  /** `Drop for TimeoutHandle` (src/timers.rs:67-75). */
  function DropTimeout(w: World, h: TimeoutHandle): (r: Step<Completion<()>>)
    requires h.cell < |w.cells|
    ensures |r.world.cells| == |w.cells|
    ensures r.world.cells[h.cell].id == w.cells[h.cell].id
    ensures r.outcome.Panicked? <==>
      w.cells[h.cell].poisoned || (w.cells[h.cell].id != Unset && w.host.mode.Throwing?)
    ensures r.world.host.cancels == w.host.cancels ||
      r.world.host.cancels == w.host.cancels + [CancelCall(ClearTimeoutFn, w.cells[h.cell].id)]
  {
    DropCell(w, h.cell, ClearTimeoutFn, TimeoutDropMessage)
  }
}
