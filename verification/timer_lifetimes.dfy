/** What the timer handles promise over several calls: one clear per
    registration, clones that share one cell, and the cancel calls issued
    when a collection of handles goes out of scope. */
module TimerLifetimes {
  import opened Wrappers
  import Js
  import opened Host
  import opened Timers

  /** A second explicit clear through any clone of a cleared interval
      handle fails with `InvalidIntervalHandle` and calls nothing on the
      host (src/timers.rs:50-51, 84-93). */
  lemma ClearIntervalTwiceFails(w: World, h: IntervalHandle)
    requires h.cell < |w.cells|
    requires ClearInterval(w, h).outcome == Returned(Ok(()))
    ensures
      var w1 := ClearInterval(w, h).world;
      ClearInterval(w1, CloneInterval(h)) == Step(w1, Returned(Err(InvalidIntervalHandle)))
  {
  }

  /** The same for timeout handles (src/timers.rs:64-65, 102-111). */
  lemma ClearTimeoutTwiceFails(w: World, h: TimeoutHandle)
    requires h.cell < |w.cells|
    requires ClearTimeout(w, h).outcome == Returned(Ok(()))
    ensures
      var w1 := ClearTimeout(w, h).world;
      ClearTimeout(w1, CloneTimeout(h)) == Step(w1, Returned(Err(InvalidTimeoutHandle)))
  {
  }

  /** After an explicit clear, dropping any clone is a no-op: no host call,
      no change (src/timers.rs:53-61, 84-93). */
  lemma ClearedIntervalDropsQuietly(w: World, h: IntervalHandle)
    requires h.cell < |w.cells|
    requires ClearInterval(w, h).outcome == Returned(Ok(()))
    ensures
      var w1 := ClearInterval(w, h).world;
      DropInterval(w1, CloneInterval(h)) == Step(w1, Returned(()))
  {
  }

  /** The same for timeout handles (src/timers.rs:67-75, 102-111). */
  lemma ClearedTimeoutDropsQuietly(w: World, h: TimeoutHandle)
    requires h.cell < |w.cells|
    requires ClearTimeout(w, h).outcome == Returned(Ok(()))
    ensures
      var w1 := ClearTimeout(w, h).world;
      DropTimeout(w1, CloneTimeout(h)) == Step(w1, Returned(()))
  {
  }

  /** A clear whose host call throws leaves the handle set, so it can be
      cleared again once the host accepts (src/timers.rs:84-89). */
  lemma FailedClearCanBeRetried(w: World, h: IntervalHandle)
    requires h.cell < |w.cells|
    requires !w.cells[h.cell].poisoned && w.cells[h.cell].id != Unset
    requires w.host.mode.Throwing?
    ensures
      var w1 := ClearInterval(w, h).world;
      && ClearInterval(w, h).outcome == Returned(Err(JsValue(w.host.mode.exception)))
      && w1.cells[h.cell] == w.cells[h.cell]
      && ClearInterval(w1.(host := w1.host.(mode := Accepting)), h).outcome == Returned(Ok(()))
  {
  }

  /** Dropping one clone cancels the timer but leaves the shared cell set,
      so an explicit clear through another clone still succeeds and cancels
      the same id a second time (src/timers.rs:53-61, 84-93). */
  lemma DroppedCloneStillClears(w: World, h: IntervalHandle)
    requires h.cell < |w.cells|
    requires !w.cells[h.cell].poisoned && w.cells[h.cell].id != Unset
    requires w.host.mode.Accepting?
    ensures
      var id := w.cells[h.cell].id;
      var w1 := DropInterval(w, h).world;
      var s2 := ClearInterval(w1, CloneInterval(h));
      && s2.outcome == Returned(Ok(()))
      && s2.world.host.cancels
         == w.host.cancels + [CancelCall(ClearIntervalFn, id), CancelCall(ClearTimeoutFn, id)]
  {
  }

  /** A dropped handle's cell keeps its id, and the host may reuse an id
      once it is no longer active. So when the host reissues the id to a new
      interval, dropping a stale clone of the first handle cancels the new
      timer, although the new handle still holds the id
      (src/timers.rs:53-61, 78-81). */
  lemma StaleCloneCancelsReusedId(w: World, h: IntervalHandle, closure: Js.WasmClosure, timeout: Js.u32)
    requires h.cell < |w.cells|
    requires !w.cells[h.cell].poisoned && w.cells[h.cell].id != Unset
    requires w.host.mode.Accepting?
    ensures
      var id := w.cells[h.cell].id;
      var w1 := DropInterval(w, h).world;
      && MayIssue(w1.host, id)
      && var s2 := SetInterval(w1, closure, timeout, id);
      && s2.outcome.Ok?
      && id in s2.world.host.active
      && var w3 := DropInterval(s2.world, CloneInterval(h)).world;
      && w3.cells[s2.outcome.value.cell].id == id
      && id !in w3.host.active
  {
  }

  /** A drop whose host call throws panics with the cell locked; the cell is
      poisoned, so every later clear or drop through a clone panics at
      `lock().unwrap()` (src/timers.rs:55-58, 85). */
  lemma PanickedDropPoisonsClones(w: World, h: IntervalHandle)
    requires h.cell < |w.cells|
    requires !w.cells[h.cell].poisoned && w.cells[h.cell].id != Unset
    requires w.host.mode.Throwing?
    ensures DropInterval(w, h).outcome
      == Panicked(ExpectMessage(IntervalDropMessage, w.host.mode.exception))
    ensures
      var w1 := DropInterval(w, h).world;
      && ClearInterval(w1, CloneInterval(h)) == Step(w1, Panicked(UnwrapPoisoned))
      && DropInterval(w1, CloneInterval(h)) == Step(w1, Panicked(UnwrapPoisoned))
  {
  }

  /** Scheduling an interval and dropping its handle leaves the host's
      active timers as they were, after exactly one `clearInterval` of the
      issued id (src/timers.rs:53-61, 78-81). */
  lemma IntervalReleasedOnDrop(w: World, closure: Js.WasmClosure, timeout: Js.u32, issued: Js.u32)
    requires MayIssue(w.host, issued) && w.host.mode.Accepting?
    ensures
      var s1 := SetInterval(w, closure, timeout, issued);
      var s2 := DropInterval(s1.world, s1.outcome.value);
      && s2.outcome == Returned(())
      && s2.world.host.active == w.host.active
      && s2.world.host.cancels == w.host.cancels + [CancelCall(ClearIntervalFn, issued)]
  {
  }

  /** Scheduling a timeout, clearing it and then dropping its handle issues
      exactly one cancel call (the explicit one) and leaves the active timers
      as they were (src/timers.rs:67-75, 96-111). */
  lemma TimeoutCancelledOnce(w: World, closure: Js.WasmClosure, timeout: Js.u32, issued: Js.u32)
    requires MayIssue(w.host, issued) && w.host.mode.Accepting?
    ensures
      var s1 := SetTimeout(w, closure, timeout, issued);
      var h := s1.outcome.value;
      var s2 := ClearTimeout(s1.world, h);
      var s3 := DropTimeout(s2.world, h);
      && s2.outcome == Returned(Ok(()))
      && s3.outcome == Returned(())
      && s3.world.host.active == w.host.active
      && s3.world.host.cancels == w.host.cancels + [CancelCall(ClearTimeoutFn, issued)]
  {
  }

  /** Every handle of `hs` refers to a cell of `cells`. */
  ghost predicate InStore(cells: seq<Cell>, hs: seq<IntervalHandle>)
  {
    forall j :: 0 <= j < |hs| ==> hs[j].cell < |cells|
  }

  /** The cancel calls dropping `hs` in order issues when no drop panics:
      one `clearInterval` per handle whose cell is set. Drops never change a
      cell, so every id is read from the cells as they were. */
  function DropCalls(cells: seq<Cell>, hs: seq<IntervalHandle>): seq<CancelCall>
    requires InStore(cells, hs)
  {
    if hs == [] then []
    else
      var id := cells[hs[|hs| - 1].cell].id;
      DropCalls(cells, hs[..|hs| - 1]) + (if id != Unset then [CancelCall(ClearIntervalFn, id)] else [])
  }

  /** The ids the host is asked to cancel when `hs` is dropped. */
  function DroppedIds(cells: seq<Cell>, hs: seq<IntervalHandle>): set<Js.u32>
    requires InStore(cells, hs)
  {
    set j | 0 <= j < |hs| && cells[hs[j].cell].id != Unset :: cells[hs[j].cell].id
  }

  /** Dropping `h` in `w` does not panic. */
  ghost predicate DropsQuietly(w: World, h: IntervalHandle)
  {
    h.cell < |w.cells| && !w.cells[h.cell].poisoned
    && (w.cells[h.cell].id != Unset ==> w.host.mode.Accepting?)
  }

  /** No handle of `hs` panics when dropped in `w`. */
  ghost predicate AllDropQuietly(w: World, hs: seq<IntervalHandle>)
  {
    forall j :: 0 <= j < |hs| ==> DropsQuietly(w, hs[j])
  }

  /** Every handle of `hs` refers to a cell of `cells` that holds a timer id. */
  ghost predicate AllSet(cells: seq<Cell>, hs: seq<IntervalHandle>)
  {
    forall j :: 0 <= j < |hs| ==> hs[j].cell < |cells| && cells[hs[j].cell].id != Unset
  }

  /** Going from `w` to `w'` logged exactly one cancel call per handle of
      `hs`. */
  ghost predicate OneCancelEach(w: World, hs: seq<IntervalHandle>, w': World)
  {
    |w'.host.cancels| == |w.host.cancels| + |hs|
  }

  /** What a drop, or a sequence of drops, leaves behind. */
  type DropStep = Step<Completion<()>>

  /** Dropping a sequence of interval handles in order, as a `Vec` going
      out of scope does (src/timers.rs:53-61), stopping at the first panic.
      It panics exactly when some handle's drop would, and otherwise leaves
      every cell as it was and issues the cancels of `DropCalls`: one per
      handle when every handle is set, clones included. */
  method DropInOrder(w: World, hs: seq<IntervalHandle>) returns (r: DropStep)
    requires InStore(w.cells, hs)
    ensures r.outcome.Returned? <==> AllDropQuietly(w, hs)
    ensures r.outcome.Returned? ==>
      && r.world.cells == w.cells
      && r.world.host.cancels == w.host.cancels + DropCalls(w.cells, hs)
      && r.world.host.active == w.host.active - DroppedIds(w.cells, hs)
      && (AllSet(w.cells, hs) ==> OneCancelEach(w, hs, r.world))
  {
    var cur := w;
    var i := 0;
    var stopped := false;
    r := Step(w, Returned(()));
    while i < |hs| && !stopped
      invariant 0 <= i <= |hs|
      invariant cur.cells == w.cells && cur.host.mode == w.host.mode
      invariant cur.host.cancels == w.host.cancels + DropCalls(w.cells, hs[..i])
      invariant cur.host.active == w.host.active - DroppedIds(w.cells, hs[..i])
      invariant forall j :: 0 <= j < i ==> DropsQuietly(w, hs[j])
      invariant stopped ==> i < |hs| && !DropsQuietly(w, hs[i]) && r.outcome.Panicked?
      decreases |hs| - i, if stopped then 0 else 1
    {
      var step := DropInterval(cur, hs[i]);
      if step.outcome.Panicked? {
        stopped := true;
        r := step;
      } else {
        assert hs[..i + 1][..i] == hs[..i];
        assert DroppedIds(w.cells, hs[..i + 1]) == DroppedIds(w.cells, hs[..i])
          + (if w.cells[hs[i].cell].id != Unset then {w.cells[hs[i].cell].id} else {});
        cur := step.world;
        i := i + 1;
      }
    }
    if !stopped {
      assert hs[..i] == hs;
      r := Step(cur, Returned(()));
      if AllSet(w.cells, hs) {
        DropCallsCount(w.cells, hs);
      }
    }
  }

  /** Every dropped handle whose cell is set issues its own cancel call,
      clones included: `N` set handles give `N` calls (src/timers.rs:53-61). */
  lemma {:induction false} DropCallsCount(cells: seq<Cell>, hs: seq<IntervalHandle>)
    requires InStore(cells, hs)
    requires AllSet(cells, hs)
    ensures |DropCalls(cells, hs)| == |hs|
  {
    if hs != [] {
      DropCallsCount(cells, hs[..|hs| - 1]);
    }
  }
}
