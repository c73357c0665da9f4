/**
 * What one run of the dispatch loop does, as pure functions: the interest
 * sets built from the tables, the choice of the one callback to invoke after
 * a wake, the effect of that callback on the tables, and the loop itself
 * with its three ways out. The class in module Reactor is proved to follow
 * RunLoop exactly.
 */
module EventLoop {
  import opened ReactorTypes
  import opened DescriptorSets
  import opened Registration
  import opened Select

  /** The sets handed to select: per category, every registered descriptor. */
  function Interest(t: Tables): FdSets
  {
    [t[0].Keys, t[1].Keys, t[2].Keys]
  }

  /** No category has a registered descriptor. */
  predicate AllEmpty(t: Tables)
  {
    |t[0]| == 0 && |t[1]| == 0 && |t[2]| == 0
  }

  /** In category `j`, no registered descriptor is marked ready. */
  predicate Quiet(t: Tables, ready: FdSets, j: nat)
    requires j < 3
  {
    t[j].Keys * ready[j] == {}
  }

  /**
   * The choice of the scan that starts at category `i`: the first category
   * in declaration order with a registered descriptor marked ready, and in
   * it the lowest such descriptor, with its callback.
   */
  ghost function ScanFrom(t: Tables, ready: FdSets, i: nat): (r: Option<Dispatch>)
    requires i <= 3
    ensures r.Some? ==>
              var u, fd := r.value.usage.Index(), r.value.fd;
              i <= u && fd in t[u] && fd in ready[u] && r.value.callback == t[u][fd] &&
              (forall x :: x in t[u] && x in ready[u] ==> fd <= x) &&
              (forall j :: i <= j < u ==> Quiet(t, ready, j))
    ensures r.None? <==> forall j :: i <= j < 3 ==> Quiet(t, ready, j)
    decreases 3 - i
  {
    if i == 3 then None
    else if Quiet(t, ready, i) then ScanFrom(t, ready, i + 1)
    else
      var fd := Least(t[i].Keys * ready[i]);
      assert fd in t[i] && fd in ready[i];
      assert forall x :: x in t[i] && x in ready[i] ==> x in t[i].Keys * ready[i];
      Some(Dispatch(UsageAt(i), fd, t[i][fd]))
  }

  /**
   * The callback a wake invokes: categories are scanned EXCEPT, READ, WRITE
   * and descriptors in ascending order, and the first registered descriptor
   * marked ready wins; nothing is invoked when none is marked.
   */
  ghost function FirstReady(t: Tables, ready: FdSets): (r: Option<Dispatch>)
    ensures r.Some? ==>
              var u, fd := r.value.usage.Index(), r.value.fd;
              fd in t[u] && fd in ready[u] && r.value.callback == t[u][fd] &&
              (forall x :: x in t[u] && x in ready[u] ==> fd <= x) &&
              (forall j :: 0 <= j < u ==> Quiet(t, ready, j))
    ensures r.None? <==> forall j :: 0 <= j < 3 ==> Quiet(t, ready, j)
  {
    ScanFrom(t, ready, 0)
  }

  /**
   * The characterisation in FirstReady's contract leaves one choice: any
   * dispatch that meets it is the one FirstReady makes.
   */
  lemma FirstReadyIsDetermined(t: Tables, ready: FdSets, d: Dispatch)
    requires var u := d.usage.Index();
             d.fd in t[u] && d.fd in ready[u] && d.callback == t[u][d.fd] &&
             (forall x :: x in t[u] && x in ready[u] ==> d.fd <= x) &&
             (forall j :: 0 <= j < u ==> Quiet(t, ready, j))
    ensures FirstReady(t, ready) == Some(d)
  {
    var u := d.usage.Index();
    assert d.fd in t[u].Keys * ready[u];
    var r := FirstReady(t, ready);
    assert r.Some?;
    var v := r.value.usage.Index();
    assert r.value.fd in t[v].Keys * ready[v];
    assert v == u;
    UsageIndexRoundTrip(d.usage, v);
    UsageIndexRoundTrip(r.value.usage, v);
  }

  /**
   * A descriptor registered and marked ready in both EXCEPT and READ causes
   * one invocation only, and it is an EXCEPT callback.
   */
  lemma ExceptWinsOverRead(t: Tables, ready: FdSets, fd: int)
    requires fd in t[Except.Index()] && fd in ready[Except.Index()]
    requires fd in t[Read.Index()] && fd in ready[Read.Index()]
    ensures FirstReady(t, ready).Some?
    ensures FirstReady(t, ready).value.usage == Except
    ensures FirstReady(t, ready).value.fd <= fd
  {
    assert fd in t[0].Keys * ready[0];
  }

  /** A call a callback makes on the reactor it is running in. */
  datatype Call =
    | AddCall(fd: int, usage: Usage, fdOpen: bool, callback: CallbackId)
    | RemoveCall(fd: int, usage: Usage)

  /**
   * What a callback does to the reactor: its Add and Remove calls, in order,
   * and whether it calls Stop.
   */
  datatype Effect = Effect(stops: bool, calls: seq<Call>)

  /** The effect of a callback that leaves the reactor alone. */
  const NoEffect := Effect(false, [])

  /** One call; a refused call leaves the tables as they were. */
  function ApplyCall(t: Tables, c: Call): Tables
  {
    match c
    case AddCall(fd, usage, fdOpen, callback) =>
      (match TryAdd(t, fd, usage, fdOpen, callback) case Ok(t1) => t1 case Err(_) => t)
    case RemoveCall(fd, usage) =>
      (match TryRemove(t, fd, usage) case Ok(t1) => t1 case Err(_) => t)
  }

  /** The calls in order; stated from the last call so that a loop can follow it. */
  function ApplyCalls(t: Tables, cs: seq<Call>): (r: Tables)
    ensures WellFormed(t) ==> WellFormed(r)
    decreases |cs|
  {
    if cs == [] then t else ApplyCall(ApplyCalls(t, cs[..|cs| - 1]), cs[|cs| - 1])
  }

  /** The effect of the next callback to run; callbacks past the script do nothing. */
  function NextEffect(effects: seq<Effect>): Effect
  {
    if effects == [] then NoEffect else effects[0]
  }

  /** The script of effects after the next callback has run. */
  function LaterEffects(effects: seq<Effect>): seq<Effect>
  {
    if effects == [] then [] else effects[1..]
  }

  /** How Run ends: a status, an error propagating out, or still blocked in select. */
  datatype RunOutcome = Returned(status: Status) | Threw(error: ReactorError) | StillBlocked

  /** The end of one loop iteration before any callback runs. */
  datatype Iteration =
    | Finished(outcome: RunOutcome)
    | Woken(ready: FdSets, hit: Option<Dispatch>, rest: seq<SelectCall>)

  /**
   * One iteration of the loop in reactor.cpp: return EMPTY when every table is
   * empty, otherwise wait on the sets built afresh from the tables and pick
   * at most one callback among the descriptors the wait marked.
   */
  ghost function Iterate(t: Tables, calls: seq<SelectCall>): (it: Iteration)
    ensures it == Finished(Returned(Empty)) <==> AllEmpty(t)
    ensures it.Finished? ==> it.outcome != Returned(StopCalled)
    ensures it.Finished? && it.outcome.Threw? ==> it.outcome.error in {SelectAllocation, SelectInvalidFD}
    ensures it.Woken? ==> Within(it.ready, Interest(t)) && |it.rest| < |calls|
    ensures it.Woken? ==> it.hit == FirstReady(t, it.ready)
  {
    if AllEmpty(t) then Finished(Returned(Empty))
    else match Wait(Interest(t), calls)
      case Blocked => Finished(StillBlocked)
      case WaitFailed(e) => Finished(Threw(e))
      case Woke(ready, rest) => Woken(ready, FirstReady(t, ready), rest)
  }

  /** A callback registered nowhere any more is not picked by a later wake. */
  lemma RemovedIsNotDispatched(t: Tables, usage: Usage, fd: int, calls: seq<SelectCall>)
    requires fd !in t[usage.Index()]
    ensures var it := Iterate(t, calls);
            it.Woken? && it.hit.Some? ==> !(it.hit.value.usage == usage && it.hit.value.fd == fd)
  {
  }

  /**
   * A callback that removes its own registration takes effect at once: the
   * next wake cannot invoke it again.
   */
  lemma SelfRemovalTakesEffect(t: Tables, d: Dispatch, calls: seq<SelectCall>)
    requires d.fd in t[d.usage.Index()]
    ensures var t1 := ApplyCalls(t, [RemoveCall(d.fd, d.usage)]);
            d.fd !in t1[d.usage.Index()] &&
            var it := Iterate(t1, calls);
            (it.Woken? && it.hit.Some? ==> !(it.hit.value.usage == d.usage && it.hit.value.fd == d.fd))
  {
    var c := RemoveCall(d.fd, d.usage);
    var t1 := ApplyCalls(t, [c]);
    assert [c][..0] == [];
    assert ApplyCalls(t, [c]) == ApplyCall(ApplyCalls(t, []), c);
    assert t1 == TryRemove(t, d.fd, d.usage).value;
    RemovedIsNotDispatched(t1, d.usage, d.fd, calls);
  }

  /** Where a run ends: how, with which tables, and the callbacks it invoked in order. */
  datatype RunResult = RunResult(outcome: RunOutcome, tables: Tables, dispatched: seq<Dispatch>)

  /** `r` preceded by the invocations in `log`. */
  function After(log: seq<Dispatch>, r: RunResult): RunResult
  {
    RunResult(r.outcome, r.tables, log + r.dispatched)
  }

  /**
   * The loop of Run from tables `t`, with the operating system answering
   * select from `calls` and the invoked callbacks behaving as `effects`
   * says, one effect per invocation. After an invocation whose callback
   * called Stop the loop condition fails and Run returns STOP_CALLED.
   */
  ghost function RunLoop(t: Tables, calls: seq<SelectCall>, effects: seq<Effect>): (r: RunResult)
    ensures AllEmpty(t) ==> r == RunResult(Returned(Empty), t, [])
    ensures WellFormed(t) ==> WellFormed(r.tables)
    ensures r.outcome == Returned(Empty) ==> AllEmpty(r.tables)
    ensures r.outcome.Threw? ==> r.outcome.error in {SelectAllocation, SelectInvalidFD}
    ensures r.dispatched == [] ==> r.tables == t
    ensures |r.dispatched| <= |calls|
    decreases |calls|
  {
    match Iterate(t, calls)
    case Finished(outcome) => RunResult(outcome, t, [])
    case Woken(_, None, rest) => RunLoop(t, rest, effects)
    case Woken(_, Some(d), rest) =>
      var e := NextEffect(effects);
      var t1 := ApplyCalls(t, e.calls);
      if e.stops then RunResult(Returned(StopCalled), t1, [d])
      else After([d], RunLoop(t1, rest, LaterEffects(effects)))
  }

  /**
   * Run returns STOP_CALLED exactly when the callback it invoked last called
   * Stop; no callback invoked before it did.
   */
  lemma {:induction false} StopCalledOnlyAfterStop(t: Tables, calls: seq<SelectCall>, effects: seq<Effect>)
    ensures var r := RunLoop(t, calls, effects);
            r.outcome == Returned(StopCalled) <==>
              0 < |r.dispatched| <= |effects| && effects[|r.dispatched| - 1].stops
    decreases |calls|, 1
  {
    var it := Iterate(t, calls);
    if it.Woken? {
      if it.hit.None? {
        StopCalledOnlyAfterStop(t, it.rest, effects);
      } else {
        StopCalledAfterDispatch(t, calls, effects);
      }
    }
  }

  /** The step of StopCalledOnlyAfterStop for a wake that invokes a callback. */
  lemma {:induction false} StopCalledAfterDispatch(t: Tables, calls: seq<SelectCall>, effects: seq<Effect>)
    requires Iterate(t, calls).Woken? && Iterate(t, calls).hit.Some?
    ensures var r := RunLoop(t, calls, effects);
            r.outcome == Returned(StopCalled) <==>
              0 < |r.dispatched| <= |effects| && effects[|r.dispatched| - 1].stops
    decreases |calls|, 0
  {
    var it := Iterate(t, calls);
    var d, rest := it.hit.value, it.rest;
    var r := RunLoop(t, calls, effects);
    var e := NextEffect(effects);
    var t1 := ApplyCalls(t, e.calls);
    if e.stops {
      assert r == RunResult(Returned(StopCalled), t1, [d]);
      assert effects != [] && effects[0] == e;
    } else {
      var later := LaterEffects(effects);
      var r1 := RunLoop(t1, rest, later);
      StopCalledOnlyAfterStop(t1, rest, later);
      assert r == After([d], r1);
      var n := |r1.dispatched|;
      if effects == [] {
        assert later == [];
      } else {
        assert |later| == |effects| - 1;
        assert 0 < n <= |later| ==> later[n - 1] == effects[n];
        assert effects[0] == e;
      }
    }
  }

  /** No callback invoked before the last one of a run called Stop. */
  lemma {:induction false} NoStopBeforeLast(t: Tables, calls: seq<SelectCall>, effects: seq<Effect>)
    ensures var r := RunLoop(t, calls, effects);
            forall k :: 0 <= k < |r.dispatched| - 1 && k < |effects| ==> !effects[k].stops
    decreases |calls|
  {
    match Iterate(t, calls)
    case Finished(outcome) =>
    case Woken(_, None, rest) =>
      NoStopBeforeLast(t, rest, effects);
    case Woken(_, Some(d), rest) =>
      var e := NextEffect(effects);
      if !e.stops {
        var later := LaterEffects(effects);
        var r1 := RunLoop(ApplyCalls(t, e.calls), rest, later);
        NoStopBeforeLast(ApplyCalls(t, e.calls), rest, later);
        assert RunLoop(t, calls, effects) == After([d], r1);
        forall k | 0 <= k < |r1.dispatched| && k < |effects|
          ensures !effects[k].stops
        {
          if k > 0 {
            assert effects[k] == later[k - 1];
          }
        }
      }
  }

  /**
   * One READ registration, marked ready by the operating system, whose
   * callback calls Stop: Run invokes that callback once and returns
   * STOP_CALLED with the table as it was.
   */
  lemma {:induction false} OneReadyReaderStops(fd: int, cb: CallbackId, marks: FdSets, later: seq<SelectCall>, effects: seq<Effect>)
    requires fd in marks[Read.Index()]
    requires effects != [] && effects[0] == Effect(true, [])
    ensures var t: Tables := [map[], map[fd := cb], map[]];
            RunLoop(t, [SelectCall(Success, marks)] + later, effects) ==
              RunResult(Returned(StopCalled), t, [Dispatch(Read, fd, cb)])
  {
    var t: Tables := [map[], map[fd := cb], map[]];
    var calls := [SelectCall(Success, marks)] + later;
    var ready := Masked(Interest(t), marks);
    assert t[1].Keys * ready[1] == {fd};
    assert Wait(Interest(t), calls) == Woke(ready, calls[1..]);
  }
}
