/**
 * The reactor object: the three registration tables and the running flag,
 * updated in place by Add, Remove, Stop and Run. Each method is proved
 * against the pure description in modules Registration, Select and EventLoop.
 */
module Reactor {
  import opened ReactorTypes
  import opened DescriptorSets
  import opened Registration
  import opened Select
  import opened EventLoop

  /**
   * FDSetInitIMP applied to every entry of one table in the table's own
   * ascending order: the set starts cleared and each registered descriptor
   * is marked.
   */
  method FdSetInit(table: Table) returns (s: set<int>)
    ensures s == table.Keys
  {
    s := {};
    var rest := table.Keys;
    while rest != {}
      invariant s + rest == table.Keys
      invariant s !! rest
      decreases |rest|
    {
      LeastExists(rest);
      var fd :| fd in rest && forall k :: k in rest ==> fd <= k;
      s := s + {fd};
      rest := rest - {fd};
    }
  }

  class Reactor {
    /** reactions_tables: one registration table per category, by `Usage.Index()`. */
    const tables: array<Table>

    /** m_isRunning: set for the extent of one Run. */
    var running: bool

    /** The tables are three, and every registered descriptor is in range. */
    ghost predicate Valid()
      reads this, tables
    {
      tables.Length == 3 && WellFormed(tables[..])
    }

    /** The registrations, as the value the pure description works on. */
    ghost function Registrations(): Tables
      reads this, tables
      requires tables.Length == 3
    {
      tables[..]
    }

    /** A new reactor: not running, nothing registered. */
    constructor ()
      ensures Valid() && fresh(tables) && !running
      ensures Registrations() == [map[], map[], map[]]
    {
      tables := new Table[3](_ => map[]);
      running := false;
    }

    /**
     * Add: the descriptor must be in range and open (`fdOpen` is the answer
     * of the open-descriptor probe), the category must have room, and the
     * pair must be new; the first check that fails decides the error and
     * leaves every table as it was.
     */
    method Add(fd: int, usage: Usage, callback: CallbackId, fdOpen: bool) returns (r: Result<()>)
      requires Valid()
      modifies tables
      ensures Valid()
      ensures match TryAdd(old(Registrations()), fd, usage, fdOpen, callback)
              case Ok(t) => r == Ok(()) && Registrations() == t
              case Err(e) => r == Err(e) && Registrations() == old(Registrations())
    {
      if fd < 0 || Limit <= fd || !fdOpen {
        return Err(NonValidFD);
      }
      var i := usage.Index();
      if |tables[i]| == Limit {
        return Err(FDsOverflow);
      }
      // map insertion refuses a key that is already there
      if fd in tables[i] {
        return Err(RepeatingFD);
      }
      tables[i] := tables[i][fd := callback];
      r := Ok(());
    }

    /** Remove: erases a registered pair, or fails leaving every table as it was. */
    method Remove(fd: int, usage: Usage) returns (r: Result<()>)
      requires Valid()
      modifies tables
      ensures Valid()
      ensures match TryRemove(old(Registrations()), fd, usage)
              case Ok(t) => r == Ok(()) && Registrations() == t
              case Err(e) => r == Err(e) && Registrations() == old(Registrations())
    {
      var i := usage.Index();
      if fd !in tables[i] {
        return Err(RemovingNonExistingFD);
      }
      tables[i] := tables[i] - {fd};
      r := Ok(());
    }

    /** Stop: only meaningful inside Run, where the flag is set; clears it. */
    method Stop()
      requires running
      modifies this
      ensures !running
    {
      running := false;
    }

    /** The Finalizer's destructor, run on every way out of Run: clears the flag. */
    method Finalize()
      modifies this
      ensures !running
    {
      running := false;
    }

    /**
     * The search of one category after a wake (find_if with FDTestAndRunIMP):
     * the entries in ascending descriptor order, stopping at the first one
     * marked in `ready`.
     */
    method ScanCategory(i: nat, ready: FdSets) returns (hit: Option<Dispatch>)
      requires Valid() && i < 3
      ensures hit.None? <==> Quiet(Registrations(), ready, i)
      ensures hit.Some? ==>
                var d := hit.value;
                d.usage == UsageAt(i) && d.fd in tables[i] && d.fd in ready[i] &&
                d.callback == tables[i][d.fd] &&
                forall x :: x in tables[i] && x in ready[i] ==> d.fd <= x
    {
      var table := tables[i];
      var rest := table.Keys;
      hit := None;
      while rest != {} && hit.None?
        invariant rest <= table.Keys
        invariant forall k :: k in table && k !in rest ==> k !in ready[i]
        invariant forall k, k' :: k in table && k !in rest && k' in rest ==> k < k'
        invariant hit.Some? ==>
                    var d := hit.value;
                    d.usage == UsageAt(i) && d.fd in table && d.fd in ready[i] &&
                    d.callback == table[d.fd] &&
                    forall x :: x in table && x in ready[i] ==> d.fd <= x
        decreases |rest|, if hit.None? then 1 else 0
      {
        LeastExists(rest);
        var fd :| fd in rest && forall k :: k in rest ==> fd <= k;
        if fd in ready[i] {
          hit := Some(Dispatch(UsageAt(i), fd, table[fd]));
        } else {
          rest := rest - {fd};
        }
      }
      if hit.None? {
        assert forall k :: k !in table.Keys * ready[i];
      } else {
        assert hit.value.fd in table.Keys * ready[i];
      }
    }

    /**
     * The scan after a wake: EXCEPT, then READ, then WRITE, stopping at the
     * first category with a ready descriptor.
     */
    method Scan(ready: FdSets) returns (hit: Option<Dispatch>)
      requires Valid()
      ensures hit == FirstReady(Registrations(), ready)
    {
      hit := None;
      var i := 0;
      while i < 3 && hit.None?
        invariant 0 <= i <= 3
        invariant hit.None? ==> forall j :: 0 <= j < i ==> Quiet(Registrations(), ready, j)
        invariant hit.Some? ==> hit == FirstReady(Registrations(), ready)
      {
        hit := ScanCategory(i, ready);
        if hit.Some? {
          FirstReadyIsDetermined(Registrations(), ready, hit.value);
        }
        i := i + 1;
      }
    }

    /** The invoked callback's calls on this reactor, then its Stop if it makes one. */
    method Invoke(e: Effect)
      requires Valid() && running
      modifies this, tables
      ensures Valid()
      ensures Registrations() == ApplyCalls(old(Registrations()), e.calls)
      ensures running == !e.stops
    {
      var k := 0;
      while k < |e.calls|
        invariant 0 <= k <= |e.calls|
        invariant Valid() && running
        invariant Registrations() == ApplyCalls(old(Registrations()), e.calls[..k])
      {
        assert e.calls[..k + 1][..k] == e.calls[..k];
        match e.calls[k] {
          case AddCall(fd, usage, fdOpen, callback) =>
            var ignored := Add(fd, usage, callback, fdOpen);
          case RemoveCall(fd, usage) =>
            var ignored := Remove(fd, usage);
        }
        k := k + 1;
      }
      assert e.calls[..k] == e.calls;
      if e.stops {
        Stop();
      }
    }

    /**
     * One pass of Run's loop up to the invocation: EMPTY when every table is
     * empty; otherwise the three sets are built from the tables, the wait
     * runs on them, and the scan picks the callback to invoke, if any.
     * Nothing of the reactor changes.
     */
    method Poll(pending: seq<SelectCall>) returns (it: Iteration)
      requires Valid()
      ensures it == Iterate(Registrations(), pending)
    {
      var emptyMaps := 0;
      var i := 0;
      while i < 3
        invariant 0 <= i <= 3 && emptyMaps <= i
        invariant emptyMaps == i <==> forall j :: 0 <= j < i ==> |tables[j]| == 0
      {
        if |tables[i]| == 0 {
          emptyMaps := emptyMaps + 1;
        }
        i := i + 1;
      }
      if emptyMaps == 3 {
        return Finished(Returned(Empty));
      }
      var fdStatus := new set<int>[3];
      i := 0;
      while i < 3
        modifies fdStatus
        invariant 0 <= i <= 3
        invariant forall j :: 0 <= j < i ==> fdStatus[j] == tables[j].Keys
      {
        fdStatus[i] := FdSetInit(tables[i]);
        i := i + 1;
      }
      assert fdStatus[..] == Interest(Registrations());
      var w := SelectFunc(fdStatus, pending);
      match w {
        case Blocked =>
          it := Finished(StillBlocked);
        case WaitFailed(e) =>
          it := Finished(Threw(e));
        case Woke(ready, rest) =>
          var hit := Scan(fdStatus[..]);
          it := Woken(ready, hit, rest);
      }
    }

    /**
     * Run: sets the flag, then loops while it stays set. Each pass returns
     * EMPTY when every table is empty, otherwise waits and invokes at most
     * one callback. The loop ends with STOP_CALLED once a callback has
     * cleared the flag; every way out clears the flag. The operating system
     * answers from `calls`, and the invoked callbacks behave as `effects`
     * says; `log` is the sequence of invoked callbacks.
     */
    method Run(calls: seq<SelectCall>, effects: seq<Effect>) returns (out: RunOutcome, ghost log: seq<Dispatch>)
      requires Valid()
      modifies this, tables
      ensures Valid() && !running
      ensures RunLoop(old(Registrations()), calls, effects) == RunResult(out, Registrations(), log)
    {
      ghost var whole := RunLoop(Registrations(), calls, effects);
      running := true;
      var pending, script := calls, effects;
      log := [];
      out := StillBlocked;
      var returned := false;
      while running && !returned
        invariant Valid()
        invariant !returned && running ==> whole == After(log, RunLoop(Registrations(), pending, script))
        invariant !returned && !running ==> whole == RunResult(Returned(StopCalled), Registrations(), log)
        invariant returned ==> whole == RunResult(out, Registrations(), log)
        decreases |pending|, if returned then 0 else 1
      {
        var it := Poll(pending);
        match it {
          case Finished(outcome) =>
            out, returned := outcome, true;
          case Woken(_, hit, rest) =>
            pending := rest;
            if hit.Some? {
              var e := NextEffect(script);
              script := LaterEffects(script);
              log := log + [hit.value];
              Invoke(e);
            }
        }
      }
      if !returned {
        out := Returned(StopCalled);
      }
      Finalize();
    }
  }
}
