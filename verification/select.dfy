/**
 * The readiness wait: one call of the operating system's select over the
 * three descriptor sets, retried after an interruption, with its failures
 * translated into errors. The operating system is a script of answers.
 */
module Select {
  import opened ReactorTypes

  /** The error numbers the wait distinguishes; any other is `OtherErrno`. */
  datatype Errno = EINTR | EAGAIN | EBADF | OtherErrno

  /** What select returned: a count of ready descriptors, or -1 with an errno. */
  datatype SelectReturn = Success | Failure(errno: Errno)

  /**
   * One answer of the operating system to one select call. `marks` says, per
   * category, which descriptors it leaves marked; select can only clear
   * bits, so what the buffer holds afterwards is the request cut down to
   * `marks` — on success and on failure alike.
   */
  datatype SelectCall = SelectCall(ret: SelectReturn, marks: FdSets)

  /** How a wait ends: woken with the marked sets, failed, or never answered. */
  datatype WaitResult =
    | Woke(ready: FdSets, rest: seq<SelectCall>)
    | WaitFailed(error: ReactorError)
    | Blocked

  /** Each category of `s` is contained in the same category of `t`. */
  predicate Within(s: FdSets, t: FdSets)
  {
    forall i :: 0 <= i < 3 ==> s[i] <= t[i]
  }

  /** The buffer contents after a select call that asked for `req`. */
  function Masked(req: FdSets, marks: FdSets): (r: FdSets)
    ensures Within(r, req) && Within(r, marks)
  {
    [req[0] * marks[0], req[1] * marks[1], req[2] * marks[2]]
  }

  /**
   * The position of the first answer that is not an interruption, or
   * `|calls|` when every answer is one: the answer that decides the wait.
   */
  function FirstDecisive(calls: seq<SelectCall>): (k: nat)
    ensures k <= |calls|
    ensures forall j :: 0 <= j < k ==> calls[j].ret == Failure(EINTR)
    ensures k < |calls| ==> calls[k].ret != Failure(EINTR)
    decreases |calls|
  {
    if calls == [] || calls[0].ret != Failure(EINTR) then 0
    else
      var k := FirstDecisive(calls[1..]);
      assert forall j :: 1 <= j < k + 1 ==> calls[j] == calls[1..][j - 1];
      k + 1
  }

  /**
   * The wait of reactor.cpp: an interrupted call is repeated on the same
   * buffer, and the first answer that is not an interruption decides.
   * EAGAIN becomes the runtime error "memory allocation failed", EBADF the
   * logic error "invalid file descriptor", and success or any other errno
   * ends the wait as woken, with the later answers left for later waits.
   * The sets handed back are never more than what was asked for.
   */
  function Wait(req: FdSets, calls: seq<SelectCall>): (w: WaitResult)
    ensures var k := FirstDecisive(calls);
            (w.Blocked? <==> k == |calls|) &&
            (w == WaitFailed(SelectAllocation) <==> k < |calls| && calls[k].ret == Failure(EAGAIN)) &&
            (w == WaitFailed(SelectInvalidFD) <==> k < |calls| && calls[k].ret == Failure(EBADF)) &&
            (w.Woke? <==> k < |calls| && calls[k].ret in {Success, Failure(OtherErrno)}) &&
            (w.Woke? ==> w.rest == calls[k + 1..])
    ensures w.WaitFailed? ==> w.error in {SelectAllocation, SelectInvalidFD}
    ensures w.Woke? ==> Within(w.ready, req) && |w.rest| < |calls|
    decreases |calls|
  {
    if calls == [] then Blocked
    else
      var after := Masked(req, calls[0].marks);
      match calls[0].ret
      case Success => Woke(after, calls[1..])
      case Failure(EINTR) =>
        var w := Wait(after, calls[1..]);
        var k := FirstDecisive(calls[1..]);
        assert FirstDecisive(calls) == k + 1;
        assert k < |calls[1..]| ==> calls[k + 1] == calls[1..][k];
        assert k < |calls[1..]| ==> calls[1..][k + 1..] == calls[k + 2..];
        w
      case Failure(EAGAIN) => WaitFailed(SelectAllocation)
      case Failure(EBADF) => WaitFailed(SelectInvalidFD)
      case Failure(OtherErrno) => Woke(after, calls[1..])
  }

  /**
   * An interruption that leaves the buffer as it was is invisible: the wait
   * behaves as though the interrupted call had never happened.
   */
  lemma InterruptionIsTransparent(req: FdSets, marks: FdSets, calls: seq<SelectCall>)
    requires Within(req, marks)
    ensures Wait(req, [SelectCall(Failure(EINTR), marks)] + calls) == Wait(req, calls)
  {
    var all := [SelectCall(Failure(EINTR), marks)] + calls;
    assert all[1..] == calls;
    assert Masked(req, marks) == req by {
      assert req[0] * marks[0] == req[0];
      assert req[1] * marks[1] == req[1];
      assert req[2] * marks[2] == req[2];
    }
  }

  /**
   * An errno other than EINTR, EAGAIN and EBADF is passed over: the wait
   * wakes on it with what the call left marked, whatever the later answers
   * would have been.
   */
  lemma OtherErrnoFallsThrough(req: FdSets, marks: FdSets, calls: seq<SelectCall>)
    ensures Wait(req, [SelectCall(Failure(OtherErrno), marks)] + calls) ==
              Woke(Masked(req, marks), calls)
  {
    var all := [SelectCall(Failure(OtherErrno), marks)] + calls;
    assert all[1..] == calls;
  }

  /**
   * The wait throws exactly when its deciding answer is EAGAIN or EBADF, and
   * wakes exactly when that answer is a success or another errno; answers
   * after the deciding one play no part.
   */
  lemma {:induction false} WaitFailsOnlyOnFatalErrno(req: FdSets, calls: seq<SelectCall>, later: seq<SelectCall>)
    ensures var k := FirstDecisive(calls);
            Wait(req, calls).WaitFailed? <==>
              k < |calls| && calls[k].ret in {Failure(EAGAIN), Failure(EBADF)}
    ensures var k := FirstDecisive(calls);
            Wait(req, calls).Woke? <==>
              k < |calls| && calls[k].ret in {Success, Failure(OtherErrno)}
    ensures FirstDecisive(calls) < |calls| ==>
              Wait(req, calls + later).WaitFailed? == Wait(req, calls).WaitFailed?
    decreases |calls|
  {
    if calls != [] && calls[0].ret == Failure(EINTR) {
      WaitFailsOnlyOnFatalErrno(Masked(req, calls[0].marks), calls[1..], later);
      assert (calls + later)[1..] == calls[1..] + later;
    } else if calls != [] {
      assert (calls + later)[0] == calls[0];
    }
  }

  /**
   * SelectFuncIMP on the in-place buffer `sets`: each call overwrites the
   * buffer with what it leaves marked, and an interrupted call recurses on
   * the buffer as it now stands.
   */
  method SelectFunc(sets: array<set<int>>, calls: seq<SelectCall>) returns (w: WaitResult)
    requires sets.Length == 3
    modifies sets
    ensures w == Wait(old(sets[..]), calls)
    ensures w.Woke? ==> sets[..] == w.ready
    decreases |calls|
  {
    if calls == [] {
      return Blocked;
    }
    var marks := calls[0].marks;
    sets[0], sets[1], sets[2] := sets[0] * marks[0], sets[1] * marks[1], sets[2] * marks[2];
    assert sets[..] == Masked(old(sets[..]), marks);
    match calls[0].ret {
      case Success =>
        w := Woke(sets[..], calls[1..]);
      case Failure(EINTR) =>
        w := SelectFunc(sets, calls[1..]);
      case Failure(EAGAIN) =>
        w := WaitFailed(SelectAllocation);
      case Failure(EBADF) =>
        w := WaitFailed(SelectInvalidFD);
      case Failure(OtherErrno) =>
        w := Woke(sets[..], calls[1..]);
    }
  }
}
