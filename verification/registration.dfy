/**
 * The registration tables and the effect of Add and Remove on them, stated
 * as pure functions over the three tables. The class in module Reactor
 * performs the same updates in place and is proved against these.
 */
module Registration {
  import opened ReactorTypes
  import opened DescriptorSets

  /** A descriptor Add accepts: inside the range and open per the probe. */
  predicate ValidFD(fd: int, fdOpen: bool)
  {
    0 <= fd < Limit && fdOpen
  }

  /** Every registered descriptor lies in [0, Limit). */
  predicate KeysInRange(table: Table)
  {
    forall fd :: fd in table ==> 0 <= fd < Limit
  }

  /** The invariant Add and Remove keep on all three tables. */
  predicate WellFormed(t: Tables)
  {
    KeysInRange(t[0]) && KeysInRange(t[1]) && KeysInRange(t[2])
  }

  /** The tables with `table` stored for category `usage` and the others untouched. */
  function Replace(t: Tables, usage: Usage, table: Table): (r: Tables)
    ensures r[usage.Index()] == table
    ensures forall i :: 0 <= i < 3 && i != usage.Index() ==> r[i] == t[i]
  {
    t[usage.Index() := table]
  }

  /**
   * Add: the descriptor check, then the capacity check, then the duplicate
   * check; the first that fails decides the error and nothing changes. On
   * success exactly the pair fd to callback is inserted in that category.
   */
  function TryAdd(t: Tables, fd: int, usage: Usage, fdOpen: bool, callback: CallbackId): (r: Result<Tables>)
    ensures r == Err(NonValidFD) <==> !ValidFD(fd, fdOpen)
    ensures r == Err(FDsOverflow) <==> ValidFD(fd, fdOpen) && |t[usage.Index()]| == Limit
    ensures r == Err(RepeatingFD) <==>
              ValidFD(fd, fdOpen) && |t[usage.Index()]| != Limit && fd in t[usage.Index()]
    ensures r.Err? ==> r.error in {NonValidFD, FDsOverflow, RepeatingFD}
    ensures r.Ok? ==> fd !in t[usage.Index()] && r.value == Replace(t, usage, t[usage.Index()][fd := callback])
    ensures r.Ok? && WellFormed(t) ==> WellFormed(r.value)
  {
    var table := t[usage.Index()];
    if fd < 0 || Limit <= fd || !fdOpen then Err(NonValidFD)
    else if |table| == Limit then Err(FDsOverflow)
    else if fd in table then Err(RepeatingFD)
    else Ok(Replace(t, usage, table[fd := callback]))
  }

  /**
   * Remove: fails when the pair is not registered; otherwise erases that one
   * key from that one category.
   */
  function TryRemove(t: Tables, fd: int, usage: Usage): (r: Result<Tables>)
    ensures r.Err? <==> fd !in t[usage.Index()]
    ensures r.Err? ==> r.error == RemovingNonExistingFD
    ensures r.Ok? ==> r.value == Replace(t, usage, t[usage.Index()] - {fd})
    ensures r.Ok? ==> r.value[usage.Index()].Keys == t[usage.Index()].Keys - {fd}
    ensures r.Ok? && WellFormed(t) ==> WellFormed(r.value)
  {
    var table := t[usage.Index()];
    if fd !in table then Err(RemovingNonExistingFD)
    else Ok(Replace(t, usage, table - {fd}))
  }

  /** A table whose keys are in range never holds more than Limit entries. */
  lemma TableSizeBounded(table: Table)
    requires KeysInRange(table)
    ensures |table| <= Limit
  {
    BoundedSize(table.Keys, Limit);
  }

  /**
   * A category holding Limit entries already holds every valid descriptor,
   * so the capacity check of Add only ever rejects a descriptor the
   * duplicate check would have rejected too.
   */
  lemma FullTableHoldsEveryDescriptor(table: Table, fd: int)
    requires KeysInRange(table)
    requires |table| == Limit
    requires 0 <= fd < Limit
    ensures fd in table
  {
    BoundedAndFull(table.Keys, Limit, fd);
  }

  /** Add of a valid descriptor never reports a clash that is not real. */
  lemma OverflowOnlyForRegistered(t: Tables, fd: int, usage: Usage, fdOpen: bool, callback: CallbackId)
    requires WellFormed(t)
    requires TryAdd(t, fd, usage, fdOpen, callback) == Err(FDsOverflow)
    ensures fd in t[usage.Index()]
  {
    FullTableHoldsEveryDescriptor(t[usage.Index()], fd);
  }

  /**
   * A second Add of the same pair is refused and the callback registered
   * first stays; the refusal is RepeatingFD unless that first Add filled the
   * category, in which case the capacity check, coming first, reports it.
   */
  lemma DuplicateKeepsOriginal(t: Tables, fd: int, usage: Usage, fdOpen: bool, cb1: CallbackId, cb2: CallbackId)
    requires TryAdd(t, fd, usage, fdOpen, cb1).Ok?
    ensures var t1 := TryAdd(t, fd, usage, fdOpen, cb1).value;
            var second := TryAdd(t1, fd, usage, fdOpen, cb2);
            second.Err? && t1[usage.Index()][fd] == cb1 &&
            (|t[usage.Index()]| + 1 < Limit ==> second == Err(RepeatingFD)) &&
            (|t[usage.Index()]| + 1 == Limit ==> second == Err(FDsOverflow))
  {
    var t1 := TryAdd(t, fd, usage, fdOpen, cb1).value;
    assert |t1[usage.Index()]| == |t[usage.Index()]| + 1;
  }

  /** Remove undoes a successful Add. */
  lemma AddThenRemove(t: Tables, fd: int, usage: Usage, fdOpen: bool, callback: CallbackId)
    requires TryAdd(t, fd, usage, fdOpen, callback).Ok?
    ensures TryRemove(TryAdd(t, fd, usage, fdOpen, callback).value, fd, usage) == Ok(t)
  {
    var i := usage.Index();
    var t1 := TryAdd(t, fd, usage, fdOpen, callback).value;
    assert t1[i] - {fd} == t[i];
    assert Replace(t1, usage, t1[i] - {fd}) == t;
  }

  /**
   * Removing a registered pair and adding it back with the same callback
   * succeeds and restores the tables: Remove leaves no residue.
   */
  lemma RemoveThenAdd(t: Tables, fd: int, usage: Usage)
    requires WellFormed(t)
    requires fd in t[usage.Index()]
    ensures TryRemove(t, fd, usage).Ok?
    ensures TryAdd(TryRemove(t, fd, usage).value, fd, usage, true, t[usage.Index()][fd]) == Ok(t)
  {
    var i := usage.Index();
    var t1 := TryRemove(t, fd, usage).value;
    TableSizeBounded(t[i]);
    assert |t1[i]| == |t[i]| - 1;
    assert t1[i][fd := t[i][fd]] == t[i];
    assert Replace(t1, usage, t1[i][fd := t[i][fd]]) == t;
  }

  /** Adds, one after the other, of open descriptors to one category; the first failure stops. */
  function AddEach(t: Tables, usage: Usage, fds: seq<int>, callback: CallbackId): Result<Tables>
    decreases |fds|
  {
    if fds == [] then Ok(t)
    else match TryAdd(t, fds[0], usage, true, callback)
      case Err(e) => Err(e)
      case Ok(t1) => AddEach(t1, usage, fds[1..], callback)
  }

  /** Distinct, in-range descriptors. */
  predicate DistinctValid(fds: seq<int>)
  {
    (forall k :: 0 <= k < |fds| ==> 0 <= fds[k] < Limit) &&
    (forall j, k :: 0 <= j < k < |fds| ==> fds[j] != fds[k])
  }

  /**
   * Adding distinct fresh descriptors while room remains succeeds each time,
   * and the category then holds exactly those descriptors in addition.
   */
  lemma {:induction false} DistinctAddsSucceed(t: Tables, usage: Usage, fds: seq<int>, callback: CallbackId)
    requires WellFormed(t)
    requires DistinctValid(fds)
    requires forall k :: 0 <= k < |fds| ==> fds[k] !in t[usage.Index()]
    requires |t[usage.Index()]| + |fds| <= Limit
    ensures AddEach(t, usage, fds, callback).Ok?
    ensures var r := AddEach(t, usage, fds, callback).value;
            WellFormed(r) && |r[usage.Index()]| == |t[usage.Index()]| + |fds| &&
            (forall k :: 0 <= k < |fds| ==> fds[k] in r[usage.Index()])
    decreases |fds|
  {
    if fds != [] {
      var i := usage.Index();
      var t1 := TryAdd(t, fds[0], usage, true, callback).value;
      assert |t1[i]| == |t[i]| + 1;
      forall k | 0 <= k < |fds[1..]|
        ensures fds[1..][k] !in t1[i]
      {
        assert fds[1..][k] == fds[k + 1] != fds[0];
      }
      DistinctAddsSucceed(t1, usage, fds[1..], callback);
      var r := AddEach(t1, usage, fds[1..], callback).value;
      forall k | 0 <= k < |fds|
        ensures fds[k] in r[i]
      {
        if k > 0 {
          assert fds[k] == fds[1..][k - 1];
        } else {
          // fds[0] entered t1 and is never removed by later adds
          AddEachKeeps(t1, usage, fds[1..], callback, fds[0]);
        }
      }
    }
  }

  /** Successful adds never lose a registered descriptor. */
  lemma {:induction false} AddEachKeeps(t: Tables, usage: Usage, fds: seq<int>, callback: CallbackId, fd: int)
    requires AddEach(t, usage, fds, callback).Ok?
    requires fd in t[usage.Index()]
    ensures fd in AddEach(t, usage, fds, callback).value[usage.Index()]
    decreases |fds|
  {
    if fds != [] {
      var t1 := TryAdd(t, fds[0], usage, true, callback).value;
      AddEachKeeps(t1, usage, fds[1..], callback, fd);
    }
  }

  /**
   * Registering Limit distinct descriptors in an empty category succeeds,
   * and the next Add of any valid descriptor there fails with FDsOverflow.
   */
  lemma FillThenOverflow(t: Tables, usage: Usage, fds: seq<int>, callback: CallbackId, fd: int, fdOpen: bool)
    requires WellFormed(t)
    requires t[usage.Index()] == map[]
    requires DistinctValid(fds) && |fds| == Limit
    requires ValidFD(fd, fdOpen)
    ensures AddEach(t, usage, fds, callback).Ok?
    ensures TryAdd(AddEach(t, usage, fds, callback).value, fd, usage, fdOpen, callback) == Err(FDsOverflow)
  {
    DistinctAddsSucceed(t, usage, fds, callback);
  }
}
