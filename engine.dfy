/** The specification of popup.js `toggleExtensionsWithRetry`: the ids are
    taken in slices of two; an id missing from the registry is skipped; a
    present one is tried up to `maxRetries` times with a growing wait after
    each failed try but the last; an id whose tries all fail is written to the
    failure journal; and a pause separates consecutive slices. Host calls and
    waits are recorded as a trace of effects. Within a slice the ids are
    taken one after the other, in input order, which is also the order in
    which `Promise.all` lists their results. */
module ToggleEngine {
  import opened Types
  import opened Dicts
  import opened Seqs
  import opened Journal

  const BatchSize: nat := 2
  const BatchDelay: nat := 100
  const DefaultRetries: nat := 3

  /** What the engine does besides computing results: a setEnabled call (with
      its 0-based attempt number), a wait before retrying an id, a pause between slices. */
  datatype Effect =
    | SetEnabledCall(extId: ExtId, enable: bool, attempt: nat)
    | Backoff(extId: ExtId, ms: nat)
    | BatchPause(ms: nat)

  predicate IsCall(e: Effect) { e.SetEnabledCall? }
  predicate IsBackoff(e: Effect) { e.Backoff? }
  predicate IsPause(e: Effect) { e.BatchPause? }

  /** `{extId, success, error, skipped}`; `error` is absent on success. */
  datatype ToggleResult = ToggleResult(extId: ExtId, success: bool, skipped: bool, error: Option<HostError>)

  /** `new Error('Extension not found')` */
  const NotFound: HostError := HostError("Extension not found", None)

  /** The `toggleGroup` failure filter: `!r.success && !r.skipped`. */
  predicate Failure(r: ToggleResult) { !r.success && !r.skipped }

  // ---------------------------------------------------------------- one id

  /** The retry loop from attempt `attempt` on: whether some try succeeded, the
      last error seen (`lastError`), and the effects issued. */
  datatype Attempts = Attempts(succeeded: bool, lastError: Option<HostError>, trace: seq<Effect>)

  function Attempt(host: HostOracle, id: ExtId, enable: bool, attempt: nat, max: nat, last: Option<HostError>): (a: Attempts)
    ensures !a.succeeded && attempt < max ==> a.lastError.Some?
    ensures a.succeeded ==> attempt < max
    decreases max - attempt
  {
    if attempt >= max then Attempts(false, last, [])
    else
      match host(id, enable, attempt)
      case Done => Attempts(true, None, [SetEnabledCall(id, enable, attempt)])
      case Failed(e) =>
        var rest := Attempt(host, id, enable, attempt + 1, max, Some(e));
        Attempts(rest.succeeded, rest.lastError,
          [SetEnabledCall(id, enable, attempt)]
          + (if attempt < max - 1 then [Backoff(id, (attempt + 1) * 100)] else [])
          + rest.trace)
  }

  /** The result and effects of the per-id callback. */
  datatype Outcome = Outcome(result: ToggleResult, trace: seq<Effect>)

  function OutcomeOf(reg: Registry, host: HostOracle, id: ExtId, enable: bool, max: nat): (o: Outcome)
    requires max >= 1
    ensures o.result.extId == id
    ensures o.result.skipped <==> id !in reg.items
    ensures o.result.skipped ==> !o.result.success && o.result.error == Some(NotFound) && o.trace == []
    ensures o.result.success ==> o.result.error == None
    ensures Failure(o.result) ==> o.result.error.Some?
  {
    if id !in reg.items then Outcome(ToggleResult(id, false, true, Some(NotFound)), [])
    else
      var a := Attempt(host, id, enable, 0, max, None);
      if a.succeeded then Outcome(ToggleResult(id, true, false, None), a.trace)
      else Outcome(ToggleResult(id, false, false, a.lastError), a.trace)
  }

  // ---------------------------------------------------------------- the whole run

  /** The results so far, the effects so far, and the journal. */
  datatype Run = Run(results: seq<ToggleResult>, trace: seq<Effect>, journal: seq<FailureEntry>)

  /** The pause issued before the id at position `k`: one before each slice but the first. */
  function PauseBefore(k: nat): seq<Effect> {
    if k % BatchSize == 0 && k > 0 then [BatchPause(BatchDelay)] else []
  }

  /** The run over `ids`, defined one id at a time from the left, starting from
      the journal `journal0`; `stamp` is the time written into journal entries. */
  function RunOf(reg: Registry, host: HostOracle, ids: seq<ExtId>, enable: bool, max: nat,
                 journal0: seq<FailureEntry>, stamp: string): (r: Run)
    requires max >= 1
    ensures |r.results| == |ids|
    decreases |ids|
  {
    if ids == [] then Run([], [], journal0)
    else
      var k := |ids| - 1;
      var prev := RunOf(reg, host, ids[..k], enable, max, journal0, stamp);
      var o := OutcomeOf(reg, host, ids[k], enable, max);
      Run(prev.results + [o.result],
          prev.trace + PauseBefore(k) + o.trace,
          if Failure(o.result) then Record(prev.journal, EntryFor(reg, ids[k], enable, o.result.error.value, stamp))
          else prev.journal)
  }

  /** There is one result per input id, in input order, each being that id's outcome. */
  lemma {:induction false} RunResults(reg: Registry, host: HostOracle, ids: seq<ExtId>, enable: bool, max: nat,
                                      journal0: seq<FailureEntry>, stamp: string)
    requires max >= 1
    ensures var r := RunOf(reg, host, ids, enable, max, journal0, stamp);
      forall i :: 0 <= i < |ids| ==>
        r.results[i] == OutcomeOf(reg, host, ids[i], enable, max).result && r.results[i].extId == ids[i]
    decreases |ids|
  {
    if ids != [] {
      var k := |ids| - 1;
      RunResults(reg, host, ids[..k], enable, max, journal0, stamp);
    }
  }

  // ---------------------------------------------------------------- the retry schedule

  /** The first attempt number from `from` on that the host accepts, or `max` if none. */
  function FirstDone(host: HostOracle, id: ExtId, enable: bool, from: nat, max: nat): (f: nat)
    decreases max - from
  {
    if from >= max then max
    else if host(id, enable, from).Done? then from
    else FirstDone(host, id, enable, from + 1, max)
  }

  /** Calls numbered `j` to `m - 1`, each but the last followed by a wait of
      `(attempt + 1) * 100` ms. */
  function Schedule(id: ExtId, enable: bool, j: nat, m: nat): seq<Effect>
    decreases m - j
  {
    if j >= m then []
    else [SetEnabledCall(id, enable, j)]
         + (if j + 1 < m then [Backoff(id, (j + 1) * 100)] else [])
         + Schedule(id, enable, j + 1, m)
  }

  /** The number of tries an id gets: up to and including the first accepted one, at most `max`. */
  function TriesUsed(host: HostOracle, id: ExtId, enable: bool, max: nat): nat
  {
    var f := FirstDone(host, id, enable, 0, max);
    if f < max then f + 1 else max
  }

  /** The retry loop stops at the first accepted try and is attempted again up
      to `max` times otherwise; its effects follow the schedule; when every try
      fails it keeps the error of the last one. */
  lemma {:induction false} AttemptSchedule(host: HostOracle, id: ExtId, enable: bool, j: nat, max: nat, last: Option<HostError>)
    requires j <= max
    ensures var a := Attempt(host, id, enable, j, max, last);
      var f := FirstDone(host, id, enable, j, max);
      && j <= f <= max
      && (forall k :: j <= k < f ==> host(id, enable, k).Failed?)
      && (f < max ==> host(id, enable, f).Done?)
      && (a.succeeded <==> f < max)
      && a.trace == Schedule(id, enable, j, if f < max then f + 1 else max)
      && (!a.succeeded && j < max ==> a.lastError == Some(host(id, enable, max - 1).error))
    decreases max - j
  {
    if j < max && host(id, enable, j).Failed? {
      AttemptSchedule(host, id, enable, j + 1, max, Some(host(id, enable, j).error));
    }
  }

  /** The calls `j, j+1, ..., m-1` for one id. */
  function CallsFrom(id: ExtId, enable: bool, j: nat, m: nat): seq<Effect>
    decreases m - j
  {
    if j >= m then [] else [SetEnabledCall(id, enable, j)] + CallsFrom(id, enable, j + 1, m)
  }

  /** There are `m - j` of them and the `i`-th has attempt number `j + i`. */
  lemma {:induction false} CallsFromFacts(id: ExtId, enable: bool, j: nat, m: nat)
    ensures var r := CallsFrom(id, enable, j, m);
      |r| == (if j <= m then m - j else 0) &&
      forall i :: 0 <= i < |r| ==> r[i] == SetEnabledCall(id, enable, j + i)
    decreases m - j
  {
    if j < m { CallsFromFacts(id, enable, j + 1, m); }
  }

  /** The waits `(j+1)*100, ..., (m-1)*100` ms for one id. */
  function WaitsFrom(id: ExtId, j: nat, m: nat): (r: seq<Effect>)
    ensures |r| == if j < m then m - j - 1 else 0
    ensures forall i :: 0 <= i < |r| ==> r[i] == Backoff(id, (j + i + 1) * 100)
    decreases m - j
  {
    if j + 1 >= m then [] else [Backoff(id, (j + 1) * 100)] + WaitsFrom(id, j + 1, m)
  }

  /** The schedule from `j` to `m` makes exactly the calls `j, ..., m-1`, in order. */
  lemma {:induction false} ScheduleCalls(id: ExtId, enable: bool, j: nat, m: nat)
    ensures Filter(Schedule(id, enable, j, m), IsCall) == CallsFrom(id, enable, j, m)
    decreases m - j
  {
    if j < m {
      var head := [SetEnabledCall(id, enable, j)];
      var wait: seq<Effect> := if j + 1 < m then [Backoff(id, (j + 1) * 100)] else [];
      var rest := Schedule(id, enable, j + 1, m);
      assert Schedule(id, enable, j, m) == head + (wait + rest);
      ScheduleCalls(id, enable, j + 1, m);
      FilterAppend(head, wait + rest, IsCall);
      FilterAppend(wait, rest, IsCall);
      assert Filter(head, IsCall) == head;
      assert Filter(wait, IsCall) == [];
      assert [] + Filter(rest, IsCall) == Filter(rest, IsCall);
    }
  }

  /** Between consecutive calls there is one wait, and the waits grow:
      100 ms after the first try, 200 ms after the second, and so on. */
  lemma {:induction false} ScheduleWaits(id: ExtId, enable: bool, j: nat, m: nat)
    ensures Filter(Schedule(id, enable, j, m), IsBackoff) == WaitsFrom(id, j, m)
    decreases m - j
  {
    if j < m {
      var head := [SetEnabledCall(id, enable, j)];
      var wait: seq<Effect> := if j + 1 < m then [Backoff(id, (j + 1) * 100)] else [];
      var rest := Schedule(id, enable, j + 1, m);
      assert Schedule(id, enable, j, m) == head + (wait + rest);
      ScheduleWaits(id, enable, j + 1, m);
      FilterAppend(head, wait + rest, IsBackoff);
      FilterAppend(wait, rest, IsBackoff);
      assert Filter(head, IsBackoff) == [];
      if j + 1 == m { assert rest == []; }
    }
  }

  /** A schedule never pauses. */
  lemma {:induction false} ScheduleNoPause(id: ExtId, enable: bool, j: nat, m: nat)
    ensures Count(Schedule(id, enable, j, m), IsPause) == 0
    decreases m - j
  {
    if j < m {
      var head := [SetEnabledCall(id, enable, j)];
      var wait: seq<Effect> := if j + 1 < m then [Backoff(id, (j + 1) * 100)] else [];
      var rest := Schedule(id, enable, j + 1, m);
      assert Schedule(id, enable, j, m) == head + (wait + rest);
      ScheduleNoPause(id, enable, j + 1, m);
      FilterAppend(head, wait + rest, IsPause);
      FilterAppend(wait, rest, IsPause);
    }
  }

  /** A present id gets between 1 and `max` calls, numbered consecutively from
      0, the last being the first one accepted if any is; a skipped id gets none. */
  lemma OutcomeTrace(reg: Registry, host: HostOracle, id: ExtId, enable: bool, max: nat)
    requires max >= 1
    ensures var o := OutcomeOf(reg, host, id, enable, max);
      var n := TriesUsed(host, id, enable, max);
      && 1 <= n <= max
      && (id in reg.items ==> o.trace == Schedule(id, enable, 0, n))
      && (id !in reg.items ==> o.trace == [])
      && (id in reg.items ==> (o.result.success <==> host(id, enable, n - 1).Done?))
      && (forall k :: 0 <= k < n - 1 ==> host(id, enable, k).Failed?)
  {
    AttemptSchedule(host, id, enable, 0, max, None);
  }

  /** An id ends as a failure exactly when it is present and all `max` tries
      fail; the result then carries the last try's error. */
  lemma ExhaustedIff(reg: Registry, host: HostOracle, id: ExtId, enable: bool, max: nat)
    requires max >= 1
    ensures var o := OutcomeOf(reg, host, id, enable, max);
      && (Failure(o.result) <==> id in reg.items && forall k :: 0 <= k < max ==> host(id, enable, k).Failed?)
      && (Failure(o.result) ==> o.result.error == Some(host(id, enable, max - 1).error))
  {
    AttemptSchedule(host, id, enable, 0, max, None);
    var f := FirstDone(host, id, enable, 0, max);
    if f < max { assert host(id, enable, f).Done?; }
  }

  /** A host that accepts the first try costs one call and no wait. */
  lemma ReliableHost(reg: Registry, host: HostOracle, id: ExtId, enable: bool, max: nat)
    requires max >= 1 && id in reg.items && host(id, enable, 0).Done?
    ensures OutcomeOf(reg, host, id, enable, max) ==
      Outcome(ToggleResult(id, true, false, None), [SetEnabledCall(id, enable, 0)])
  {
  }

  // ---------------------------------------------------------------- run-wide effects

  /** Every call in a run is for an input id that is present in the registry. */
  lemma {:induction false} RunCallsOnlyPresent(reg: Registry, host: HostOracle, ids: seq<ExtId>, enable: bool, max: nat,
                                               journal0: seq<FailureEntry>, stamp: string)
    requires max >= 1
    ensures forall e :: e in RunOf(reg, host, ids, enable, max, journal0, stamp).trace && e.SetEnabledCall? ==>
      e.extId in reg.items && e.extId in ids && e.enable == enable
    decreases |ids|
  {
    if ids != [] {
      var k := |ids| - 1;
      RunCallsOnlyPresent(reg, host, ids[..k], enable, max, journal0, stamp);
      var o := OutcomeOf(reg, host, ids[k], enable, max);
      if ids[k] in reg.items {
        OutcomeTrace(reg, host, ids[k], enable, max);
        ScheduleFor(ids[k], enable, 0, TriesUsed(host, ids[k], enable, max));
      }
      assert forall x :: x in ids[..k] ==> x in ids;
    }
  }

  /** Every effect of a schedule is about its own id and target state. */
  lemma {:induction false} ScheduleFor(id: ExtId, enable: bool, j: nat, m: nat)
    ensures forall e :: e in Schedule(id, enable, j, m) ==>
      (e.SetEnabledCall? && e.extId == id && e.enable == enable) || (e.Backoff? && e.extId == id)
    decreases m - j
  {
    if j < m { ScheduleFor(id, enable, j + 1, m); }
  }

  /** A run over `n > 0` ids pauses `(n - 1) / 2` times: once between each two slices. */
  lemma {:induction false} RunPauses(reg: Registry, host: HostOracle, ids: seq<ExtId>, enable: bool, max: nat,
                                     journal0: seq<FailureEntry>, stamp: string)
    requires max >= 1
    ensures Count(RunOf(reg, host, ids, enable, max, journal0, stamp).trace, IsPause) ==
      if ids == [] then 0 else (|ids| - 1) / BatchSize
    decreases |ids|
  {
    if ids != [] {
      var k := |ids| - 1;
      var prev := RunOf(reg, host, ids[..k], enable, max, journal0, stamp);
      var o := OutcomeOf(reg, host, ids[k], enable, max);
      RunPauses(reg, host, ids[..k], enable, max, journal0, stamp);
      OutcomeTrace(reg, host, ids[k], enable, max);
      ScheduleNoPause(ids[k], enable, 0, TriesUsed(host, ids[k], enable, max));
      FilterAppend(prev.trace + PauseBefore(k), o.trace, IsPause);
      FilterAppend(prev.trace, PauseBefore(k), IsPause);
      PauseCount(k);
    }
  }

  /** The pauses before positions `0..k` number `k / 2`. */
  lemma PauseCount(k: nat)
    ensures (if k == 0 then 0 else (k - 1) / BatchSize) + Count(PauseBefore(k), IsPause) == k / BatchSize
  {
    if k % BatchSize == 0 && k > 0 {
      assert Count([BatchPause(BatchDelay)], IsPause) == 1;
    } else {
      assert Count(PauseBefore(k), IsPause) == 0;
    }
  }

  // ---------------------------------------------------------------- the journal

  /** The journal entries a run appends: one per failed id, in input order. */
  function FailedEntries(reg: Registry, host: HostOracle, ids: seq<ExtId>, enable: bool, max: nat, stamp: string): seq<FailureEntry>
    requires max >= 1
    decreases |ids|
  {
    if ids == [] then []
    else
      var k := |ids| - 1;
      var o := OutcomeOf(reg, host, ids[k], enable, max);
      FailedEntries(reg, host, ids[..k], enable, max, stamp)
        + (if Failure(o.result) then [EntryFor(reg, ids[k], enable, o.result.error.value, stamp)] else [])
  }

  /** The journal after a run is the newest fifty of the old journal followed
      by one entry per failed id. */
  lemma {:induction false} RunJournal(reg: Registry, host: HostOracle, ids: seq<ExtId>, enable: bool, max: nat,
                                      journal0: seq<FailureEntry>, stamp: string)
    requires max >= 1 && |journal0| <= Capacity
    ensures RunOf(reg, host, ids, enable, max, journal0, stamp).journal ==
      Last(journal0 + FailedEntries(reg, host, ids, enable, max, stamp), Capacity)
    decreases |ids|
  {
    if ids != [] {
      var k := |ids| - 1;
      var o := OutcomeOf(reg, host, ids[k], enable, max);
      RunJournal(reg, host, ids[..k], enable, max, journal0, stamp);
      var fe := FailedEntries(reg, host, ids[..k], enable, max, stamp);
      if Failure(o.result) {
        var e := EntryFor(reg, ids[k], enable, o.result.error.value, stamp);
        LastConcat(journal0 + fe, [e], Capacity);
        assert journal0 + fe + [e] == journal0 + (fe + [e]);
      } else {
        assert fe + [] == fe;
      }
    } else {
      assert journal0 + [] == journal0;
    }
  }

  /** A run appends exactly one journal entry per failure result. */
  lemma {:induction false} RunJournalCount(reg: Registry, host: HostOracle, ids: seq<ExtId>, enable: bool, max: nat,
                                           journal0: seq<FailureEntry>, stamp: string)
    requires max >= 1
    ensures |FailedEntries(reg, host, ids, enable, max, stamp)| ==
      Count(RunOf(reg, host, ids, enable, max, journal0, stamp).results, Failure)
    decreases |ids|
  {
    if ids != [] {
      var k := |ids| - 1;
      var prev := RunOf(reg, host, ids[..k], enable, max, journal0, stamp);
      var o := OutcomeOf(reg, host, ids[k], enable, max);
      RunJournalCount(reg, host, ids[..k], enable, max, journal0, stamp);
      FilterAppend(prev.results, [o.result], Failure);
    }
  }

  /** Extending the ids by one runs the new id after the others. */
  lemma RunSnoc(reg: Registry, host: HostOracle, ids: seq<ExtId>, x: ExtId, enable: bool, max: nat,
                journal0: seq<FailureEntry>, stamp: string)
    requires max >= 1
    ensures var prev := RunOf(reg, host, ids, enable, max, journal0, stamp);
      var o := OutcomeOf(reg, host, x, enable, max);
      RunOf(reg, host, ids + [x], enable, max, journal0, stamp) ==
        Run(prev.results + [o.result],
            prev.trace + PauseBefore(|ids|) + o.trace,
            if Failure(o.result) then Record(prev.journal, EntryFor(reg, x, enable, o.result.error.value, stamp))
            else prev.journal)
  {
    assert (ids + [x])[..|ids|] == ids;
  }

  /** The results and the journal after one more id. */
  lemma SnocFields(reg: Registry, host: HostOracle, ids: seq<ExtId>, x: ExtId, enable: bool, max: nat,
                   journal0: seq<FailureEntry>, stamp: string)
    requires max >= 1
    ensures var prev := RunOf(reg, host, ids, enable, max, journal0, stamp);
      var o := OutcomeOf(reg, host, x, enable, max);
      var r := RunOf(reg, host, ids + [x], enable, max, journal0, stamp);
      && r.results == prev.results + [o.result]
      && r.journal == if Failure(o.result) then Record(prev.journal, EntryFor(reg, x, enable, o.result.error.value, stamp))
                      else prev.journal
  {
    RunSnoc(reg, host, ids, x, enable, max, journal0, stamp);
  }

  /** An id the host refuses every time, under the default three tries. */
  lemma RefusedThrice(reg: Registry, host: HostOracle, b: ExtId, enable: bool)
    requires b in reg.items
    requires forall k :: host(b, enable, k).Failed?
    ensures OutcomeOf(reg, host, b, enable, DefaultRetries) ==
      Outcome(ToggleResult(b, false, false, Some(host(b, enable, 2).error)),
              [SetEnabledCall(b, enable, 0), Backoff(b, 100), SetEnabledCall(b, enable, 1), Backoff(b, 200), SetEnabledCall(b, enable, 2)])
  {
    assert host(b, enable, 0).Failed? && host(b, enable, 1).Failed? && host(b, enable, 2).Failed?;
    var a2 := Attempt(host, b, enable, 2, 3, Some(host(b, enable, 1).error));
    assert a2 == Attempts(false, Some(host(b, enable, 2).error), [SetEnabledCall(b, enable, 2)]);
  }

  /** A group of three: with `b` refused every time
      and `a`, `c` accepted at once, `a` and `c` succeed, `b` fails after three
      tries, and the journal gains exactly one entry, for `b`, with target state off. */
  lemma ThreeMemberScenario(reg: Registry, host: HostOracle, a: ExtId, b: ExtId, c: ExtId,
                            journal0: seq<FailureEntry>, stamp: string)
    requires a in reg.items && b in reg.items && c in reg.items
    requires host(a, false, 0).Done? && host(c, false, 0).Done?
    requires forall k :: host(b, false, k).Failed?
    ensures var r := RunOf(reg, host, [a, b, c], false, DefaultRetries, journal0, stamp);
      && r.results[0].success && r.results[2].success
      && Failure(r.results[1]) && r.results[1].error == Some(host(b, false, 2).error)
      && OutcomeOf(reg, host, b, false, DefaultRetries).trace ==
           [SetEnabledCall(b, false, 0), Backoff(b, 100), SetEnabledCall(b, false, 1), Backoff(b, 200), SetEnabledCall(b, false, 2)]
      && r.journal == Record(journal0, EntryFor(reg, b, false, host(b, false, 2).error, stamp))
      && r.journal[|r.journal| - 1].extensionId == b && !r.journal[|r.journal| - 1].targetState
  {
    var m := DefaultRetries;
    ReliableHost(reg, host, a, false, m);
    ReliableHost(reg, host, c, false, m);
    RefusedThrice(reg, host, b, false);
    var oa := OutcomeOf(reg, host, a, false, m);
    var ob := OutcomeOf(reg, host, b, false, m);
    var oc := OutcomeOf(reg, host, c, false, m);
    var e := EntryFor(reg, b, false, host(b, false, 2).error, stamp);
    SnocFields(reg, host, [], a, false, m, journal0, stamp);
    assert [] + [a] == [a];
    var r1 := RunOf(reg, host, [a], false, m, journal0, stamp);
    assert r1.results == [oa.result] && r1.journal == journal0;
    SnocFields(reg, host, [a], b, false, m, journal0, stamp);
    assert [a] + [b] == [a, b];
    var r2 := RunOf(reg, host, [a, b], false, m, journal0, stamp);
    assert r2.results == [oa.result, ob.result] && r2.journal == Record(journal0, e);
    SnocFields(reg, host, [a, b], c, false, m, journal0, stamp);
    assert [a, b] + [c] == [a, b, c];
    var r3 := RunOf(reg, host, [a, b, c], false, m, journal0, stamp);
    assert r3.results == [oa.result, ob.result, oc.result] && r3.journal == r2.journal;
    RecordFacts(journal0, e);
  }
}
