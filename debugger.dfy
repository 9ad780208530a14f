/** The debugging page (debugger.js, class ExtensionDebugger): its log, the
    failure bookkeeping of every test toggle, the full diagnostic run with its
    restore rule, single and batch toggle tests, and the group health report.
    Each operation on the page's bookkeeping (log, failed set, toggle history)
    is a function from the bookkeeping it starts from to the one it leaves,
    and the page's methods are proved to leave exactly that. */
module Debugger {
  import opened Types
  import opened Dicts
  import opened Seqs
  import R = Registry
  import opened Diagnostics

  // ---------------------------------------------------------------- the log

  /** The `type` of a log entry. */
  datatype LogKind = Info | Success | Warning | Error

  /** The text of a log entry, by the line of the page that writes it;
      timestamps and measured times are not modelled. */
  datatype Message =
    | Loaded(count: nat)
    | LoadFailed(error: string)
    | StartingDiagnostics
    | Testing(name: string, extId: ExtId)
    | Toggled(enable: bool)
    | ToggleFailed(enable: bool, error: string)
    | InvalidExtensionId
    | TestingSingle(name: string)
    | SingleComplete(disableSuccess: bool, enableSuccess: bool)
    | InvalidBatchSize
    | TestingBatch(size: nat)
    | DisablingBatch
    | EnablingBatch
    | RestoringStates
    | BatchComplete(successes: nat, total: nat)
    | AnalyzingGroups
    | AnalyzingGroup(group: string, size: nat)
    | MemberNotFound(extId: ExtId, group: string)
    | CannotModify(name: string, reason: string)
    | KnownToFail(name: string)
    | GroupUnmodifiable(group: string, count: nat)
    | GroupProblematic(group: string, count: nat)
    | GroupHealthy(group: string)
    | AnalyzeFailed(error: string)
    | LogsCleared
    | Filtering(query: string)

  datatype LogEntry = LogEntry(message: Message, kind: LogKind)

  /** One `toggleHistory` entry (its ISO time left out). */
  datatype HistoryEntry = HistoryEntry(action: string, error: string)

  /** What `testToggle` resolves to (its measured time left out). */
  datatype ToggleOutcome = ToggleOutcome(success: bool, error: Option<string>)

  /** The page's bookkeeping: `logs`, `failedExtensions` and `toggleHistory`. */
  datatype Book = Book(logs: seq<LogEntry>, failed: set<ExtId>, history: map<ExtId, seq<HistoryEntry>>)

  /** `this.toggleHistory[id] || []` */
  function HistoryOf(history: map<ExtId, seq<HistoryEntry>>, extId: ExtId): seq<HistoryEntry> {
    if extId in history then history[extId] else []
  }

  function Action(enable: bool): string {
    if enable then "enable" else "disable"
  }

  /** The line `testToggle` logs for `reply`. */
  function ToggleEntry(enable: bool, reply: HostReply): LogEntry {
    match reply
    case Done => LogEntry(Toggled(enable), Success)
    case Failed(e) => LogEntry(ToggleFailed(enable, e.message), Error)
  }

  function OutcomeOf(reply: HostReply): (o: ToggleOutcome)
    ensures o.success <==> reply.Done?
    ensures o.error.Some? <==> reply.Failed?
  {
    match reply
    case Done => ToggleOutcome(true, None)
    case Failed(e) => ToggleOutcome(false, Some(e.message))
  }

  /** `testToggle(extId, enable)` when `setEnabled` gives `reply`. */
  function Toggle(b: Book, extId: ExtId, enable: bool, reply: HostReply): Book {
    var logs := b.logs + [ToggleEntry(enable, reply)];
    match reply
    case Done => b.(logs := logs)
    case Failed(e) =>
      Book(logs, b.failed + {extId},
           b.history[extId := HistoryOf(b.history, extId) + [HistoryEntry(Action(enable), e.message)]])
  }

  /** Every test toggle logs exactly one line. A refused one adds the id to
      the failed set and appends exactly one entry, holding the action and
      the error's message, to that id's history and to no other; a
      successful one changes neither. */
  lemma ToggleFacts(b: Book, extId: ExtId, enable: bool, reply: HostReply)
    ensures var a := Toggle(b, extId, enable, reply);
      && |a.logs| == |b.logs| + 1 && a.logs[..|b.logs|] == b.logs
      && (reply.Done? ==> a.failed == b.failed && a.history == b.history)
      && (reply.Failed? ==>
            && a.failed == b.failed + {extId}
            && HistoryOf(a.history, extId) == HistoryOf(b.history, extId)
                 + [HistoryEntry(if enable then "enable" else "disable", reply.error.message)])
      && (forall k :: k != extId ==> HistoryOf(a.history, k) == HistoryOf(b.history, k))
      && |HistoryOf(a.history, extId)| == |HistoryOf(b.history, extId)| + (if reply.Failed? then 1 else 0)
      && (extId in a.failed <==> extId in b.failed || reply.Failed?)
  {
    var a := Toggle(b, extId, enable, reply);
    assert (b.logs + [ToggleEntry(enable, reply)])[..|b.logs|] == b.logs;
  }

  // ---------------------------------------------------------------- full diagnostics

  /** A `setEnabled` call the page makes. */
  datatype SetCall = SetCall(extId: ExtId, enable: bool)

  /** The restore rule: the original state is set again exactly when it
      differs from the success of the enable test. */
  predicate Restores(ext: Extension, host: HostOracle) {
    ext.enabled != host(ext.id, true, 0).Done?
  }

  /** The entry `runFullDiagnostics` pushes for `ext`. */
  function ResultOf(ext: Extension, host: HostOracle): (r: DiagResult)
    ensures r.extension == ext
    ensures r.disableSuccess <==> host(ext.id, false, 0).Done?
    ensures r.enableSuccess <==> host(ext.id, true, 0).Done?
  {
    var d := OutcomeOf(host(ext.id, false, 0));
    var e := OutcomeOf(host(ext.id, true, 0));
    DiagResult(ext, d.success, e.success, d.error, e.error)
  }

  /** The calls one iteration makes: disable, enable and, by the restore rule,
      the original state (the second call setting it, hence index 1). */
  function ExtCalls(ext: Extension, host: HostOracle): seq<SetCall> {
    [SetCall(ext.id, false), SetCall(ext.id, true)]
    + (if Restores(ext, host) then [SetCall(ext.id, ext.enabled)] else [])
  }

  /** The bookkeeping after one iteration of the diagnostic loop. */
  function DiagnoseOne(b: Book, ext: Extension, host: HostOracle): Book {
    var b1 := b.(logs := b.logs + [LogEntry(Testing(ext.name, ext.id), Info)]);
    var b2 := Toggle(b1, ext.id, false, host(ext.id, false, 0));
    var b3 := Toggle(b2, ext.id, true, host(ext.id, true, 0));
    if Restores(ext, host) then Toggle(b3, ext.id, ext.enabled, host(ext.id, ext.enabled, 1)) else b3
  }

  function DiagnoseAll(b: Book, exts: seq<Extension>, host: HostOracle): Book {
    if exts == [] then b
    else DiagnoseOne(DiagnoseAll(b, exts[..|exts| - 1], host), exts[|exts| - 1], host)
  }

  /** One result per extension, in registry order (`results.push` in the loop). */
  function ResultsOf(exts: seq<Extension>, host: HostOracle): (rs: seq<DiagResult>)
    ensures |rs| == |exts|
    ensures forall i :: 0 <= i < |exts| ==> rs[i] == ResultOf(exts[i], host)
  {
    if exts == [] then [] else ResultsOf(exts[..|exts| - 1], host) + [ResultOf(exts[|exts| - 1], host)]
  }

  function AllCalls(exts: seq<Extension>, host: HostOracle): seq<SetCall> {
    if exts == [] then [] else AllCalls(exts[..|exts| - 1], host) + ExtCalls(exts[|exts| - 1], host)
  }

  /** Each extension is disabled, then enabled, and set back to its original
      state only when that differs from the enable test's success; so the
      last call either sets the original state or is a refused enable of an
      extension that was disabled. The extension lands in the failed set
      exactly when it was there already, one of its tests failed, or the
      restore failed; no other id is added. */
  lemma DiagnoseOneFacts(b: Book, ext: Extension, host: HostOracle)
    ensures var calls := ExtCalls(ext, host); var r := ResultOf(ext, host); var a := DiagnoseOne(b, ext, host);
      && calls[..2] == [SetCall(ext.id, false), SetCall(ext.id, true)]
      && (|calls| == 3 <==> ext.enabled != r.enableSuccess)
      && (|calls| == 3 ==> calls[2] == SetCall(ext.id, ext.enabled))
      && |calls| <= 3
      && (calls[|calls| - 1].enable == ext.enabled || (!ext.enabled && !r.enableSuccess))
      && |a.logs| == |b.logs| + 1 + |calls|
      && (ext.id in a.failed <==>
            ext.id in b.failed || TestFailed(r) || (|calls| == 3 && host(ext.id, ext.enabled, 1).Failed?))
      && a.failed - {ext.id} == b.failed - {ext.id}
  {
    var b1 := b.(logs := b.logs + [LogEntry(Testing(ext.name, ext.id), Info)]);
    var b2 := Toggle(b1, ext.id, false, host(ext.id, false, 0));
    var b3 := Toggle(b2, ext.id, true, host(ext.id, true, 0));
    ToggleFacts(b1, ext.id, false, host(ext.id, false, 0));
    ToggleFacts(b2, ext.id, true, host(ext.id, true, 0));
    if Restores(ext, host) {
      ToggleFacts(b3, ext.id, ext.enabled, host(ext.id, ext.enabled, 1));
    }
  }

  // ---------------------------------------------------------------- single and batch tests

  /** A `testSingleToggle` of the id the prompt returned (`None` when cancelled):
      toggle to the opposite state, then back to the current one. */
  function SingleBook(b: Book, reg: Registry, answer: Option<string>, host: HostOracle): Book {
    if answer.None? || answer.value == "" || answer.value !in reg.items then
      b.(logs := b.logs + [LogEntry(InvalidExtensionId, Error)])
    else
      var ext := reg.items[answer.value];
      var id := answer.value;
      var b1 := b.(logs := b.logs + [LogEntry(TestingSingle(ext.name), Info)]);
      var d := host(id, !ext.enabled, 0);
      var e := host(id, ext.enabled, 0);
      var b3 := Toggle(Toggle(b1, id, !ext.enabled, d), id, ext.enabled, e);
      b3.(logs := b3.logs + [LogEntry(SingleComplete(d.Done?, e.Done?), if d.Done? && e.Done? then Success else Error)])
  }

  /** An empty, cancelled or unknown id only logs the refusal; otherwise the
      test logs four lines, its verdict is a success exactly when both calls
      went through, and only that extension can enter the failed set. */
  lemma SingleFacts(b: Book, reg: Registry, answer: Option<string>, host: HostOracle)
    ensures var a := SingleBook(b, reg, answer, host);
      && (answer.None? || answer.value == "" || answer.value !in reg.items ==>
            a == b.(logs := b.logs + [LogEntry(InvalidExtensionId, Error)]))
      && (answer.Some? && answer.value in reg.items && answer.value != "" ==>
            var id := answer.value; var enabled := reg.items[id].enabled;
            && |a.logs| == |b.logs| + 4
            && (a.logs[|a.logs| - 1].kind == Success <==> host(id, !enabled, 0).Done? && host(id, enabled, 0).Done?)
            && a.failed - {id} == b.failed - {id}
            && (id in a.failed <==> id in b.failed || host(id, !enabled, 0).Failed? || host(id, enabled, 0).Failed?))
  {
    if answer.Some? && answer.value in reg.items && answer.value != "" {
      var id := answer.value;
      var ext := reg.items[id];
      var b1 := b.(logs := b.logs + [LogEntry(TestingSingle(ext.name), Info)]);
      ToggleFacts(b1, id, !ext.enabled, host(id, !ext.enabled, 0));
      ToggleFacts(Toggle(b1, id, !ext.enabled, host(id, !ext.enabled, 0)), id, ext.enabled, host(id, ext.enabled, 0));
    }
  }

  /** JavaScript's `parseInt`, given as a parameter: a number or `NaN`. */
  datatype Parsed = Num(n: int) | NaN

  /** The batch size `testBatchToggle` goes on with, or `None` when it logs
      "Invalid batch size". `NaN` passes the range check and slices nothing. */
  function BatchSize(answer: Option<string>, parse: string -> Parsed): Option<nat> {
    var text := if answer.None? || answer.value == "" then "5" else answer.value;
    match parse(text)
    case NaN => Some(0)
    case Num(n) => if n < 1 || n > 10 then None else Some(n)
  }

  /** A cancelled or empty answer means five; a number outside 1 to 10 is
      refused; any accepted size is at most ten; an answer that is not a
      number is accepted as an empty batch. */
  lemma BatchSizeFacts(answer: Option<string>, parse: string -> Parsed)
    ensures answer.None? || answer.value == "" ==> BatchSize(answer, parse) == BatchSize(Some("5"), parse)
    ensures BatchSize(answer, parse).Some? ==> BatchSize(answer, parse).value <= 10
    ensures var text := if answer.None? || answer.value == "" then "5" else answer.value;
      && (BatchSize(answer, parse).None? <==> parse(text).Num? && (parse(text).n < 1 || parse(text).n > 10))
      && (parse(text).NaN? ==> BatchSize(answer, parse) == Some(0))
  {
  }

  /** `Object.values(this.extensions).slice(0, n)` */
  function Take(exts: seq<Extension>, n: nat): (r: seq<Extension>)
    ensures |r| == if |exts| < n then |exts| else n
    ensures r == exts[..|r|]
  {
    if |exts| <= n then exts else exts[..n]
  }

  /** The three `Promise.all` rounds of a batch: the disable calls, the enable
      calls and the calls restoring the state saved before the test. */
  datatype Round = DisableAll | EnableAll | RestoreAll

  function Target(round: Round, ext: Extension): bool {
    match round
    case DisableAll => false
    case EnableAll => true
    case RestoreAll => ext.enabled
  }

  /** The restore is the second call that sets its target: the disable or the enable came first. */
  function CallIndex(round: Round): nat {
    if round == RestoreAll then 1 else 0
  }

  function Reply(host: HostOracle, round: Round, ext: Extension): HostReply {
    host(ext.id, Target(round, ext), CallIndex(round))
  }

  function AcceptedIn(host: HostOracle, round: Round): Extension -> bool {
    ext => Reply(host, round, ext).Done?
  }

  function RoundBook(b: Book, exts: seq<Extension>, round: Round, host: HostOracle): Book {
    if exts == [] then b
    else
      var last := exts[|exts| - 1];
      Toggle(RoundBook(b, exts[..|exts| - 1], round, host), last.id, Target(round, last), Reply(host, round, last))
  }

  /** Successful disable and enable calls; the restore round is not counted. */
  function BatchSuccesses(batch: seq<Extension>, host: HostOracle): nat {
    Count(batch, AcceptedIn(host, DisableAll)) + Count(batch, AcceptedIn(host, EnableAll))
  }

  function Logged(b: Book, entries: seq<LogEntry>): Book {
    b.(logs := b.logs + entries)
  }

  /** `testBatchToggle` with the prompt's answer, run one call at a time. */
  function BatchBook(b: Book, reg: Registry, answer: Option<string>, parse: string -> Parsed, host: HostOracle): Book
    requires reg.Valid()
  {
    match BatchSize(answer, parse)
    case None => Logged(b, [LogEntry(InvalidBatchSize, Error)])
    case Some(n) => BatchRun(b, Take(reg.Values(), n), host)
  }

  /** The batch test once the size was accepted. */
  function BatchRun(b: Book, batch: seq<Extension>, host: HostOracle): Book {
    var b0 := Logged(b, [LogEntry(TestingBatch(|batch|), Info)]);
    var b1 := Announced(b0, DisablingBatch, batch, DisableAll, host);
    var b2 := Announced(b1, EnablingBatch, batch, EnableAll, host);
    var b3 := Announced(b2, RestoringStates, batch, RestoreAll, host);
    var s := BatchSuccesses(batch, host);
    Logged(b3, [LogEntry(BatchComplete(s, |batch| + |batch|), if s == |batch| + |batch| then Success else Warning)])
  }

  /** A round after the line that announces it. */
  function Announced(b: Book, announcement: Message, batch: seq<Extension>, round: Round, host: HostOracle): Book {
    RoundBook(Logged(b, [LogEntry(announcement, Info)]), batch, round, host)
  }

  /** The success count out of `2 * |batch|` tests: it never exceeds the
      total, and reaches it exactly when every disable and every enable of
      the batch went through. */
  lemma BatchSuccessesFacts(batch: seq<Extension>, host: HostOracle)
    ensures BatchSuccesses(batch, host) <= |batch| + |batch|
    ensures BatchSuccesses(batch, host) == |batch| + |batch| <==>
      forall ext :: ext in batch ==> host(ext.id, false, 0).Done? && host(ext.id, true, 0).Done?
  {
    var p := AcceptedIn(host, DisableAll);
    var q := AcceptedIn(host, EnableAll);
    CountBound(batch, p);
    CountBound(batch, q);
    FilterAll(batch, p);
    FilterAll(batch, q);
  }

  /** A round makes one call per extension of the batch, each logging one
      line, and only ids of the batch can enter the failed set. */
  lemma {:induction false} RoundFacts(b: Book, exts: seq<Extension>, round: Round, host: HostOracle)
    ensures |RoundBook(b, exts, round, host).logs| == |b.logs| + |exts|
    ensures b.failed <= RoundBook(b, exts, round, host).failed
    ensures forall k :: k in RoundBook(b, exts, round, host).failed ==>
      k in b.failed || exists i :: 0 <= i < |exts| && exts[i].id == k && Reply(host, round, exts[i]).Failed?
  {
    if exts != [] {
      var init := exts[..|exts| - 1];
      var last := exts[|exts| - 1];
      RoundFacts(b, init, round, host);
      var prev := RoundBook(b, init, round, host);
      ToggleFacts(prev, last.id, Target(round, last), Reply(host, round, last));
      forall k | k in RoundBook(b, exts, round, host).failed
        ensures k in b.failed || exists i :: 0 <= i < |exts| && exts[i].id == k && Reply(host, round, exts[i]).Failed?
      {
        if k !in b.failed {
          if k in prev.failed {
            var i :| 0 <= i < |init| && init[i].id == k && Reply(host, round, init[i]).Failed?;
            assert exts[i] == init[i];
          } else {
            assert exts[|exts| - 1].id == k;
          }
        }
      }
    }
  }

  // ---------------------------------------------------------------- group health

  /** The line, if any, `analyzeGroups` logs for one member of group `group`. */
  function MemberEntry(extId: ExtId, group: string, reg: Registry, failed: set<ExtId>): seq<LogEntry> {
    if extId !in reg.items then [LogEntry(MemberNotFound(extId, group), Warning)]
    else
      var ext := reg.items[extId];
      if Unchangeable(ext) then [LogEntry(CannotModify(ext.name, ext.disabledReason.value), Error)]
      else if extId in failed then [LogEntry(KnownToFail(ext.name), Error)]
      else []
  }

  function MemberEntries(members: seq<ExtId>, group: string, reg: Registry, failed: set<ExtId>): seq<LogEntry> {
    if members == [] then []
    else MemberEntries(members[..|members| - 1], group, reg, failed) + MemberEntry(members[|members| - 1], group, reg, failed)
  }

  /** The verdict lines after a group's members. */
  function SummaryEntries(group: string, h: Health): seq<LogEntry> {
    (if h.unmodifiableCount > 0 then [LogEntry(GroupUnmodifiable(group, h.unmodifiableCount), Error)] else [])
    + (if h.failCount > 0 then [LogEntry(GroupProblematic(group, h.failCount), Warning)] else [])
    + (if Healthy(h) then [LogEntry(GroupHealthy(group), Success)] else [])
  }

  /** Everything `analyzeGroups` logs for one group. */
  function GroupEntries(g: Group, reg: Registry, failed: set<ExtId>): seq<LogEntry> {
    [LogEntry(AnalyzingGroup(g.name, |g.extensions|), Info)]
    + MemberEntries(g.extensions, g.name, reg, failed)
    + SummaryEntries(g.name, HealthOf(g.extensions, reg, failed))
  }

  function GroupsEntries(gs: seq<Group>, reg: Registry, failed: set<ExtId>): seq<LogEntry> {
    if gs == [] then [] else GroupsEntries(gs[..|gs| - 1], reg, failed) + GroupEntries(gs[|gs| - 1], reg, failed)
  }

  /** Stored groups, when there are any, are a well-formed dictionary. */
  ghost predicate StoredValid(read: GroupsRead) {
    read.Read? && read.groups.Some? ==> read.groups.value.Valid()
  }

  /** Everything `analyzeGroups` logs, given what the storage read returned. */
  function AnalyzeGroupsLog(read: GroupsRead, reg: Registry, failed: set<ExtId>): seq<LogEntry>
    requires StoredValid(read)
  {
    match read
    case ReadFailed(message) => [LogEntry(AnalyzeFailed(message), Error)]
    case Read(groups) =>
      var gs := groups.GetOr(Empty());
      [LogEntry(AnalyzingGroups, Info)] + GroupsEntries(gs.Values(), reg, failed)
  }

  /** A group's report ends with "appears healthy" exactly when none of its
      members is unmodifiable or known to fail, and then it has no other
      verdict line; otherwise it has one verdict line per non-zero count. */
  lemma SummaryFacts(group: string, h: Health)
    ensures var s := SummaryEntries(group, h);
      && (s != [] && s[|s| - 1] == LogEntry(GroupHealthy(group), Success) <==> Healthy(h))
      && (Healthy(h) ==> s == [LogEntry(GroupHealthy(group), Success)])
      && (!Healthy(h) ==> |s| == (if h.unmodifiableCount > 0 then 1 else 0) + (if h.failCount > 0 then 1 else 0))
  {
  }

  /** A member logs a line unless it is in the registry, modifiable and not
      known to fail; those lines are the member lines of the report, in order. */
  lemma {:induction false} MemberEntriesFacts(members: seq<ExtId>, group: string, reg: Registry, failed: set<ExtId>)
    ensures |MemberEntries(members, group, reg, failed)| <= |members|
    ensures MemberEntries(members, group, reg, failed) == [] <==>
      forall i :: 0 <= i < |members| ==> StatusOf(members[i], reg, failed) == Fine
  {
    if members != [] {
      var init := members[..|members| - 1];
      MemberEntriesFacts(init, group, reg, failed);
      assert forall i :: 0 <= i < |init| ==> init[i] == members[i];
    }
  }

  /** One member further into a group. */
  lemma GroupStep(members: seq<ExtId>, j: nat, group: string, reg: Registry, failed: set<ExtId>)
    requires j < |members|
    ensures MemberEntries(members[..j + 1], group, reg, failed)
      == MemberEntries(members[..j], group, reg, failed) + MemberEntry(members[j], group, reg, failed)
    ensures HealthOf(members[..j + 1], reg, failed) == Tallied(HealthOf(members[..j], reg, failed), StatusOf(members[j], reg, failed))
  {
    assert members[..j + 1][..j] == members[..j];
  }

  // ---------------------------------------------------------------- the page

  /** The statistics `updateStats` shows. */
  datatype Stats = Stats(total: nat, enabled: nat, disabled: nat, failedToggles: nat)

  class ExtensionDebugger {
    var logs: seq<LogEntry>
    var extensions: Registry
    var failedExtensions: set<ExtId>
    var toggleHistory: map<ExtId, seq<HistoryEntry>>
    /** chrome.runtime.id */
    const selfId: ExtId

    ghost predicate Valid()
      reads this
    {
      extensions.Valid()
    }

    /** The bookkeeping the page holds. */
    function Current(): Book
      reads this
    {
      Book(logs, failedExtensions, toggleHistory)
    }

    constructor(selfId: ExtId)
      ensures Valid()
      ensures this.selfId == selfId
      ensures logs == [] && extensions == Empty() && failedExtensions == {} && toggleHistory == map[]
    {
      this.selfId := selfId;
      logs := [];
      extensions := Empty();
      failedExtensions := {};
      toggleHistory := map[];
    }

    /** `init`: the registry, then the statistics. */
    method Init(fetch: Fetch) returns (stats: Stats)
      requires Valid()
      modifies this
      ensures Valid()
      ensures extensions == if fetch.Fetched? then R.Snapshot(fetch.list, selfId) else old(extensions)
      ensures logs == old(logs) + [LoadEntry(fetch, extensions)]
      ensures failedExtensions == old(failedExtensions) && toggleHistory == old(toggleHistory)
      ensures stats == StatsOf(extensions, failedExtensions)
    {
      LoadExtensions(fetch);
      stats := UpdateStats();
    }

    /** `log(message, type)`: exactly one entry appended. */
    method Log(message: Message, kind: LogKind)
      modifies this
      ensures logs == old(logs) + [LogEntry(message, kind)]
      ensures extensions == old(extensions) && failedExtensions == old(failedExtensions)
      ensures toggleHistory == old(toggleHistory)
    {
      logs := logs + [LogEntry(message, kind)];
    }

    /** `clearLogs`: exactly the "Logs cleared" line is left. */
    method ClearLogs()
      modifies this
      ensures logs == [LogEntry(LogsCleared, Info)]
      ensures extensions == old(extensions) && failedExtensions == old(failedExtensions)
      ensures toggleHistory == old(toggleHistory)
    {
      logs := [];
      Log(LogsCleared, Info);
    }

    /** `filterExtensions(query)` only logs the query. */
    method FilterExtensions(query: string)
      modifies this
      ensures logs == old(logs) + [LogEntry(Filtering(query), Info)]
      ensures extensions == old(extensions) && failedExtensions == old(failedExtensions)
      ensures toggleHistory == old(toggleHistory)
    {
      Log(Filtering(query), Info);
    }

    /** `loadExtensions`: the shared filter, then one line with the count or the failure. */
    method LoadExtensions(fetch: Fetch)
      requires Valid()
      modifies this
      ensures Valid()
      ensures extensions == if fetch.Fetched? then R.Snapshot(fetch.list, selfId) else old(extensions)
      ensures logs == old(logs) + [LoadEntry(fetch, extensions)]
      ensures failedExtensions == old(failedExtensions) && toggleHistory == old(toggleHistory)
    {
      match fetch {
        case Fetched(list) =>
          extensions := R.Load(list, selfId);
          Log(Loaded(|extensions.keys|), Info);
        case FetchFailed(message) =>
          Log(LoadFailed(message), Error);
      }
    }

    /** `updateStats` */
    method UpdateStats() returns (stats: Stats)
      requires Valid()
      ensures stats == StatsOf(extensions, failedExtensions)
    {
      var summary := R.Summarize(extensions);
      stats := Stats(summary.total, summary.enabled, summary.total - summary.enabled, |failedExtensions|);
    }

    /** `testToggle(extId, enable)` when `setEnabled` gives `reply`. */
    method TestToggle(extId: ExtId, enable: bool, reply: HostReply) returns (outcome: ToggleOutcome)
      modifies this
      ensures Current() == Toggle(old(Current()), extId, enable, reply)
      ensures outcome == OutcomeOf(reply)
      ensures extensions == old(extensions)
    {
      match reply {
        case Done =>
          Log(Toggled(enable), Success);
          outcome := ToggleOutcome(true, None);
        case Failed(e) =>
          Log(ToggleFailed(enable, e.message), Error);
          failedExtensions := failedExtensions + {extId};
          var history := if extId in toggleHistory then toggleHistory[extId] else [];
          toggleHistory := toggleHistory[extId := history + [HistoryEntry(if enable then "enable" else "disable", e.message)]];
          outcome := ToggleOutcome(false, Some(e.message));
      }
    }

    /** One iteration of the loop of `runFullDiagnostics`. */
    method DiagnoseExtension(ext: Extension, host: HostOracle) returns (result: DiagResult, ghost calls: seq<SetCall>)
      modifies this
      ensures Current() == DiagnoseOne(old(Current()), ext, host)
      ensures result == ResultOf(ext, host)
      ensures calls == ExtCalls(ext, host)
      ensures extensions == old(extensions)
    {
      Log(Testing(ext.name, ext.id), Info);
      var disableResult := TestToggle(ext.id, false, host(ext.id, false, 0));
      var enableResult := TestToggle(ext.id, true, host(ext.id, true, 0));
      result := DiagResult(ext, disableResult.success, enableResult.success, disableResult.error, enableResult.error);
      calls := [SetCall(ext.id, false), SetCall(ext.id, true)];
      if ext.enabled != enableResult.success {
        var restored := TestToggle(ext.id, ext.enabled, host(ext.id, ext.enabled, 1));
        calls := calls + [SetCall(ext.id, ext.enabled)];
      }
    }

    /** `runFullDiagnostics`, then `analyzeResults` on what it collected. */
    method RunFullDiagnostics(host: HostOracle)
      returns (results: seq<DiagResult>, errorPatterns: Dict<seq<Extension>>, characteristics: Characteristics,
               ghost calls: seq<SetCall>)
      requires Valid()
      modifies this
      ensures Valid() && extensions == old(extensions)
      ensures Current() == DiagnoseAll(Logged(old(Current()), [LogEntry(StartingDiagnostics, Info)]), extensions.Values(), host)
      ensures results == ResultsOf(extensions.Values(), host)
      ensures calls == AllCalls(extensions.Values(), host)
      ensures errorPatterns == PatternsOf(Filter(results, TestFailed))
      ensures characteristics == CharacteristicsOf(ExtensionsOf(Filter(results, TestFailed)))
    {
      Log(StartingDiagnostics, Info);
      results, calls := DiagnoseEach(extensions.Values(), host);
      var failed;
      failed, errorPatterns, characteristics := AnalyzeResults(results);
    }

    /** The loop of `runFullDiagnostics`. */
    method DiagnoseEach(exts: seq<Extension>, host: HostOracle) returns (results: seq<DiagResult>, ghost calls: seq<SetCall>)
      modifies this
      ensures extensions == old(extensions)
      ensures Current() == DiagnoseAll(old(Current()), exts, host)
      ensures results == ResultsOf(exts, host)
      ensures calls == AllCalls(exts, host)
    {
      results := [];
      calls := [];
      var i := 0;
      while i < |exts|
        invariant 0 <= i <= |exts|
        invariant extensions == old(extensions)
        invariant Current() == DiagnoseAll(old(Current()), exts[..i], host)
        invariant results == ResultsOf(exts[..i], host)
        invariant calls == AllCalls(exts[..i], host)
      {
        assert exts[..i + 1][..i] == exts[..i];
        var result, c := DiagnoseExtension(exts[i], host);
        results := results + [result];
        calls := calls + c;
        i := i + 1;
      }
      assert exts[..|exts|] == exts;
    }

    /** `testSingleToggle` with the prompt's answer (`None` when cancelled). */
    method TestSingleToggle(answer: Option<string>, host: HostOracle)
      requires Valid()
      modifies this
      ensures Current() == SingleBook(old(Current()), extensions, answer, host)
      ensures extensions == old(extensions)
    {
      if answer.None? || answer.value == "" || answer.value !in extensions.items {
        Log(InvalidExtensionId, Error);
        return;
      }
      var extId := answer.value;
      var ext := extensions.items[extId];
      Log(TestingSingle(ext.name), Info);
      var currentState := ext.enabled;
      var disableResult := TestToggle(extId, !currentState, host(extId, !currentState, 0));
      var enableResult := TestToggle(extId, currentState, host(extId, currentState, 0));
      Log(SingleComplete(disableResult.success, enableResult.success),
          if disableResult.success && enableResult.success then Success else Error);
    }

    /** One `Promise.all` round of a batch, one call after the other. */
    method ToggleRound(batch: seq<Extension>, round: Round, host: HostOracle) returns (successes: nat)
      modifies this
      ensures Current() == RoundBook(old(Current()), batch, round, host)
      ensures successes == Count(batch, AcceptedIn(host, round))
      ensures extensions == old(extensions)
    {
      successes := 0;
      var i := 0;
      while i < |batch|
        invariant 0 <= i <= |batch|
        invariant extensions == old(extensions)
        invariant Current() == RoundBook(old(Current()), batch[..i], round, host)
        invariant successes == Count(batch[..i], AcceptedIn(host, round))
      {
        var ext := batch[i];
        assert batch[..i + 1][..i] == batch[..i];
        CountLast(batch[..i + 1], AcceptedIn(host, round));
        var outcome := TestToggle(ext.id, Target(round, ext), host(ext.id, Target(round, ext), CallIndex(round)));
        if outcome.success {
          successes := successes + 1;
        }
        i := i + 1;
      }
      assert batch[..|batch|] == batch;
    }

    /** `testBatchToggle` with the prompt's answer, its rounds run in sequence. */
    method TestBatchToggle(answer: Option<string>, parse: string -> Parsed, host: HostOracle)
      requires Valid()
      modifies this
      ensures Valid()
      ensures Current() == BatchBook(old(Current()), extensions, answer, parse, host)
      ensures extensions == old(extensions)
    {
      var count := BatchSize(answer, parse);
      if count.None? {
        Log(InvalidBatchSize, Error);
        return;
      }
      RunBatch(Take(extensions.Values(), count.value), host);
    }

    /** The three rounds of an accepted batch and the verdict line. */
    method RunBatch(batch: seq<Extension>, host: HostOracle)
      modifies this
      ensures Current() == BatchRun(old(Current()), batch, host)
      ensures extensions == old(extensions)
    {
      Log(TestingBatch(|batch|), Info);
      var disabled := AnnouncedRound(DisablingBatch, batch, DisableAll, host);
      var enabled := AnnouncedRound(EnablingBatch, batch, EnableAll, host);
      var restored := AnnouncedRound(RestoringStates, batch, RestoreAll, host);
      var successCount := disabled + enabled;
      var totalTests := |batch| + |batch|;
      Log(BatchComplete(successCount, totalTests), if successCount == totalTests then Success else Warning);
    }

    /** `this.log(announcement)`, then one round. */
    method AnnouncedRound(announcement: Message, batch: seq<Extension>, round: Round, host: HostOracle)
      returns (successes: nat)
      modifies this
      ensures Current() == Announced(old(Current()), announcement, batch, round, host)
      ensures successes == Count(batch, AcceptedIn(host, round))
      ensures extensions == old(extensions)
    {
      Log(announcement, Info);
      successes := ToggleRound(batch, round, host);
    }

    /** The loop body of `analyzeGroups` for one group. */
    method AnalyzeGroup(group: Group) returns (health: Health)
      modifies this
      ensures logs == old(logs) + GroupEntries(group, extensions, failedExtensions)
      ensures health == HealthOf(group.extensions, extensions, failedExtensions)
      ensures extensions == old(extensions) && failedExtensions == old(failedExtensions)
      ensures toggleHistory == old(toggleHistory)
    {
      Log(AnalyzingGroup(group.name, |group.extensions|), Info);
      health := ReportMembers(group.extensions, group.name);
      ReportHealth(group.name, health);
    }

    /** The inner `for ... of group.extensions` loop with its two counters. */
    method ReportMembers(members: seq<ExtId>, groupName: string) returns (health: Health)
      modifies this
      ensures logs == old(logs) + MemberEntries(members, groupName, extensions, failedExtensions)
      ensures health == HealthOf(members, extensions, failedExtensions)
      ensures extensions == old(extensions) && failedExtensions == old(failedExtensions)
      ensures toggleHistory == old(toggleHistory)
    {
      var failCount := 0;
      var unmodifiableCount := 0;
      var j := 0;
      while j < |members|
        invariant 0 <= j <= |members|
        invariant extensions == old(extensions) && failedExtensions == old(failedExtensions)
        invariant toggleHistory == old(toggleHistory)
        invariant logs == old(logs) + MemberEntries(members[..j], groupName, extensions, failedExtensions)
        invariant Health(failCount, unmodifiableCount) == HealthOf(members[..j], extensions, failedExtensions)
      {
        GroupStep(members, j, groupName, extensions, failedExtensions);
        failCount, unmodifiableCount := ReportMember(members[j], groupName, failCount, unmodifiableCount);
        j := j + 1;
      }
      assert members[..|members|] == members;
      health := Health(failCount, unmodifiableCount);
    }

    /** One member of a group: skipped with a warning when not installed,
        otherwise checked for an unmodifiable state before known failures,
        counting it in the matching counter. */
    method ReportMember(extId: ExtId, groupName: string, failCount: nat, unmodifiableCount: nat)
      returns (fails: nat, unmodifiables: nat)
      modifies this
      ensures Health(fails, unmodifiables) == Tallied(Health(failCount, unmodifiableCount), StatusOf(extId, extensions, failedExtensions))
      ensures logs == old(logs) + MemberEntry(extId, groupName, extensions, failedExtensions)
      ensures extensions == old(extensions) && failedExtensions == old(failedExtensions)
      ensures toggleHistory == old(toggleHistory)
    {
      fails, unmodifiables := failCount, unmodifiableCount;
      if extId !in extensions.items {
        Log(MemberNotFound(extId, groupName), Warning);
        return;
      }
      var ext := extensions.items[extId];
      if ext.disabledReason == Some("unknown") || ext.disabledReason == Some("permissions_increase") {
        unmodifiables := unmodifiables + 1;
        Log(CannotModify(ext.name, ext.disabledReason.value), Error);
      } else if extId in failedExtensions {
        fails := fails + 1;
        Log(KnownToFail(ext.name), Error);
      }
    }

    /** The verdict lines for a group with counts `health`. */
    method ReportHealth(groupName: string, health: Health)
      modifies this
      ensures logs == old(logs) + SummaryEntries(groupName, health)
      ensures extensions == old(extensions) && failedExtensions == old(failedExtensions)
      ensures toggleHistory == old(toggleHistory)
    {
      if health.unmodifiableCount > 0 {
        Log(GroupUnmodifiable(groupName, health.unmodifiableCount), Error);
      }
      if health.failCount > 0 {
        Log(GroupProblematic(groupName, health.failCount), Warning);
      }
      if health.unmodifiableCount == 0 && health.failCount == 0 {
        Log(GroupHealthy(groupName), Success);
      }
    }

    /** `analyzeGroups`, given what its storage read returned. */
    method AnalyzeGroups(read: GroupsRead)
      requires Valid() && StoredValid(read)
      modifies this
      ensures logs == old(logs) + AnalyzeGroupsLog(read, extensions, failedExtensions)
      ensures extensions == old(extensions) && failedExtensions == old(failedExtensions)
      ensures toggleHistory == old(toggleHistory)
    {
      match read {
        case ReadFailed(message) =>
          Log(AnalyzeFailed(message), Error);
        case Read(stored) =>
          var groups := stored.GetOr(Empty());
          Log(AnalyzingGroups, Info);
          AnalyzeEach(groups.Values());
      }
    }

    /** The `for ... of Object.entries(groups)` loop of `analyzeGroups`. */
    method AnalyzeEach(gs: seq<Group>)
      modifies this
      ensures logs == old(logs) + GroupsEntries(gs, extensions, failedExtensions)
      ensures extensions == old(extensions) && failedExtensions == old(failedExtensions)
      ensures toggleHistory == old(toggleHistory)
    {
      var i := 0;
      while i < |gs|
        invariant 0 <= i <= |gs|
        invariant extensions == old(extensions) && failedExtensions == old(failedExtensions)
        invariant toggleHistory == old(toggleHistory)
        invariant logs == old(logs) + GroupsEntries(gs[..i], extensions, failedExtensions)
      {
        assert gs[..i + 1][..i] == gs[..i];
        var health := AnalyzeGroup(gs[i]);
        i := i + 1;
      }
      assert gs[..|gs|] == gs;
    }
  }

  /** The line `loadExtensions` logs; `reg` is the registry it leaves. */
  function LoadEntry(fetch: Fetch, reg: Registry): LogEntry {
    match fetch
    case Fetched(_) => LogEntry(Loaded(|reg.keys|), Info)
    case FetchFailed(message) => LogEntry(LoadFailed(message), Error)
  }

  /** `updateStats`: the registry's counts and the number of failed ids. */
  function StatsOf(reg: Registry, failed: set<ExtId>): (s: Stats)
    requires reg.Valid()
    ensures s.total == |reg.keys|
    ensures s.enabled == Count(reg.Values(), R.IsEnabled)
    ensures s.disabled == s.total - s.enabled == Count(reg.Values(), R.IsDisabled)
    ensures s.failedToggles == |failed|
  {
    var summary := R.Summarize(reg);
    Stats(summary.total, summary.enabled, summary.disabled, |failed|)
  }
}
