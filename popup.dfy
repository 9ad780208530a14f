/** The popup page (popup.js, class ExtensionOrganizer): loading the registry
    and the stored layout, pruning members that are no longer installed,
    restoring a backup, creating a group and switching a group on or off
    through the retrying toggle engine, whose failures go to the journal. */
module Popup {
  import opened Types
  import opened Dicts
  import opened Seqs
  import opened Text
  import R = Registry
  import opened GroupStore
  import opened Journal
  import opened ToggleEngine

  // ---------------------------------------------------------------- loading the registry

  /** The registry and the load-error flag. */
  datatype Loaded = Loaded(reg: Registry, loadError: bool)

  /** What `loadExtensions` leaves, given the replies to the first getAll() and to
      the retry it makes when the first reply holds no managed extension. A
      failing first call keeps the registry it had; a failing retry leaves it empty. */
  function AfterLoadExtensions(reg: Registry, loadError: bool, first: Fetch, retry: Fetch, selfId: ExtId): Loaded
  {
    match first
    case FetchFailed(_) => Loaded(reg, true)
    case Fetched(list) =>
      var r := R.Snapshot(list, selfId);
      if |r.keys| > 0 then Loaded(r, loadError)
      else
        match retry
        case FetchFailed(_) => Loaded(r, true)
        case Fetched(again) => Loaded(R.Snapshot(again, selfId), loadError)
  }

  /** The flag is raised exactly when the flag was already up or a getAll() call
      that was made failed; it is never lowered. When it stays down the registry
      is the snapshot of the reply that was used, and a failing first call keeps
      the stale registry. */
  lemma LoadExtensionsFacts(reg: Registry, loadError: bool, first: Fetch, retry: Fetch, selfId: ExtId)
    ensures var l := AfterLoadExtensions(reg, loadError, first, retry, selfId);
      && (first.Fetched? ==> l.reg.Valid())
      && (l.loadError <==>
            loadError || first.FetchFailed? ||
            (|R.Snapshot(first.list, selfId).keys| == 0 && retry.FetchFailed?))
      && (first.FetchFailed? ==> l.reg == reg)
      && (first.Fetched? && |R.Snapshot(first.list, selfId).keys| > 0 ==> l.reg == R.Snapshot(first.list, selfId))
      && (first.Fetched? && |R.Snapshot(first.list, selfId).keys| == 0 ==>
            l.reg == (if retry.Fetched? then R.Snapshot(retry.list, selfId) else R.Snapshot(first.list, selfId)))
  {
  }

  // ---------------------------------------------------------------- loading the layout

  /** Pruning runs only when the registry loaded without error and is not empty. */
  predicate CleanupApplies(reg: Registry, loadError: bool) {
    !loadError && |reg.keys| > 0
  }

  /** Some group of the layout loses a member to pruning. */
  predicate SomeShrinks(groups: Groups, reg: Registry)
    requires groups.Valid()
  {
    exists j :: 0 <= j < |groups.keys| && Shrinks(groups.items[groups.keys[j]], reg)
  }

  /** The layout `cleanupOrphanedExtensions` leaves. */
  function Cleaned(groups: Groups, reg: Registry, loadError: bool): (r: Groups)
    requires groups.Valid()
  {
    if CleanupApplies(reg, loadError) then Pruned(groups, reg) else groups
  }

  /** The storage `cleanupOrphanedExtensions` leaves: written only when some group shrank. */
  function CleanupStore(s: Stored, groups: Groups, reg: Registry, loadError: bool): Stored
    requires groups.Valid()
  {
    if CleanupApplies(reg, loadError) && SomeShrinks(groups, reg) then s.(groups := Some(Pruned(groups, reg))) else s
  }

  /** The layout of the catch branch: the reserved group alone. */
  function FixedOnly(): (g: Groups)
    ensures g.Valid() && g.keys == [AlwaysOn]
  {
    Dict([AlwaysOn], map[AlwaysOn := FixedGroup()])
  }

  /** What `loadData` leaves, given the storage content `s`, whether reading it
      fails, and the registry it prunes against: the stored groups (or none)
      with the reserved group inserted and saved if missing, the stored order
      (or, when empty, the group keys, saved), then the pruning. */
  function LoadDataResult(s: Stored, readFails: bool, reg: Registry, loadError: bool): Layout
    requires s.Valid()
  {
    if readFails then Layout(FixedOnly(), [AlwaysOn], s)
    else
      var l := LoadStored(s);
      Layout(Cleaned(l.groups, reg, loadError), l.order, CleanupStore(l.store, l.groups, reg, loadError))
  }

  /** After a load, read failure or not, the reserved group is present, the
      order is not empty, and a reserved group that had to be created is the
      empty default "Fixed" group. */
  lemma LoadDataReserved(s: Stored, readFails: bool, reg: Registry, loadError: bool)
    requires s.Valid()
    ensures var l := LoadDataResult(s, readFails, reg, loadError);
      && l.groups.Valid()
      && AlwaysOn in l.groups.items
      && l.order != []
      && (readFails || AlwaysOn !in s.groups.GetOr(Empty()).items ==> l.groups.items[AlwaysOn] == FixedGroup())
      && (readFails ==> l.groups.keys == [AlwaysOn] && l.order == [AlwaysOn] && l.store == s)
  {
    if !readFails {
      LoadStoredFacts(s);
    }
  }

  /** A successful load leaves storage holding exactly the groups and the order
      it leaves in memory, and does not touch the journal. */
  lemma LoadDataPersisted(s: Stored, reg: Registry, loadError: bool)
    requires s.Valid()
    ensures var l := LoadDataResult(s, false, reg, loadError);
      && l.store.groups == Some(l.groups)
      && l.store.groupOrder == Some(l.order)
      && l.store.failedToggles == s.failedToggles
  {
    LoadStoredFacts(s);
    var g := LoadStored(s).groups;
    if CleanupApplies(reg, loadError) && !SomeShrinks(g, reg) {
      forall k | k in g.items ensures !Shrinks(g.items[k], reg) {
        var j :| 0 <= j < |g.keys| && g.keys[j] == k;
      }
      PrunedUnchangedIff(g, reg);
    }
  }

  /** Loading again from what a load stored gives the same layout and writes nothing. */
  lemma LoadDataStable(s: Stored, reg: Registry, loadError: bool)
    requires s.Valid()
    ensures var l := LoadDataResult(s, false, reg, loadError);
      l.store.Valid() && LoadDataResult(l.store, false, reg, loadError) == l
  {
    var l := LoadDataResult(s, false, reg, loadError);
    LoadDataPersisted(s, reg, loadError);
    LoadDataReserved(s, false, reg, loadError);
    if CleanupApplies(reg, loadError) {
      PrunedNoneShrinks(LoadStored(s).groups, reg);
    }
  }

  /** A pruned layout has nothing left to prune. */
  lemma PrunedNoneShrinks(groups: Groups, reg: Registry)
    requires groups.Valid()
    ensures Pruned(Pruned(groups, reg), reg) == Pruned(groups, reg)
    ensures !SomeShrinks(Pruned(groups, reg), reg)
  {
    var p := Pruned(groups, reg);
    PrunedFacts(groups, reg);
    PrunedUnchangedIff(p, reg);
    forall j | 0 <= j < |p.keys| ensures !Shrinks(p.items[p.keys[j]], reg) {
      assert p.keys[j] in p.items;
    }
  }

  /** What `restoreGroups` installs before reloading: the backup, with the
      current reserved group put back over whatever the backup holds under its key. */
  function Restored(current: Groups, incoming: Groups): (r: Groups)
    requires incoming.Valid()
  {
    if AlwaysOn in current.items then incoming.Put(AlwaysOn, current.items[AlwaysOn]) else incoming
  }

  /** The restore keeps the current reserved group, takes every other group
      from the backup, and drops every other current group. */
  lemma RestoredFacts(current: Groups, incoming: Groups)
    requires incoming.Valid()
    ensures var r := Restored(current, incoming);
      && r.Valid()
      && (AlwaysOn in current.items ==> AlwaysOn in r.items && r.items[AlwaysOn] == current.items[AlwaysOn])
      && (AlwaysOn !in current.items ==> r == incoming)
      && (forall k :: k != AlwaysOn ==> (k in r.items <==> k in incoming.items))
      && (forall k :: k != AlwaysOn && k in r.items ==> r.items[k] == incoming.items[k])
  {
  }

  /** The loop of `cleanupOrphanedExtensions` over `Object.keys(this.groups)`:
      each group's member list filtered to the installed extensions, noting
      whether any list got shorter. */
  method PruneAll(groups: Groups, reg: Registry) returns (gs: Groups, hasChanges: bool)
    requires groups.Valid()
    ensures gs == Pruned(groups, reg)
    ensures hasChanges == SomeShrinks(groups, reg)
  {
    gs := groups;
    var keys := groups.keys;
    hasChanges := false;
    for i := 0 to |keys|
      invariant PruneProgress(groups, gs, reg, i)
      invariant hasChanges == ShrunkBefore(groups, reg, i)
    {
      var g := gs.items[keys[i]];
      var kept := Registered(g.extensions, reg);
      PruneStep(groups, gs, reg, i);
      gs := gs.Put(keys[i], g.(extensions := kept));
      if |kept| != |g.extensions| {
        hasChanges := true;
      }
    }
    PruneDone(groups, gs, reg);
    ShrunkBeforeIff(groups, reg, |keys|);
  }

  /** The pruning loop has replaced the first `i` groups of `start` (in key
      order) by their pruned versions and left the others as they were. */
  ghost predicate PruneProgress(start: Groups, gs: Groups, reg: Registry, i: nat) {
    && start.Valid() && gs.Valid() && gs.keys == start.keys && i <= |start.keys|
    && (forall j :: 0 <= j < i ==> gs.items[start.keys[j]] == PrunedGroup(start.items[start.keys[j]], reg))
    && (forall j :: i <= j < |start.keys| ==> gs.items[start.keys[j]] == start.items[start.keys[j]])
  }

  /** Some of the first `n` groups, in key order, loses a member to pruning. */
  ghost predicate ShrunkBefore(groups: Groups, reg: Registry, n: nat)
    requires groups.Valid() && n <= |groups.keys|
  {
    n > 0 && (ShrunkBefore(groups, reg, n - 1) || Shrinks(groups.items[groups.keys[n - 1]], reg))
  }

  lemma {:induction false} ShrunkBeforeIff(groups: Groups, reg: Registry, n: nat)
    requires groups.Valid() && n <= |groups.keys|
    ensures ShrunkBefore(groups, reg, n) <==> exists j :: 0 <= j < n && Shrinks(groups.items[groups.keys[j]], reg)
  {
    if n > 0 {
      ShrunkBeforeIff(groups, reg, n - 1);
    }
  }

  lemma PruneStep(start: Groups, gs: Groups, reg: Registry, i: nat)
    requires PruneProgress(start, gs, reg, i) && i < |start.keys|
    ensures gs.items[start.keys[i]] == start.items[start.keys[i]]
    ensures PruneProgress(start, gs.Put(start.keys[i], PrunedGroup(gs.items[start.keys[i]], reg)), reg, i + 1)
  {
  }

  lemma PruneDone(start: Groups, gs: Groups, reg: Registry)
    requires PruneProgress(start, gs, reg, |start.keys|)
    ensures gs == Pruned(start, reg)
  {
    var p := Pruned(start, reg);
    forall k | k in gs.items ensures gs.items[k] == p.items[k] {
      var j :| 0 <= j < |start.keys| && start.keys[j] == k;
    }
    assert gs.items == p.items;
  }

  /** A refused try extends the trace by its call and, unless it was the
      last try, its wait; what remains is the loop from the next try on. */
  lemma AttemptFailed(host: HostOracle, id: ExtId, enable: bool, attempt: nat, max: nat,
                      before: seq<Effect>, after: seq<Effect>, e: HostError)
    requires attempt < max && host(id, enable, attempt) == Failed(e)
    requires after == before + [SetEnabledCall(id, enable, attempt)] +
      (if attempt < max - 1 then [Backoff(id, (attempt + 1) * 100)] else [])
    ensures forall last: Option<HostError> ::
      var rest := Attempt(host, id, enable, attempt + 1, max, Some(e));
      var here := Attempt(host, id, enable, attempt, max, last);
      Attempts(here.succeeded, here.lastError, before + here.trace) ==
      Attempts(rest.succeeded, rest.lastError, after + rest.trace)
  {
    forall last: Option<HostError> ensures
      var rest := Attempt(host, id, enable, attempt + 1, max, Some(e));
      var here := Attempt(host, id, enable, attempt, max, last);
      before + here.trace == after + rest.trace
    {
      var rest := Attempt(host, id, enable, attempt + 1, max, Some(e));
      var wait: seq<Effect> := if attempt < max - 1 then [Backoff(id, (attempt + 1) * 100)] else [];
      assert Attempt(host, id, enable, attempt, max, last).trace == [SetEnabledCall(id, enable, attempt)] + wait + rest.trace;
    }
  }

  /** The retry loop of `toggleWithRetry` for an installed extension: up to
      `maxRetries` calls to the host, a back-off of `(attempt + 1) * 100` ms
      after every failure but the last, stopping at the first success. */
  method RetryToggle(host: HostOracle, extId: ExtId, enable: bool, maxRetries: nat)
    returns (succeeded: bool, lastError: Option<HostError>, ghost trace: seq<Effect>)
    requires maxRetries >= 1
    ensures Attempts(succeeded, lastError, trace) == Attempt(host, extId, enable, 0, maxRetries, None)
  {
    ghost var full := Attempt(host, extId, enable, 0, maxRetries, None);
    trace := [];
    lastError := None;
    var attempt := 0;
    while attempt < maxRetries
      invariant 0 <= attempt <= maxRetries
      invariant attempt > 0 ==> lastError.Some?
      invariant var rest := Attempt(host, extId, enable, attempt, maxRetries, lastError);
        full == Attempts(rest.succeeded, rest.lastError, trace + rest.trace)
      decreases maxRetries - attempt
    {
      var reply := host(extId, enable, attempt);
      match reply {
        case Done =>
          trace := trace + [SetEnabledCall(extId, enable, attempt)];
          succeeded, lastError := true, None;
          return;
        case Failed(e) =>
          ghost var before := trace;
          lastError := Some(e);
          trace := trace + [SetEnabledCall(extId, enable, attempt)];
          if attempt < maxRetries - 1 {
            trace := trace + [Backoff(extId, (attempt + 1) * 100)];
          }
          AttemptFailed(host, extId, enable, attempt, maxRetries, before, trace, e);
      }
      attempt := attempt + 1;
    }
    assert trace + [] == trace;
    succeeded := false;
  }

  // ---------------------------------------------------------------- the page

  class ExtensionOrganizer {
    var groups: Groups
    var extensions: Registry
    var groupOrder: seq<GroupId>
    var extensionLoadError: bool
    /** The in-memory journal; it starts empty in every popup session. */
    var failedToggles: seq<FailureEntry>
    /** chrome.storage.local as this page sees it. */
    var store: Stored
    /** chrome.runtime.id */
    const selfId: ExtId

    ghost predicate Valid()
      reads this
    {
      groups.Valid() && extensions.Valid() && store.Valid() && |failedToggles| <= Capacity
    }

    ghost function Frozen(): (Groups, Registry, seq<GroupId>, bool)
      reads this
    {
      (groups, extensions, groupOrder, extensionLoadError)
    }

    constructor(selfId: ExtId, store: Stored)
      requires store.Valid()
      ensures Valid()
      ensures this.selfId == selfId && this.store == store
      ensures groups == Empty() && extensions == Empty() && groupOrder == []
      ensures !extensionLoadError && failedToggles == []
    {
      this.selfId := selfId;
      this.store := store;
      groups := Empty();
      extensions := Empty();
      groupOrder := [];
      extensionLoadError := false;
      failedToggles := [];
    }

    /** `init`: the registry first, then the layout, which is pruned against it. */
    method Init(first: Fetch, retry: Fetch, readFails: bool)
      requires Valid()
      modifies this
      ensures Valid()
      ensures Loaded(extensions, extensionLoadError) ==
        AfterLoadExtensions(old(extensions), old(extensionLoadError), first, retry, selfId)
      ensures Layout(groups, groupOrder, store) ==
        LoadDataResult(old(store), readFails, extensions, extensionLoadError)
      ensures failedToggles == old(failedToggles)
    {
      LoadExtensions(first, retry);
      LoadData(readFails);
    }

    method SaveData()
      requires Valid()
      modifies this
      ensures Valid()
      ensures store == old(store).(groups := Some(groups))
      ensures groups == old(groups) && extensions == old(extensions) && groupOrder == old(groupOrder)
      ensures extensionLoadError == old(extensionLoadError) && failedToggles == old(failedToggles)
    {
      store := store.(groups := Some(groups));
    }

    method SaveGroupOrder()
      requires Valid()
      modifies this
      ensures Valid()
      ensures store == old(store).(groupOrder := Some(groupOrder))
      ensures groups == old(groups) && extensions == old(extensions) && groupOrder == old(groupOrder)
      ensures extensionLoadError == old(extensionLoadError) && failedToggles == old(failedToggles)
    {
      store := store.(groupOrder := Some(groupOrder));
    }

    /** `loadExtensions` */
    method LoadExtensions(first: Fetch, retry: Fetch)
      requires Valid()
      modifies this
      ensures Valid()
      ensures Loaded(extensions, extensionLoadError) ==
        AfterLoadExtensions(old(extensions), old(extensionLoadError), first, retry, selfId)
      ensures groups == old(groups) && groupOrder == old(groupOrder) && store == old(store)
      ensures failedToggles == old(failedToggles)
    {
      match first {
        case FetchFailed(_) =>
          extensionLoadError := true;
        case Fetched(list) =>
          extensions := R.Load(list, selfId);
          if |extensions.keys| == 0 {
            match retry {
              case FetchFailed(_) =>
                extensionLoadError := true;
              case Fetched(again) =>
                extensions := R.Load(again, selfId);
            }
          }
      }
    }

    /** `loadData` */
    method LoadData(readFails: bool)
      requires Valid()
      modifies this
      ensures Valid()
      ensures Layout(groups, groupOrder, store) == LoadDataResult(old(store), readFails, extensions, extensionLoadError)
      ensures extensions == old(extensions) && extensionLoadError == old(extensionLoadError)
      ensures failedToggles == old(failedToggles)
    {
      if readFails {
        groups := FixedOnly();
        groupOrder := [AlwaysOn];
        return;
      }
      ghost var s := store;
      groups := store.groups.GetOr(Empty());
      groupOrder := store.groupOrder.GetOr([]);
      if AlwaysOn !in groups.items {
        groups := groups.Put(AlwaysOn, FixedGroup());
        SaveData();
      }
      if |groupOrder| == 0 {
        groupOrder := groups.keys;
        SaveGroupOrder();
      }
      CleanupOrphanedExtensions();
    }

    /** `cleanupOrphanedExtensions`: skipped after a failed or empty registry
      load; otherwise every group keeps only its installed members, and the
      layout is saved only if some group shrank. */
    method CleanupOrphanedExtensions()
      requires Valid()
      modifies this
      ensures Valid()
      ensures groups == Cleaned(old(groups), extensions, extensionLoadError)
      ensures store == CleanupStore(old(store), old(groups), extensions, extensionLoadError)
      ensures extensions == old(extensions) && extensionLoadError == old(extensionLoadError)
      ensures groupOrder == old(groupOrder) && failedToggles == old(failedToggles)
    {
      if extensionLoadError || |extensions.keys| == 0 {
        return;
      }
      var gs, hasChanges := PruneAll(groups, extensions);
      groups := gs;
      if hasChanges {
        SaveData();
      }
    }

    /** `restoreGroups`: a backup that is not an object (`None`) changes
        nothing; otherwise the backup replaces the layout, keeping the
        current reserved group, is saved, and the layout is loaded again. */
    method RestoreGroups(backup: Option<Groups>, readFails: bool)
      requires Valid()
      requires backup.Some? ==> backup.value.Valid()
      modifies this
      ensures Valid()
      ensures backup.None? ==> Layout(groups, groupOrder, store) == Layout(old(groups), old(groupOrder), old(store))
      ensures backup.Some? ==>
        Layout(groups, groupOrder, store) ==
        LoadDataResult(old(store).(groups := Some(Restored(old(groups), backup.value))), readFails, extensions, extensionLoadError)
      ensures extensions == old(extensions) && extensionLoadError == old(extensionLoadError)
      ensures failedToggles == old(failedToggles)
    {
      if backup.None? {
        return;
      }
      var fixed := if AlwaysOn in groups.items then Some(groups.items[AlwaysOn]) else None;
      groups := backup.value;
      if fixed.Some? {
        groups := groups.Put(AlwaysOn, fixed.value);
      }
      SaveData();
      LoadData(readFails);
    }

    /** `createGroup`: a name that trims to nothing changes nothing; otherwise
        an empty, non-default group named by the trimmed name is stored under
        a fresh id. The order is left as it is. */
    method CreateGroup(rawName: string, now: nat)
      requires Valid()
      modifies this
      ensures Valid()
      ensures Trim(rawName) == [] ==> groups == old(groups) && store == old(store)
      ensures Trim(rawName) != [] ==>
        var id := GroupIdFor(now);
        groups == old(groups).Put(id, Group(id, Trim(rawName), [], false)) &&
        store == old(store).(groups := Some(groups))
      ensures groupOrder == old(groupOrder) && extensions == old(extensions)
      ensures extensionLoadError == old(extensionLoadError) && failedToggles == old(failedToggles)
    {
      var name := Trim(rawName);
      if name == [] {
        return;
      }
      var id := GroupIdFor(now);
      groups := groups.Put(id, Group(id, name, [], false));
      SaveData();
    }

    /** `logFailedToggle`: record the entry, keep the newest fifty, store them. */
    method LogFailedToggle(extensionId: ExtId, targetState: bool, error: HostError, timestamp: string)
      modifies this
      ensures failedToggles == Record(old(failedToggles), EntryFor(extensions, extensionId, targetState, error, timestamp))
      ensures store == old(store).(failedToggles := Some(failedToggles))
      ensures groups == old(groups) && extensions == old(extensions) && groupOrder == old(groupOrder)
      ensures extensionLoadError == old(extensionLoadError)
    {
      var entry := EntryFor(extensions, extensionId, targetState, error, timestamp);
      failedToggles := failedToggles + [entry];
      if |failedToggles| > Capacity {
        failedToggles := failedToggles[|failedToggles| - Capacity..];
      }
      store := store.(failedToggles := Some(failedToggles));
    }

    /** The callback `toggleExtensionsWithRetry` maps over a slice: skip a
        missing id; otherwise try up to `maxRetries` times, waiting after each
        failed try but the last, and journal the id when every try fails. */
    method ToggleWithRetry(extId: ExtId, enable: bool, maxRetries: nat, host: HostOracle, stamp: string)
      returns (result: ToggleResult, ghost trace: seq<Effect>)
      requires maxRetries >= 1
      modifies this
      ensures Outcome(result, trace) == OutcomeOf(extensions, host, extId, enable, maxRetries)
      ensures failedToggles ==
        if Failure(result) then Record(old(failedToggles), EntryFor(extensions, extId, enable, result.error.value, stamp))
        else old(failedToggles)
      ensures store == if Failure(result) then old(store).(failedToggles := Some(failedToggles)) else old(store)
      ensures Frozen() == old(Frozen())
    {
      trace := [];
      if extId !in extensions.items {
        result := ToggleResult(extId, false, true, Some(NotFound));
        return;
      }
      var succeeded, lastError;
      succeeded, lastError, trace := RetryToggle(host, extId, enable, maxRetries);
      if succeeded {
        result := ToggleResult(extId, true, false, None);
        return;
      }
      LogFailedToggle(extId, enable, lastError.value, stamp);
      result := ToggleResult(extId, false, false, lastError);
    }

    /** `toggleExtensionsWithRetry`: the ids in slices of two, each slice
        through `ToggleBatch` with its results pushed in order, and a pause
        after every slice that has a successor. */
    method ToggleExtensionsWithRetry(extensionIds: seq<ExtId>, enable: bool, maxRetries: nat, host: HostOracle, stamp: string)
      returns (results: seq<ToggleResult>, ghost trace: seq<Effect>)
      requires Valid() && maxRetries >= 1
      modifies this
      ensures Valid()
      ensures Run(results, trace, failedToggles) ==
        RunOf(extensions, host, extensionIds, enable, maxRetries, old(failedToggles), stamp)
      ensures store == JournalStored(old(store), results, failedToggles)
      ensures groups == old(groups) && extensions == old(extensions) && groupOrder == old(groupOrder)
      ensures extensionLoadError == old(extensionLoadError)
    {
      ghost var journal0 := failedToggles;
      ghost var store0 := store;
      results := [];
      trace := [];
      var i := 0;
      while i < |extensionIds|
        invariant i % BatchSize == 0 && i <= |extensionIds| + 1
        invariant RanUpTo(extensions, host, extensionIds, if i <= |extensionIds| then i else |extensionIds|,
                          enable, maxRetries, journal0, stamp, results, trace, failedToggles, 0 < i < |extensionIds|)
        invariant store == JournalStored(store0, results, failedToggles)
        invariant Frozen() == old(Frozen())
        decreases |extensionIds| - i
      {
        var end := if i + BatchSize < |extensionIds| then i + BatchSize else |extensionIds|;
        var batchResults;
        ghost var t;
        batchResults, t := ToggleBatch(extensionIds, i, end, enable, maxRetries, host, stamp, journal0, store0, results, trace);
        results := results + batchResults;
        trace := trace + t;
        if i + BatchSize < |extensionIds| {
          PauseOwed(extensions, host, extensionIds, end, enable, maxRetries, journal0, stamp, results, trace, failedToggles);
          trace := trace + [BatchPause(BatchDelay)];
        }
        NextSlice(i);
        i := i + BatchSize;
      }
      assert extensionIds[..|extensionIds|] == extensionIds;
      RunJournal(extensions, host, extensionIds, enable, maxRetries, journal0, stamp);
    }

    /** One slice `extensionIds[i..end]`: every id through `ToggleWithRetry`,
        in order (`batch.map` and `Promise.all`), continuing the run so far
        (`done`, `trace0`) with the pause owed before a slice that is not the first. */
    method ToggleBatch(extensionIds: seq<ExtId>, i: nat, end: nat, enable: bool, maxRetries: nat, host: HostOracle,
                       stamp: string, ghost journal0: seq<FailureEntry>, ghost store0: Stored,
                       ghost done: seq<ToggleResult>, ghost trace0: seq<Effect>)
      returns (batchResults: seq<ToggleResult>, ghost trace: seq<Effect>)
      requires maxRetries >= 1
      requires i % BatchSize == 0 && i < end <= |extensionIds| && end <= i + BatchSize
      requires RanUpTo(extensions, host, extensionIds, i, enable, maxRetries, journal0, stamp,
                       done, trace0, failedToggles, 0 < i)
      requires store == JournalStored(store0, done, failedToggles)
      modifies this
      ensures RanUpTo(extensions, host, extensionIds, end, enable, maxRetries, journal0, stamp,
                      done + batchResults, trace0 + trace, failedToggles, false)
      ensures store == JournalStored(store0, done + batchResults, failedToggles)
      ensures Frozen() == old(Frozen())
    {
      batchResults := [];
      trace := [];
      for j := 0 to end - i
        invariant RanUpTo(extensions, host, extensionIds, i + j, enable, maxRetries, journal0, stamp,
                          done + batchResults, trace0 + trace, failedToggles, j == 0 && 0 < i)
        invariant store == JournalStored(store0, done + batchResults, failedToggles)
        invariant Frozen() == old(Frozen())
      {
        var res;
        ghost var t;
        res, t := ToggleAt(extensionIds, i, j, enable, maxRetries, host, stamp, journal0, store0, done, batchResults, trace0, trace);
        batchResults := batchResults + [res];
        trace := trace + t;
      }
    }

    /** One callback of the slice's `Promise.all`: the id at position
        `i + j` toggled with retries, its result and effects appended to what
        the run has produced so far. */
    method ToggleAt(extensionIds: seq<ExtId>, i: nat, j: nat, enable: bool, maxRetries: nat, host: HostOracle,
                    stamp: string, ghost journal0: seq<FailureEntry>, ghost store0: Stored,
                    ghost done: seq<ToggleResult>, ghost batch: seq<ToggleResult>,
                    ghost trace0: seq<Effect>, ghost trace1: seq<Effect>)
      returns (res: ToggleResult, ghost t: seq<Effect>)
      requires maxRetries >= 1 && i + j < |extensionIds| && j < BatchSize && i % BatchSize == 0
      requires RanUpTo(extensions, host, extensionIds, i + j, enable, maxRetries, journal0, stamp,
                       done + batch, trace0 + trace1, failedToggles, j == 0 && 0 < i)
      requires store == JournalStored(store0, done + batch, failedToggles)
      modifies this
      ensures RanUpTo(extensions, host, extensionIds, i + (j + 1), enable, maxRetries, journal0, stamp,
                      done + (batch + [res]), trace0 + (trace1 + t), failedToggles, j + 1 == 0 && 0 < i)
      ensures store == JournalStored(store0, done + (batch + [res]), failedToggles)
      ensures Frozen() == old(Frozen())
    {
      ghost var before := failedToggles;
      res, t := ToggleWithRetry(extensionIds[i + j], enable, maxRetries, host, stamp);
      assert done + (batch + [res]) == (done + batch) + [res];
      assert trace0 + (trace1 + t) == (trace0 + trace1) + t;
      BatchStep(extensions, host, extensionIds, i, j, enable, maxRetries, journal0, stamp,
                done + batch, trace0 + trace1, before, res, t, failedToggles, done + (batch + [res]), trace0 + (trace1 + t));
      JournalStoredStep(store0, done + batch, res, before, failedToggles, done + (batch + [res]));
    }

    /** `toggleGroup`: nothing for a missing group; otherwise every member is
        toggled, the failures (neither succeeded nor skipped) are reported, and
        the registry is loaded again. */
    method ToggleGroup(groupId: GroupId, enable: bool, host: HostOracle, stamp: string, first: Fetch, retry: Fetch)
      returns (failures: seq<ToggleResult>)
      requires Valid()
      modifies this
      ensures Valid()
      ensures groupId !in old(groups).items ==>
        failures == [] && extensions == old(extensions) && extensionLoadError == old(extensionLoadError) &&
        failedToggles == old(failedToggles) && store == old(store)
      ensures groupId in old(groups).items ==>
        var r := RunOf(old(extensions), host, old(groups).items[groupId].extensions, enable, DefaultRetries, old(failedToggles), stamp);
        && failures == Filter(r.results, Failure)
        && failedToggles == r.journal
        && store == JournalStored(old(store), r.results, r.journal)
        && Loaded(extensions, extensionLoadError) ==
             AfterLoadExtensions(old(extensions), old(extensionLoadError), first, retry, selfId)
      ensures groups == old(groups) && groupOrder == old(groupOrder)
    {
      if groupId !in groups.items {
        failures := [];
        return;
      }
      var results;
      ghost var trace;
      results, trace := ToggleExtensionsWithRetry(groups.items[groupId].extensions, enable, DefaultRetries, host, stamp);
      failures := Filter(results, Failure);
      LoadExtensions(first, retry);
    }
  }

  /** The run over the first `n` ids has produced `results`, `journal`, and
      `trace`, followed by a pause when one is owed before id `n`. */
  ghost predicate RanUpTo(reg: Registry, host: HostOracle, ids: seq<ExtId>, n: nat, enable: bool, max: nat,
                          journal0: seq<FailureEntry>, stamp: string,
                          results: seq<ToggleResult>, trace: seq<Effect>, journal: seq<FailureEntry>, pending: bool)
    requires max >= 1 && n <= |ids|
  {
    var r := RunOf(reg, host, ids[..n], enable, max, journal0, stamp);
    results == r.results && journal == r.journal &&
    trace == r.trace + (if pending then [BatchPause(BatchDelay)] else [])
  }

  /** Slices start at multiples of the slice size. */
  lemma NextSlice(i: nat)
    requires i % BatchSize == 0
    ensures (i + BatchSize) % BatchSize == 0
  {
  }

  /** A finished slice with a successor owes the pause before it. */
  lemma PauseOwed(reg: Registry, host: HostOracle, ids: seq<ExtId>, n: nat, enable: bool, max: nat,
                  journal0: seq<FailureEntry>, stamp: string,
                  results: seq<ToggleResult>, trace: seq<Effect>, journal: seq<FailureEntry>)
    requires max >= 1 && n <= |ids|
    requires RanUpTo(reg, host, ids, n, enable, max, journal0, stamp, results, trace, journal, false)
    ensures RanUpTo(reg, host, ids, n, enable, max, journal0, stamp, results, trace + [BatchPause(BatchDelay)], journal, true)
  {
    var r := RunOf(reg, host, ids[..n], enable, max, journal0, stamp);
    assert trace == r.trace + [];
  }

  /** Storage after a run: the journal is written once any id has failed. */
  function JournalStored(store0: Stored, results: seq<ToggleResult>, journal: seq<FailureEntry>): Stored {
    if Count(results, Failure) == 0 then store0 else store0.(failedToggles := Some(journal))
  }

  lemma JournalStoredStep(store0: Stored, results: seq<ToggleResult>, res: ToggleResult,
                          before: seq<FailureEntry>, after: seq<FailureEntry>, results1: seq<ToggleResult>)
    requires !Failure(res) ==> after == before
    requires results1 == results + [res]
    ensures (if Failure(res) then JournalStored(store0, results, before).(failedToggles := Some(after))
             else JournalStored(store0, results, before)) ==
            JournalStored(store0, results1, after)
  {
    FilterAppend(results, [res], Failure);
  }

  /** One id of a slice continues the run by its outcome, after the pause owed
      before a slice that is not the first. */
  lemma BatchStep(reg: Registry, host: HostOracle, ids: seq<ExtId>, i: nat, j: nat, enable: bool, max: nat,
                  journal0: seq<FailureEntry>, stamp: string,
                  results: seq<ToggleResult>, trace: seq<Effect>, journal: seq<FailureEntry>,
                  res: ToggleResult, t: seq<Effect>, journal1: seq<FailureEntry>,
                  results1: seq<ToggleResult>, trace1: seq<Effect>)
    requires max >= 1 && i + j < |ids| && j < BatchSize && i % BatchSize == 0
    requires RanUpTo(reg, host, ids, i + j, enable, max, journal0, stamp, results, trace, journal, j == 0 && 0 < i)
    requires Outcome(res, t) == OutcomeOf(reg, host, ids[i + j], enable, max)
    requires journal1 == if Failure(res) then Record(journal, EntryFor(reg, ids[i + j], enable, res.error.value, stamp)) else journal
    requires results1 == results + [res] && trace1 == trace + t
    ensures RanUpTo(reg, host, ids, i + (j + 1), enable, max, journal0, stamp, results1, trace1, journal1, j + 1 == 0 && 0 < i)
  {
    assert ids[..i + j + 1] == ids[..i + j] + [ids[i + j]];
    RunSnoc(reg, host, ids[..i + j], ids[i + j], enable, max, journal0, stamp);
  }
}
