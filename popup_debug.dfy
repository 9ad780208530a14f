/** The stripped-down popup (popup-debug.js, class ExtensionOrganizer): it
    loads the registry and the stored groups, inserts the reserved group in
    memory when it is missing, and does nothing else: it saves nothing and
    leaves an empty stored order empty. */
module PopupDebug {
  import opened Types
  import opened Dicts
  import R = Registry
  import opened GroupStore

  /** The groups the debug load holds, from storage content `s`. */
  function DebugGroups(s: Stored): (g: Groups)
    requires s.Valid()
    ensures g.Valid()
  {
    WithFixedGroup(s.groups.GetOr(Empty()))
  }

  /** Missing stored groups and order count as `{}` and `[]`. Afterwards the
      reserved group exists; when it had to be created it is named "Fixed",
      has no members and is the default group; a stored reserved group and
      every other stored group are kept as they are, and nothing else is
      added. The groups are those the full popup loads, but the order is the
      stored one, not initialised when empty. */
  lemma DebugLoadFacts(s: Stored)
    requires s.Valid()
    ensures var g := DebugGroups(s);
      && AlwaysOn in g.items
      && (s.groups.None? ==> g.keys == [AlwaysOn] && g.items[AlwaysOn] == Group(AlwaysOn, "Fixed", [], true))
      && (s.groups.Some? && AlwaysOn !in s.groups.value.items ==>
            g.items[AlwaysOn] == Group(AlwaysOn, "Fixed", [], true))
      && (s.groups.Some? ==> forall k :: k in s.groups.value.items ==> k in g.items && g.items[k] == s.groups.value.items[k])
      && (forall k :: k in g.items ==> k == AlwaysOn || (s.groups.Some? && k in s.groups.value.items))
      && g == LoadStored(s).groups
      && (s.groupOrder.GetOr([]) == [] ==> LoadStored(s).order != [])
  {
    LoadStoredFacts(s);
    FixedGroupIdempotent(s.groups.GetOr(Empty()));
  }

  class ExtensionOrganizer {
    var groups: Groups
    var extensions: Registry
    var currentTab: string
    var groupOrder: seq<GroupId>
    /** chrome.runtime.id */
    const selfId: ExtId

    ghost predicate Valid()
      reads this
    {
      groups.Valid() && extensions.Valid()
    }

    constructor(selfId: ExtId)
      ensures Valid()
      ensures this.selfId == selfId
      ensures groups == Empty() && extensions == Empty() && currentTab == "groups" && groupOrder == []
    {
      this.selfId := selfId;
      groups := Empty();
      extensions := Empty();
      currentTab := "groups";
      groupOrder := [];
    }

    /** `init`: a failing `getAll()` or storage read throws, which `init`
        catches, so nothing after it runs. */
    method Init(fetch: Fetch, readFails: bool, s: Stored)
      requires Valid() && s.Valid()
      modifies this
      ensures Valid()
      ensures extensions == if fetch.Fetched? then R.Snapshot(fetch.list, selfId) else old(extensions)
      ensures fetch.Fetched? && !readFails ==> groups == DebugGroups(s) && groupOrder == s.groupOrder.GetOr([])
      ensures fetch.FetchFailed? || readFails ==> groups == old(groups) && groupOrder == old(groupOrder)
      ensures currentTab == old(currentTab)
    {
      if fetch.FetchFailed? {
        return;
      }
      LoadExtensions(fetch.list);
      if readFails {
        return;
      }
      LoadData(s);
    }

    /** `loadExtensions`, once `getAll()` returned `list`. */
    method LoadExtensions(list: seq<Extension>)
      requires Valid()
      modifies this
      ensures Valid()
      ensures extensions == R.Snapshot(list, selfId)
      ensures groups == old(groups) && groupOrder == old(groupOrder) && currentTab == old(currentTab)
    {
      extensions := R.Load(list, selfId);
    }

    /** `loadData`, once the storage read returned `s`. */
    method LoadData(s: Stored)
      requires Valid() && s.Valid()
      modifies this
      ensures Valid()
      ensures groups == DebugGroups(s)
      ensures groupOrder == s.groupOrder.GetOr([])
      ensures extensions == old(extensions) && currentTab == old(currentTab)
    {
      groups := if s.groups.Some? then s.groups.value else Empty();
      groupOrder := if s.groupOrder.Some? then s.groupOrder.value else [];
      if AlwaysOn !in groups.items {
        groups := groups.Put(AlwaysOn, Group(AlwaysOn, "Fixed", [], true));
      }
    }
  }
}
