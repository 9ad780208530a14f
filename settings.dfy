/** The settings page (settings.js, class ExtensionWranglerSettings): loading
    the layout and the registry, creating and editing a group, deleting a
    group, adding an extension to a group, moving a group by drag and drop,
    importing a backup and switching a group on or off. Each operation is a
    function from the layout (groups, order, storage) it starts from to the
    layout it leaves; the page's methods are proved to leave exactly that. */
module Settings {
  import opened Types
  import opened Dicts
  import opened Seqs
  import opened Text
  import R = Registry
  import opened GroupStore
  import opened GroupOrder

  // ---------------------------------------------------------------- saving a group

  /** `this.editingGroupId` is truthy: a group id other than the empty string. */
  predicate Editing(editing: Option<GroupId>) {
    editing.Some? && editing.value != ""
  }

  /** The notification `saveGroup` ends with. `Missing` is the TypeError the
      edit branch raises when the edited id is no longer stored. */
  datatype SaveOutcome = NameRequired | Updated | Created | Missing

  datatype Saved = Saved(outcome: SaveOutcome, layout: Layout)

  /** `saveGroup` with the name field holding `rawName`, the ticked extensions
      `selected` and the clock reading `now`. */
  function SaveGroupResult(l: Layout, editing: Option<GroupId>, rawName: string, selected: seq<ExtId>, now: nat): Saved
    requires l.groups.Valid()
  {
    var name := Trim(rawName);
    if name == [] then Saved(NameRequired, l)
    else if Editing(editing) then
      var id := editing.value;
      if id !in l.groups.items then Saved(Missing, l)
      else
        var gs := l.groups.Put(id, l.groups.items[id].(name := name, extensions := selected));
        Saved(Updated, Layout(gs, l.order, l.store.(groups := Some(gs))))
    else
      var id := GroupIdFor(now);
      var gs := l.groups.Put(id, Group(id, name, selected, false));
      var order := [id] + l.order;
      Saved(Created, Layout(gs, order, l.store.(groupOrder := Some(order)).(groups := Some(gs))))
  }

  /** A name that trims to nothing, or an edit of a vanished group, changes
      nothing. A new group is stored under a fresh id with the trimmed name,
      the ticked extensions and `isDefault` false, and its id goes to the front
      of the order. An edit replaces the name and the member list of the
      edited group and keeps its id, its flag, its place and the order. No
      other group changes, the reserved group is never lost, and whatever
      changed is what storage then holds. */
  lemma SaveGroupFacts(l: Layout, editing: Option<GroupId>, rawName: string, selected: seq<ExtId>, now: nat)
    requires l.groups.Valid()
    ensures var s := SaveGroupResult(l, editing, rawName, selected, now); var r := s.layout;
      && r.groups.Valid()
      && (s.outcome == NameRequired <==> Trim(rawName) == [])
      && (s.outcome == NameRequired || s.outcome == Missing ==> r == l)
      && (s.outcome == Created <==> Trim(rawName) != [] && !Editing(editing))
      && (s.outcome == Created ==>
            var id := GroupIdFor(now);
            && r.groups.items[id] == Group(id, Trim(rawName), selected, false)
            && r.order == [id] + l.order
            && r.store.groupOrder == Some(r.order)
            && (forall k :: k in l.groups.items && k != id ==> r.groups.items[k] == l.groups.items[k]))
      && (s.outcome == Updated ==>
            var id := editing.value;
            && id in l.groups.items
            && r.groups.keys == l.groups.keys
            && r.groups.items[id].name == Trim(rawName) && r.groups.items[id].extensions == selected
            && r.groups.items[id].id == l.groups.items[id].id
            && r.groups.items[id].isDefault == l.groups.items[id].isDefault
            && r.order == l.order && r.store.groupOrder == l.store.groupOrder
            && (forall k :: k in l.groups.items && k != id ==> r.groups.items[k] == l.groups.items[k]))
      && (s.outcome == Created || s.outcome == Updated ==> r.store.groups == Some(r.groups))
      && (forall k :: k in l.groups.items ==> k in r.groups.items)
      && (AlwaysOn in l.groups.items ==> r.groups.items[AlwaysOn].isDefault == l.groups.items[AlwaysOn].isDefault)
  {
  }

  // ---------------------------------------------------------------- deleting a group

  /** `deleteGroup(groupId)` after the user answered the confirmation with
      `confirmed`: an id that is not stored raises a TypeError and a default
      group is refused, both before the question; otherwise a confirmed delete
      removes the group and its id from the order and saves both. */
  function DeleteGroupResult(l: Layout, groupId: GroupId, confirmed: bool): (r: Layout)
    requires l.groups.Valid()
  {
    if groupId !in l.groups.items || l.groups.items[groupId].isDefault || !confirmed then l
    else
      var gs := l.groups.Remove(groupId);
      var order := Without(l.order, groupId);
      Layout(gs, order, l.store.(groups := Some(gs)).(groupOrder := Some(order)))
  }

  /** A default group is never deleted, so neither is a default reserved
      group; a confirmed delete of another stored group takes its id out of
      the groups and the order, keeps every other group and id, and stores
      the result; anything else changes nothing. */
  lemma DeleteGroupFacts(l: Layout, groupId: GroupId, confirmed: bool)
    requires l.groups.Valid()
    ensures var r := DeleteGroupResult(l, groupId, confirmed);
      && r.groups.Valid()
      && (groupId in l.groups.items && l.groups.items[groupId].isDefault ==> r == l)
      && (!confirmed || groupId !in l.groups.items ==> r == l)
      && (AlwaysOn in l.groups.items && l.groups.items[AlwaysOn].isDefault ==>
            AlwaysOn in r.groups.items && r.groups.items[AlwaysOn] == l.groups.items[AlwaysOn])
      && (confirmed && groupId in l.groups.items && !l.groups.items[groupId].isDefault ==>
            && groupId !in r.groups.items && groupId !in r.order
            && (forall k :: k in l.groups.items && k != groupId ==>
                  k in r.groups.items && r.groups.items[k] == l.groups.items[k])
            && (forall x :: x in r.order <==> x in l.order && x != groupId)
            && r.store.groups == Some(r.groups) && r.store.groupOrder == Some(r.order))
  {
    DeletedFacts(l.groups, l.order, groupId);
  }

  // ---------------------------------------------------------------- adding a member

  /** `addExtensionToGroup(extId, groupId)`: an id that is not stored raises a
      TypeError; a member already listed changes nothing; otherwise the
      extension is appended to the group's list and the groups are saved. */
  function AddExtensionResult(l: Layout, extId: ExtId, groupId: GroupId): (r: Layout)
    requires l.groups.Valid()
  {
    if groupId !in l.groups.items || extId in l.groups.items[groupId].extensions then l
    else
      var gs := l.groups.Put(groupId, WithMember(l.groups.items[groupId], extId));
      Layout(gs, l.order, l.store.(groups := Some(gs)))
  }

  /** Adding is idempotent and never lists a member twice: the extension is
      appended only when absent, no other group and not the order change,
      and a change is always saved. */
  lemma AddExtensionFacts(l: Layout, extId: ExtId, groupId: GroupId)
    requires l.groups.Valid()
    ensures var r := AddExtensionResult(l, extId, groupId);
      && r.groups.Valid()
      && AddExtensionResult(r, extId, groupId) == r
      && (groupId in l.groups.items ==>
            && extId in r.groups.items[groupId].extensions
            && (extId in l.groups.items[groupId].extensions ==> r == l)
            && (extId !in l.groups.items[groupId].extensions ==>
                  r.groups.items[groupId].extensions == l.groups.items[groupId].extensions + [extId] &&
                  r.store.groups == Some(r.groups))
            && (NoDuplicates(l.groups.items[groupId].extensions) ==> NoDuplicates(r.groups.items[groupId].extensions)))
      && (groupId !in l.groups.items ==> r == l)
      && r.groups.keys == l.groups.keys && r.order == l.order
      && (forall k :: k in l.groups.items && k != groupId ==> r.groups.items[k] == l.groups.items[k])
  {
    if groupId in l.groups.items {
      WithMemberFacts(l.groups.items[groupId], extId);
    }
  }

  // ---------------------------------------------------------------- importing a backup

  /** The `groups` field of a parsed backup: missing or falsy, present but not
      of type object, or an object (which the page takes as it is). */
  datatype ImportedGroups = Absent | NotAnObject | AnObject(groups: Groups)

  /** A chosen file: its text could not be read, is not JSON or is `null`
      (all three land in the catch branch), or parsed to a value whose
      `groups` field is `groups`. */
  datatype ImportFile = Unreadable | Parsed(groups: ImportedGroups)

  /** The notification `importGroups` ends with; `NoFile` and `Declined` show none. */
  datatype ImportOutcome = NoFile | ImportFailed | Declined | Imported

  datatype ImportResult = ImportResult(outcome: ImportOutcome, layout: Layout)

  /** `importGroups(file)` with the confirmation answered `confirmed`. */
  function ImportGroupsResult(l: Layout, file: Option<ImportFile>, confirmed: bool): ImportResult
  {
    match file
    case None => ImportResult(NoFile, l)
    case Some(Unreadable) => ImportResult(ImportFailed, l)
    case Some(Parsed(Absent)) => ImportResult(ImportFailed, l)
    case Some(Parsed(NotAnObject)) => ImportResult(ImportFailed, l)
    case Some(Parsed(AnObject(gs))) =>
      if confirmed then ImportResult(Imported, Layout(gs, l.order, l.store.(groups := Some(gs))))
      else ImportResult(Declined, l)
  }

  /** A confirmed import of an object replaces the groups wholesale and saves
      them, leaving the order alone; every other case changes nothing. */
  lemma ImportGroupsFacts(l: Layout, file: Option<ImportFile>, confirmed: bool)
    ensures var i := ImportGroupsResult(l, file, confirmed);
      && (i.outcome == Imported <==> confirmed && file.Some? && file.value.Parsed? && file.value.groups.AnObject?)
      && (i.outcome == Imported ==>
            i.layout.groups == file.value.groups.groups && i.layout.order == l.order &&
            i.layout.store == l.store.(groups := Some(i.layout.groups)))
      && (i.outcome != Imported ==> i.layout == l)
      && (i.outcome == ImportFailed <==>
            file.Some? && (file.value.Unreadable? || !file.value.groups.AnObject?))
  {
  }

  /** Unlike the popup's restore, the import does not keep the reserved group:
      a confirmed import of an empty object leaves no reserved group behind. */
  lemma ImportCanDropReserved(l: Layout)
    requires AlwaysOn in l.groups.items
    ensures var i := ImportGroupsResult(l, Some(Parsed(AnObject(Empty()))), true);
      i.outcome == Imported && AlwaysOn in l.groups.items && AlwaysOn !in i.layout.groups.items
  {
  }

  // ---------------------------------------------------------------- switching a group

  /** The reply to the single `setEnabled(extId, enable)` a group toggle sends is a success. */
  function Accepted(host: HostOracle, enable: bool): ExtId -> bool {
    (extId: ExtId) => host(extId, enable, 0).Done?
  }

  /** The counts of the `successCount/totalCount` notification never exceed
      the group's size; every member succeeded exactly when they are equal,
      and none did exactly when the first is zero. */
  lemma ToggleGroupCounts(members: seq<ExtId>, host: HostOracle, enable: bool)
    ensures Count(members, Accepted(host, enable)) <= |members|
    ensures Count(members, Accepted(host, enable)) == |members| <==>
      forall x :: x in members ==> host(x, enable, 0).Done?
    ensures Count(members, Accepted(host, enable)) == 0 <==>
      forall x :: x in members ==> host(x, enable, 0).Failed?
  {
    CountBound(members, Accepted(host, enable));
    FilterAll(members, Accepted(host, enable));
    CountPositive(members, Accepted(host, enable));
  }

  /** The `setEnabled` calls of `toggleGroup`, one per member, with the
      number that succeeded (`successCount++` in each resolved callback). */
  method SetAll(members: seq<ExtId>, enable: bool, host: HostOracle) returns (successCount: nat)
    ensures successCount == Count(members, Accepted(host, enable))
  {
    successCount := 0;
    for i := 0 to |members|
      invariant successCount == Count(members[..i], Accepted(host, enable))
    {
      FilterAppend(members[..i], [members[i]], Accepted(host, enable));
      assert members[..i + 1] == members[..i] + [members[i]];
      var reply := host(members[i], enable, 0);
      if reply.Done? {
        successCount := successCount + 1;
      }
    }
    assert members[..|members|] == members;
  }

  // ---------------------------------------------------------------- the page

  class ExtensionWranglerSettings {
    var groups: Groups
    var extensions: Registry
    var groupOrder: seq<GroupId>
    /** The group the modal edits; `None` while creating. */
    var editingGroupId: Option<GroupId>
    /** chrome.storage.local as this page sees it. */
    var store: Stored
    /** chrome.runtime.id */
    const selfId: ExtId

    ghost predicate Valid()
      reads this
    {
      groups.Valid() && extensions.Valid() && store.Valid()
    }

    /** The layout the page holds. */
    function Current(): Layout
      reads this
    {
      Layout(groups, groupOrder, store)
    }

    constructor(selfId: ExtId, store: Stored)
      requires store.Valid()
      ensures Valid()
      ensures this.selfId == selfId && this.store == store
      ensures groups == Empty() && extensions == Empty() && groupOrder == [] && editingGroupId == None
    {
      this.selfId := selfId;
      this.store := store;
      groups := Empty();
      extensions := Empty();
      groupOrder := [];
      editingGroupId := None;
    }

    /** `init`: the layout first, then the registry; the settings page never prunes. */
    method Init(readFails: bool, fetch: Fetch)
      requires Valid()
      modifies this
      ensures Valid()
      ensures Current() == if readFails then old(Current()) else LoadStored(old(store))
      ensures extensions == if fetch.Fetched? then R.Snapshot(fetch.list, selfId) else old(extensions)
      ensures editingGroupId == old(editingGroupId)
    {
      LoadData(readFails);
      LoadExtensions(fetch);
    }

    method SaveData()
      requires Valid()
      modifies this
      ensures Valid()
      ensures store == old(store).(groups := Some(groups))
      ensures groups == old(groups) && groupOrder == old(groupOrder)
      ensures extensions == old(extensions) && editingGroupId == old(editingGroupId)
    {
      store := store.(groups := Some(groups));
    }

    method SaveGroupOrder()
      requires Valid()
      modifies this
      ensures Valid()
      ensures store == old(store).(groupOrder := Some(groupOrder))
      ensures groups == old(groups) && groupOrder == old(groupOrder)
      ensures extensions == old(extensions) && editingGroupId == old(editingGroupId)
    {
      store := store.(groupOrder := Some(groupOrder));
    }

    /** `loadData`: a failed read only raises a notification and leaves the
        page as it was; otherwise the shared load, with no pruning. */
    method LoadData(readFails: bool)
      requires Valid()
      modifies this
      ensures Valid()
      ensures Current() == if readFails then old(Current()) else LoadStored(old(store))
      ensures extensions == old(extensions) && editingGroupId == old(editingGroupId)
    {
      if readFails {
        return;
      }
      groups := store.groups.GetOr(Empty());
      groupOrder := store.groupOrder.GetOr([]);
      if AlwaysOn !in groups.items {
        groups := groups.Put(AlwaysOn, FixedGroup());
        SaveData();
      }
      if |groupOrder| == 0 {
        groupOrder := groups.keys;
        SaveGroupOrder();
      }
    }

    /** `loadExtensions`: a failing getAll() keeps the registry the page had. */
    method LoadExtensions(fetch: Fetch)
      requires Valid()
      modifies this
      ensures Valid()
      ensures extensions == if fetch.Fetched? then R.Snapshot(fetch.list, selfId) else old(extensions)
      ensures Current() == old(Current()) && editingGroupId == old(editingGroupId)
    {
      if fetch.Fetched? {
        extensions := R.Load(fetch.list, selfId);
      }
    }

    /** `saveGroup`; a save that went through closes the modal. */
    method SaveGroup(rawName: string, selected: seq<ExtId>, now: nat) returns (outcome: SaveOutcome)
      requires Valid()
      modifies this
      ensures Valid()
      ensures Saved(outcome, Current()) == SaveGroupResult(old(Current()), old(editingGroupId), rawName, selected, now)
      ensures editingGroupId == if outcome == Updated || outcome == Created then None else old(editingGroupId)
      ensures extensions == old(extensions)
    {
      var name := Trim(rawName);
      if name == [] {
        return NameRequired;
      }
      if editingGroupId.Some? && editingGroupId.value != "" {
        var id := editingGroupId.value;
        if id !in groups.items {
          return Missing;
        }
        groups := groups.Put(id, groups.items[id].(name := name, extensions := selected));
        outcome := Updated;
      } else {
        var id := GroupIdFor(now);
        groups := groups.Put(id, Group(id, name, selected, false));
        groupOrder := [id] + groupOrder;
        SaveGroupOrder();
        outcome := Created;
      }
      SaveData();
      editingGroupId := None;
    }

    /** `deleteGroup`, with the answer to `confirm` as `confirmed`. */
    method DeleteGroup(groupId: GroupId, confirmed: bool)
      requires Valid()
      modifies this
      ensures Valid()
      ensures Current() == DeleteGroupResult(old(Current()), groupId, confirmed)
      ensures extensions == old(extensions) && editingGroupId == old(editingGroupId)
    {
      if groupId !in groups.items || groups.items[groupId].isDefault {
        return;
      }
      if confirmed {
        groups := groups.Remove(groupId);
        groupOrder := Without(groupOrder, groupId);
        SaveData();
        SaveGroupOrder();
      }
    }

    /** `addExtensionToGroup` */
    method AddExtensionToGroup(extId: ExtId, groupId: GroupId)
      requires Valid()
      modifies this
      ensures Valid()
      ensures Current() == AddExtensionResult(old(Current()), extId, groupId)
      ensures extensions == old(extensions) && editingGroupId == old(editingGroupId)
    {
      if groupId !in groups.items {
        return;
      }
      if extId !in groups.items[groupId].extensions {
        groups := groups.Put(groupId, groups.items[groupId].(extensions := groups.items[groupId].extensions + [extId]));
        SaveData();
      }
    }

    /** `reorderGroups`: the two `splice` calls on the order, then the order is saved. */
    method ReorderGroups(draggedId: GroupId, targetId: GroupId)
      requires Valid()
      modifies this
      ensures Valid()
      ensures groupOrder == Reordered(old(groupOrder), draggedId, targetId)
      ensures store == if draggedId in old(groupOrder) && targetId in old(groupOrder)
        then old(store).(groupOrder := Some(groupOrder)) else old(store)
      ensures groups == old(groups) && extensions == old(extensions) && editingGroupId == old(editingGroupId)
    {
      var draggedIndex := IndexOf(groupOrder, draggedId);
      var targetIndex := IndexOf(groupOrder, targetId);
      if draggedIndex == -1 || targetIndex == -1 {
        return;
      }
      groupOrder := RemoveAt(groupOrder, draggedIndex);
      var newTargetIndex := IndexOf(groupOrder, targetId);
      if draggedIndex < targetIndex {
        groupOrder := InsertAt(groupOrder, newTargetIndex + 1, draggedId);
      } else {
        groupOrder := InsertAt(groupOrder, newTargetIndex, draggedId);
      }
      SaveGroupOrder();
    }

    /** `importGroups`, with the answer to `confirm` as `confirmed`. */
    method ImportGroups(file: Option<ImportFile>, confirmed: bool) returns (outcome: ImportOutcome)
      requires Valid()
      requires file.Some? && file.value.Parsed? && file.value.groups.AnObject? ==> file.value.groups.groups.Valid()
      modifies this
      ensures Valid()
      ensures ImportResult(outcome, Current()) == ImportGroupsResult(old(Current()), file, confirmed)
      ensures extensions == old(extensions) && editingGroupId == old(editingGroupId)
    {
      if file.None? {
        return NoFile;
      }
      match file.value {
        case Unreadable =>
          return ImportFailed;
        case Parsed(data) =>
          if !data.AnObject? {
            return ImportFailed;
          }
          if !confirmed {
            return Declined;
          }
          groups := data.groups;
          SaveData();
          outcome := Imported;
      }
    }

    /** `toggleGroup`: nothing for a missing group; otherwise one
        `setEnabled` per member, counting the ones that succeed, then the
        registry is loaded again. */
    method ToggleGroup(groupId: GroupId, enable: bool, host: HostOracle, fetch: Fetch)
      returns (successCount: nat, totalCount: nat)
      requires Valid()
      modifies this
      ensures Valid()
      ensures groupId !in old(groups).items ==>
        successCount == 0 && totalCount == 0 && extensions == old(extensions)
      ensures groupId in old(groups).items ==>
        var members := old(groups).items[groupId].extensions;
        && totalCount == |members|
        && successCount == Count(members, Accepted(host, enable))
        && extensions == if fetch.Fetched? then R.Snapshot(fetch.list, selfId) else old(extensions)
      ensures Current() == old(Current()) && editingGroupId == old(editingGroupId)
    {
      if groupId !in groups.items {
        return 0, 0;
      }
      var members := groups.items[groupId].extensions;
      successCount := SetAll(members, enable, host);
      totalCount := |members|;
      LoadExtensions(fetch);
    }
  }
}
