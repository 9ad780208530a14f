/** What the popup and the settings page derive from the layout for display:
    how many members of a group are enabled, the group's toggle state, what a
    click on the group toggle asks for, the order in which groups are listed,
    and which groups an extension belongs to. Both pages use the same code for
    the order and the state. */
module Display {
  import opened Types
  import opened Dicts
  import opened Seqs

  // ---------------------------------------------------------------- toggle state

  /** The member is installed and enabled (`this.extensions[extId] && this.extensions[extId].enabled`). */
  predicate IsOn(reg: Registry, extId: ExtId) {
    extId in reg.items && reg.items[extId].enabled
  }

  /** `group.extensions.filter(extId => ...enabled).length` */
  function EnabledCount(members: seq<ExtId>, reg: Registry): (n: nat)
    ensures n <= |members|
  {
    CountBound(members, (x: ExtId) => IsOn(reg, x));
    Count(members, (x: ExtId) => IsOn(reg, x))
  }

  datatype ToggleState = Enabled | Mixed | Disabled

  /** The state rendered with each group (popup.js renderGroups, settings.js renderGroups). */
  function ToggleStateOf(members: seq<ExtId>, reg: Registry): (s: ToggleState)
  {
    var n := EnabledCount(members, reg);
    if n == |members| && |members| > 0 then Enabled
    else if n > 0 then Mixed
    else Disabled
  }

  /** The state `updateGroupToggleState` puts on a group's button; `None`
      when the button or the group is missing. */
  function ButtonStateOf(groups: Groups, groupId: GroupId, reg: Registry, buttonShown: bool): (s: Option<ToggleState>)
  {
    if !buttonShown || groupId !in groups.items then None
    else
      var members := groups.items[groupId].extensions;
      var n := EnabledCount(members, reg);
      if n == 0 || |members| == 0 then Some(Disabled)
      else if n == |members| then Some(Enabled)
      else Some(Mixed)
  }

  /** The two ways the source computes a group's state always agree. */
  lemma ButtonAgreesWithRender(groups: Groups, groupId: GroupId, reg: Registry)
    requires groupId in groups.items
    ensures ButtonStateOf(groups, groupId, reg, true) == Some(ToggleStateOf(groups.items[groupId].extensions, reg))
  {
  }

  /** Enabled: a non-empty group all of whose members are installed and enabled.
      Mixed: some but not all members are. Disabled: none is (an empty group included). */
  lemma {:induction false} ToggleStateMeaning(members: seq<ExtId>, reg: Registry)
    ensures ToggleStateOf(members, reg) == Enabled <==>
      members != [] && forall x :: x in members ==> IsOn(reg, x)
    ensures ToggleStateOf(members, reg) == Mixed <==>
      (exists x :: x in members && IsOn(reg, x)) && (exists y :: y in members && !IsOn(reg, y))
    ensures ToggleStateOf(members, reg) == Disabled <==>
      forall x :: x in members ==> !IsOn(reg, x)
  {
    var p := (x: ExtId) => IsOn(reg, x);
    FilterAll(members, p);
    CountPositive(members, p);
  }

  /** The popup's click rule: enable only a disabled group, so a mixed group is disabled. */
  function PopupShouldEnable(s: ToggleState): bool { s == Disabled }

  /** The settings page's click rule: enable unless every member is already on. */
  function SettingsShouldEnable(s: ToggleState): bool { s != Enabled }

  /** The two pages ask for the same thing except on a mixed group, where the
      popup disables and the settings page enables. */
  lemma ClickRulesDiffer(s: ToggleState)
    ensures PopupShouldEnable(s) != SettingsShouldEnable(s) <==> s == Mixed
    ensures s == Mixed ==> !PopupShouldEnable(s) && SettingsShouldEnable(s)
  {
  }

  // ---------------------------------------------------------------- display order

  /** The stored-order part: `[...groupOrder].filter(id => groups[id] && !groups[id].isDefault).map(id => groups[id])`. */
  function StoredPart(order: seq<GroupId>, groups: Groups): (r: seq<Group>)
    ensures forall g :: g in r ==> !g.isDefault
  {
    if order == [] then []
    else
      var id := order[0];
      (if id in groups.items && !groups.items[id].isDefault then [groups.items[id]] else [])
        + StoredPart(order[1..], groups)
  }

  /** `Object.values(groups).find(g => g.isDefault)`, as a list of zero or one
      group: the first default group in value order. */
  function FixedPart(values: seq<Group>): (r: seq<Group>)
    ensures |r| <= 1
    ensures r != [] <==> exists g :: g in values && g.isDefault
    ensures r != [] ==> r[0].isDefault && r[0] in values
    ensures r != [] ==> exists i :: 0 <= i < |values| && r[0] == values[i] && forall j :: 0 <= j < i ==> !values[j].isDefault
  {
    if values == [] then []
    else if values[0].isDefault then [values[0]]
    else FixedPart(values[1..])
  }

  /** Some listed group carries the id `id` (`sortedGroups.find(g => g.id === group.id)`). */
  predicate HasId(gs: seq<Group>, id: GroupId) {
    gs != [] && (gs[0].id == id || HasId(gs[1..], id))
  }

  /** `find` succeeds exactly when some listed group carries the id. */
  lemma {:induction false} HasIdMeaning(gs: seq<Group>, id: GroupId)
    ensures HasId(gs, id) <==> exists g :: g in gs && g.id == id
  {
    if gs != [] {
      HasIdMeaning(gs[1..], id);
      assert forall x :: x in gs <==> x == gs[0] || x in gs[1..];
    }
  }

  /** The final pass: each non-default group whose id is not yet listed is put at the front. */
  function PrependMissing(values: seq<Group>, listed: seq<Group>): (r: seq<Group>)
  {
    if values == [] then listed
    else
      var g := values[0];
      PrependMissing(values[1..], if !HasId(listed, g.id) && !g.isDefault then [g] + listed else listed)
  }

  /** The order in which both pages list the groups. */
  function DisplayOrder(order: seq<GroupId>, groups: Groups): (r: seq<Group>)
    requires groups.Valid()
  {
    PrependMissing(groups.Values(), StoredPart(order, groups) + FixedPart(groups.Values()))
  }

  /** Every stored group carries its own key as id, which the source always writes. */
  ghost predicate KeysMatchIds(groups: Groups) {
    forall k :: k in groups.items ==> groups.items[k].id == k
  }

  function Reverse(s: seq<Group>): (r: seq<Group>)
    ensures |r| == |s|
  {
    if s == [] then [] else Reverse(s[1..]) + [s[0]]
  }

  /** The non-default groups whose id is missing from the stored order, in key order. */
  function Unordered(values: seq<Group>, order: seq<GroupId>): (r: seq<Group>)
    ensures forall g :: g in r <==> g in values && !g.isDefault && g.id !in order
  {
    if values == [] then []
    else
      var g := values[0];
      (if !g.isDefault && g.id !in order then [g] else []) + Unordered(values[1..], order)
  }

  /** The non-default groups whose id no group of `listed` carries, in order. */
  function Unlisted(values: seq<Group>, listed: seq<Group>): seq<Group>
  {
    if values == [] then []
    else
      var g := values[0];
      (if !HasId(listed, g.id) && !g.isDefault then [g] else []) + Unlisted(values[1..], listed)
  }

  /** The display order is: the non-default groups missing from the stored
      order (the last one first), then the non-default groups in stored
      order, then the first default group. */
  lemma DisplayOrderShape(order: seq<GroupId>, groups: Groups)
    requires groups.Valid() && KeysMatchIds(groups)
    ensures DisplayOrder(order, groups) ==
      Reverse(Unordered(groups.Values(), order)) + StoredPart(order, groups) + FixedPart(groups.Values())
  {
    DistinctIds(groups);
    ListedIffOrdered(order, groups);
    ShapeFromParts(groups.Values(), StoredPart(order, groups), FixedPart(groups.Values()), order);
  }

  /** The final pass over distinct ids puts the unlisted groups, last first, before the listed ones. */
  lemma ShapeFromParts(values: seq<Group>, sp: seq<Group>, fp: seq<Group>, order: seq<GroupId>)
    requires DistinctIdsIn(values) && ListedAsOrdered(values, sp + fp, order)
    ensures PrependMissing(values, sp + fp) == Reverse(Unordered(values, order)) + sp + fp
  {
    PrependMissingShape(values, sp + fp);
    UnlistedIsUnordered(values, sp + fp, order);
    var u := Reverse(Unordered(values, order));
    assert u + (sp + fp) == u + sp + fp;
  }

  /** No two groups of `values` carry the same id. */
  ghost predicate DistinctIdsIn(values: seq<Group>) {
    forall i, j :: 0 <= i < j < |values| ==> values[i].id != values[j].id
  }

  /** The non-default groups of `values` already in `listed` are those in `order`. */
  ghost predicate ListedAsOrdered(values: seq<Group>, listed: seq<Group>, order: seq<GroupId>) {
    forall g :: g in values && !g.isDefault ==> (HasId(listed, g.id) <==> g.id in order)
  }

  /** A non-default group's id is already listed before the final pass exactly
      when it is in the stored order. */
  lemma ListedIffOrdered(order: seq<GroupId>, groups: Groups)
    requires groups.Valid() && KeysMatchIds(groups)
    ensures ListedAsOrdered(groups.Values(), StoredPart(order, groups) + FixedPart(groups.Values()), order)
  {
    var values := groups.Values();
    var listed := StoredPart(order, groups) + FixedPart(values);
    forall g | g in values && !g.isDefault
      ensures HasId(listed, g.id) <==> g.id in order
    {
      ListedIffOrderedAt(order, groups, g);
    }
  }

  lemma ListedIffOrderedAt(order: seq<GroupId>, groups: Groups, g: Group)
    requires groups.Valid() && KeysMatchIds(groups) && g in groups.Values() && !g.isDefault
    ensures HasId(StoredPart(order, groups) + FixedPart(groups.Values()), g.id) <==> g.id in order
  {
    var sp := StoredPart(order, groups);
    var fp := FixedPart(groups.Values());
    ValueHasItsKey(groups, g);
    StoredPartHasId(order, groups, g.id);
    NotInFixedPart(groups, g);
    HasIdConcat(sp, fp, g.id);
  }

  /** The default group listed last never carries a non-default group's id. */
  lemma NotInFixedPart(groups: Groups, g: Group)
    requires groups.Valid() && KeysMatchIds(groups) && g in groups.Values() && !g.isDefault
    ensures !HasId(FixedPart(groups.Values()), g.id)
  {
    var fp := FixedPart(groups.Values());
    ValueHasItsKey(groups, g);
    if fp != [] {
      ValueHasItsKey(groups, fp[0]);
      assert fp[0].id != g.id;
      assert fp[1..] == [];
    }
  }

  lemma {:induction false} HasIdConcat(a: seq<Group>, b: seq<Group>, id: GroupId)
    ensures HasId(a + b, id) <==> HasId(a, id) || HasId(b, id)
  {
    if a != [] {
      assert (a + b)[1..] == a[1..] + b;
      HasIdConcat(a[1..], b, id);
    } else {
      assert a + b == b;
    }
  }

  /** Every non-default group is listed, every listed group is stored, and the
      list ends with the default group whenever there is one. */
  lemma DisplayOrderComplete(order: seq<GroupId>, groups: Groups)
    requires groups.Valid() && KeysMatchIds(groups)
    ensures forall g :: g in groups.Values() && !g.isDefault ==> g in DisplayOrder(order, groups)
    ensures forall g :: g in DisplayOrder(order, groups) ==> g in groups.Values()
    ensures (exists g :: g in groups.Values() && g.isDefault) ==>
      var r := DisplayOrder(order, groups); r != [] && r[|r| - 1].isDefault
  {
    DisplayOrderShape(order, groups);
    ShapeMembers(order, groups);
  }

  lemma ShapeMembers(order: seq<GroupId>, groups: Groups)
    requires groups.Valid() && KeysMatchIds(groups)
    ensures var vs := groups.Values();
      var r := Reverse(Unordered(vs, order)) + StoredPart(order, groups) + FixedPart(vs);
      && (forall g :: g in vs && !g.isDefault ==> g in r)
      && (forall g :: g in r ==> g in vs)
      && ((exists g :: g in vs && g.isDefault) ==> r != [] && r[|r| - 1].isDefault)
  {
    var vs := groups.Values();
    forall g | g in vs && !g.isDefault
      ensures g in Unordered(vs, order) || g in StoredPart(order, groups)
    {
      NonDefaultPlaced(order, groups, g);
    }
    StoredPartValues(order, groups);
    FixedPartFacts(vs);
    PartsFacts(Unordered(vs, order), StoredPart(order, groups), FixedPart(vs), vs);
  }

  /** A non-default group is either missing from the stored order or listed in the stored part. */
  lemma NonDefaultPlaced(order: seq<GroupId>, groups: Groups, g: Group)
    requires groups.Valid() && KeysMatchIds(groups) && g in groups.Values() && !g.isDefault
    ensures g in Unordered(groups.Values(), order) || g in StoredPart(order, groups)
  {
    ValueHasItsKey(groups, g);
    if g.id in order {
      StoredPartMembers(order, groups, g.id);
    }
  }

  lemma FixedPartFacts(values: seq<Group>)
    ensures var fp := FixedPart(values);
      && (forall g :: g in fp ==> g in values)
      && ((exists g :: g in values && g.isDefault) ==> fp != [] && fp[|fp| - 1].isDefault)
  {
    var fp := FixedPart(values);
    if fp != [] {
      assert fp == [fp[0]];
    }
  }

  lemma PartsFacts(un: seq<Group>, sp: seq<Group>, fp: seq<Group>, vs: seq<Group>)
    requires forall g :: g in vs && !g.isDefault ==> g in un || g in sp
    requires forall g :: g in un ==> g in vs
    requires forall g :: g in sp ==> g in vs
    requires forall g :: g in fp ==> g in vs
    requires (exists g :: g in vs && g.isDefault) ==> fp != [] && fp[|fp| - 1].isDefault
    ensures var r := Reverse(un) + sp + fp;
      && (forall g :: g in vs && !g.isDefault ==> g in r)
      && (forall g :: g in r ==> g in vs)
      && ((exists g :: g in vs && g.isDefault) ==> r != [] && r[|r| - 1].isDefault)
  {
    ReverseMembers(un);
    ConcatMembers(Reverse(un), sp, fp);
  }

  lemma ConcatMembers(a: seq<Group>, b: seq<Group>, c: seq<Group>)
    ensures forall g :: g in a + b + c <==> g in a || g in b || g in c
    ensures c != [] ==> (a + b + c)[|a + b + c| - 1] == c[|c| - 1]
  {
  }

  // ---------------------------------------------------------------- helpers for the order

  lemma {:induction false} PrependMissingShape(values: seq<Group>, listed: seq<Group>)
    requires DistinctIdsIn(values)
    ensures PrependMissing(values, listed) == Reverse(Unlisted(values, listed)) + listed
  {
    if values != [] {
      var g := values[0];
      DistinctTail(values);
      if !HasId(listed, g.id) && !g.isDefault {
        PrependMissingShape(values[1..], [g] + listed);
        PrependTaken(values, listed);
      } else {
        PrependMissingShape(values[1..], listed);
        PrependSkipped(values, listed);
      }
    }
  }

  /** The first group is not yet listed: it goes to the front, and the rest of
      the pass sees the same groups as unlisted. */
  lemma PrependTaken(values: seq<Group>, listed: seq<Group>)
    requires values != [] && !HasId(listed, values[0].id) && !values[0].isDefault
    requires forall x :: x in values[1..] ==> x.id != values[0].id
    requires PrependMissing(values[1..], [values[0]] + listed) ==
      Reverse(Unlisted(values[1..], [values[0]] + listed)) + ([values[0]] + listed)
    ensures PrependMissing(values, listed) == Reverse(Unlisted(values, listed)) + listed
  {
    var g := values[0];
    var rest := values[1..];
    var listed' := [g] + listed;
    var u := Unlisted(rest, listed);
    OtherIdsUnaffected(g, listed, rest);
    UnlistedSame(rest, listed', listed);
    calc {
      PrependMissing(values, listed);
      PrependMissing(rest, listed');
      Reverse(Unlisted(rest, listed')) + listed';
      Reverse(u) + listed';
      { assert Reverse(u) + [g] + listed == Reverse(u) + listed'; }
      Reverse(u) + [g] + listed;
      { ReverseCons(g, u); }
      Reverse([g] + u) + listed;
      Reverse(Unlisted(values, listed)) + listed;
    }
  }

  /** Listing `g` first does not change whether another id is listed. */
  lemma OtherIdsUnaffected(g: Group, listed: seq<Group>, rest: seq<Group>)
    requires forall x :: x in rest ==> x.id != g.id
    ensures forall x :: x in rest ==> (HasId([g] + listed, x.id) <==> HasId(listed, x.id))
  {
    forall x | x in rest ensures HasId([g] + listed, x.id) <==> HasId(listed, x.id) {
      HasIdConcat([g], listed, x.id);
      assert !HasId([g], x.id);
    }
  }

  lemma ReverseCons(g: Group, u: seq<Group>)
    ensures Reverse([g] + u) == Reverse(u) + [g]
  {
    assert ([g] + u)[1..] == u;
  }

  /** The first group is already listed or is a default group: the pass moves on. */
  lemma PrependSkipped(values: seq<Group>, listed: seq<Group>)
    requires values != [] && (HasId(listed, values[0].id) || values[0].isDefault)
    requires PrependMissing(values[1..], listed) == Reverse(Unlisted(values[1..], listed)) + listed
    ensures PrependMissing(values, listed) == Reverse(Unlisted(values, listed)) + listed
  {
    assert Unlisted(values, listed) == [] + Unlisted(values[1..], listed);
    assert [] + Unlisted(values[1..], listed) == Unlisted(values[1..], listed);
  }

  lemma DistinctTail(values: seq<Group>)
    requires values != [] && DistinctIdsIn(values)
    ensures DistinctIdsIn(values[1..])
    ensures forall x :: x in values[1..] ==> x.id != values[0].id
  {
    var rest := values[1..];
    forall x | x in rest ensures x.id != values[0].id {
      var j :| 0 <= j < |rest| && rest[j] == x;
      assert values[j + 1] == x;
    }
    forall i, j | 0 <= i < j < |rest| ensures rest[i].id != rest[j].id {
      assert rest[i] == values[i + 1] && rest[j] == values[j + 1];
    }
  }

  lemma {:induction false} UnlistedSame(s: seq<Group>, a: seq<Group>, b: seq<Group>)
    requires forall x :: x in s ==> (HasId(a, x.id) <==> HasId(b, x.id))
    ensures Unlisted(s, a) == Unlisted(s, b)
  {
    if s != [] {
      assert forall x :: x in s[1..] ==> x in s;
      UnlistedSame(s[1..], a, b);
    }
  }

  lemma {:induction false} UnlistedIsUnordered(s: seq<Group>, listed: seq<Group>, order: seq<GroupId>)
    requires ListedAsOrdered(s, listed, order)
    ensures Unlisted(s, listed) == Unordered(s, order)
  {
    if s != [] {
      assert forall x :: x in s[1..] ==> x in s;
      UnlistedIsUnordered(s[1..], listed, order);
    }
  }

  lemma {:induction false} ReverseMembers(s: seq<Group>)
    ensures forall x :: x in Reverse(s) <==> x in s
  {
    if s != [] {
      ReverseMembers(s[1..]);
      assert forall x :: x in s <==> x == s[0] || x in s[1..];
    }
  }

  /** Distinct keys carrying their own ids give distinct ids in key order. */
  lemma DistinctIds(groups: Groups)
    requires groups.Valid() && KeysMatchIds(groups)
    ensures DistinctIdsIn(groups.Values())
  {
    var vs := groups.Values();
    forall i, j | 0 <= i < j < |vs| ensures vs[i].id != vs[j].id {
      assert vs[i].id == groups.keys[i] && vs[j].id == groups.keys[j];
    }
  }

  /** A listed group is the one stored under its own id. */
  lemma ValueHasItsKey(groups: Groups, g: Group)
    requires groups.Valid() && KeysMatchIds(groups) && g in groups.Values()
    ensures g.id in groups.items && groups.items[g.id] == g
  {
    var vs := groups.Values();
    var i :| 0 <= i < |vs| && vs[i] == g;
    assert groups.keys[i] in groups.items;
  }

  lemma {:induction false} StoredPartHasId(order: seq<GroupId>, groups: Groups, id: GroupId)
    requires KeysMatchIds(groups)
    ensures HasId(StoredPart(order, groups), id) <==>
      id in order && id in groups.items && !groups.items[id].isDefault
  {
    if order != [] {
      StoredPartHasId(order[1..], groups, id);
      var x := order[0];
      var head := if x in groups.items && !groups.items[x].isDefault then [groups.items[x]] else [];
      HasIdConcat(head, StoredPart(order[1..], groups), id);
      assert forall y :: y in order <==> y == order[0] || y in order[1..];
    }
  }

  lemma {:induction false} StoredPartMembers(order: seq<GroupId>, groups: Groups, id: GroupId)
    requires id in order && id in groups.items && !groups.items[id].isDefault
    ensures groups.items[id] in StoredPart(order, groups)
  {
    if order[0] != id {
      StoredPartMembers(order[1..], groups, id);
    }
  }

  lemma {:induction false} StoredPartValues(order: seq<GroupId>, groups: Groups)
    requires groups.Valid()
    ensures forall g :: g in StoredPart(order, groups) ==> g in groups.Values()
  {
    if order != [] {
      StoredPartValues(order[1..], groups);
      var id := order[0];
      if id in groups.items {
        var i :| 0 <= i < |groups.keys| && groups.keys[i] == id;
        assert groups.Values()[i] == groups.items[id];
      }
    }
  }

  // ---------------------------------------------------------------- membership views

  /** The groups, in key order, whose member list includes `extId`. */
  function GroupsWith(groups: Groups, extId: ExtId): (r: seq<Group>)
    requires groups.Valid()
  {
    Filter(groups.Values(), (g: Group) => extId in g.extensions)
  }

  /** `getExtensionGroups(extId)`: the names of the groups that include `extId`. */
  function ExtensionGroupNames(groups: Groups, extId: ExtId): (names: seq<string>)
    requires groups.Valid()
    ensures |names| == |GroupsWith(groups, extId)|
    ensures forall i :: 0 <= i < |names| ==> names[i] == GroupsWith(groups, extId)[i].name
  {
    var gs := GroupsWith(groups, extId);
    seq(|gs|, i requires 0 <= i < |gs| => gs[i].name)
  }

  /** The groups offered in an extension's "add to group" dropdown: those that do not include it. */
  function AvailableGroups(groups: Groups, extId: ExtId): (r: seq<Group>)
    requires groups.Valid()
  {
    Filter(groups.Values(), (g: Group) => extId !in g.extensions)
  }

  /** Each group is either listed as one of the extension's groups or offered
      in its dropdown, never both, so the two lists together count every group. */
  lemma {:induction false} MembershipPartition(groups: Groups, extId: ExtId)
    requires groups.Valid()
    ensures forall g :: g in groups.Values() ==>
      (g in GroupsWith(groups, extId) <==> g !in AvailableGroups(groups, extId))
    ensures |ExtensionGroupNames(groups, extId)| + |AvailableGroups(groups, extId)| == |groups.keys|
    ensures forall g :: g in GroupsWith(groups, extId) ==> extId in g.extensions
    ensures forall g :: g in AvailableGroups(groups, extId) ==> extId !in g.extensions
  {
    var vs := groups.Values();
    var p := (g: Group) => extId in g.extensions;
    var q := (g: Group) => extId !in g.extensions;
    FilterLength(vs, p);
    FilterLength(vs, q);
    CountSplit(vs, p, q);
  }
}
