/** Operations on the stored group layout shared by the popup and the settings
    page: inserting the reserved group, initialising the order, pruning members
    that are no longer installed, adding a member, removing a group and the
    drag-and-drop move of an id inside the order. */
module GroupStore {
  import opened Types
  import opened Dicts
  import opened Seqs
  import opened Text

  // ---------------------------------------------------------------- reserved group

  /** `if (!groups['always-on']) groups['always-on'] = {id: 'always-on', name: 'Fixed', ...}` */
  function WithFixedGroup(groups: Groups): (r: Groups)
    requires groups.Valid()
    ensures r.Valid()
    ensures AlwaysOn in r.items
    ensures AlwaysOn in groups.items ==> r == groups
    ensures AlwaysOn !in groups.items ==>
      r.keys == groups.keys + [AlwaysOn] && r.items == groups.items[AlwaysOn := FixedGroup()]
  {
    if AlwaysOn in groups.items then groups else groups.Put(AlwaysOn, FixedGroup())
  }

  /** Inserting the reserved group twice is the same as inserting it once, and a
      group other than the reserved one is never touched. */
  lemma FixedGroupIdempotent(groups: Groups)
    requires groups.Valid()
    ensures WithFixedGroup(WithFixedGroup(groups)) == WithFixedGroup(groups)
    ensures forall k :: k in groups.items ==> WithFixedGroup(groups).items[k] == groups.items[k]
    ensures forall k :: k in WithFixedGroup(groups).items <==> k in groups.items || k == AlwaysOn
  {
  }

  /** `if (groupOrder.length === 0) groupOrder = Object.keys(groups)` */
  function InitialOrder(order: seq<GroupId>, groups: Groups): (r: seq<GroupId>)
    ensures order != [] ==> r == order
    ensures order == [] ==> r == groups.keys
  {
    if |order| == 0 then groups.keys else order
  }

  /** After a load the order is never empty: either it was stored non-empty, or
      it lists every group key, the reserved one included. */
  lemma LoadedOrderNonEmpty(order: seq<GroupId>, groups: Groups)
    requires groups.Valid()
    ensures var g := WithFixedGroup(groups);
      InitialOrder(order, g) != [] &&
      (order == [] ==> AlwaysOn in InitialOrder(order, g) &&
                       forall k :: k in g.items ==> k in InitialOrder(order, g))
  {
  }

  /** The groups held in memory, their display order and the storage content. */
  datatype Layout = Layout(groups: Groups, order: seq<GroupId>, store: Stored)

  /** The part of `loadData` both pages share, from storage content `s` that
      was read: the stored groups (or none) with the reserved group inserted
      and saved when missing, and the stored order or, when it is empty, the
      group keys, saved. */
  function LoadStored(s: Stored): (l: Layout)
    requires s.Valid()
  {
    var stored := s.groups.GetOr(Empty());
    var g := WithFixedGroup(stored);
    var s1 := if AlwaysOn in stored.items then s else s.(groups := Some(g));
    var order := InitialOrder(s.groupOrder.GetOr([]), g);
    var s2 := if s.groupOrder.GetOr([]) == [] then s1.(groupOrder := Some(order)) else s1;
    Layout(g, order, s2)
  }

  /** After the load the reserved group is present (the empty default "Fixed"
      group when it had to be created), every stored group is kept as it was,
      the order is not empty, and storage holds the groups whenever it held
      any or had to be written, and the order whenever it was rewritten. */
  lemma LoadStoredFacts(s: Stored)
    requires s.Valid()
    ensures var l := LoadStored(s); var stored := s.groups.GetOr(Empty());
      && l.groups.Valid() && l.store.Valid()
      && AlwaysOn in l.groups.items
      && (AlwaysOn !in stored.items ==> l.groups.items[AlwaysOn] == FixedGroup())
      && (forall k :: k in stored.items ==> k in l.groups.items && l.groups.items[k] == stored.items[k])
      && l.order != []
      && (s.groupOrder.GetOr([]) != [] ==> l.order == s.groupOrder.value)
      && (s.groupOrder.GetOr([]) == [] ==> forall k :: k in l.groups.items ==> k in l.order)
      && l.store.groups == Some(l.groups)
      && l.store.groupOrder == Some(l.order)
      && l.store.failedToggles == s.failedToggles
  {
    LoadedOrderNonEmpty(s.groupOrder.GetOr([]), s.groups.GetOr(Empty()));
  }

  /** Loading again from what a load stored gives the same layout and writes nothing. */
  lemma LoadStoredStable(s: Stored)
    requires s.Valid()
    ensures var l := LoadStored(s); l.store.Valid() && LoadStored(l.store) == l
  {
    LoadStoredFacts(s);
  }

  /** The id `createGroup` gives a group created at time `now`: `'group-' + Date.now()`. */
  function GroupIdFor(now: nat): (id: GroupId)
    ensures |id| > 6 && id[..6] == "group-"
    ensures id != AlwaysOn
  {
    assert ("group-" + Digits(now))[..6] == "group-";
    assert ("group-" + Digits(now))[0] == 'g' && AlwaysOn[0] == 'a';
    "group-" + Digits(now)
  }

  // ---------------------------------------------------------------- orphan pruning

  /** The members of a group that are installed (`validExtensionIds.has`). */
  function Registered(members: seq<ExtId>, reg: Registry): seq<ExtId> {
    Filter(members, (id: ExtId) => id in reg.items)
  }

  /** The group after `group.extensions = group.extensions.filter(...)`. */
  function PrunedGroup(g: Group, reg: Registry): (r: Group)
    ensures r.id == g.id && r.name == g.name && r.isDefault == g.isDefault
    ensures forall x :: x in r.extensions <==> x in g.extensions && x in reg.items
    ensures |r.extensions| <= |g.extensions|
  {
    g.(extensions := Registered(g.extensions, reg))
  }

  /** `filter` keeps the survivors in their relative order: pruning a list
      split in two prunes each part and joins the results, and a single
      member survives exactly when it is installed. */
  lemma PrunedKeepsOrder(g: Group, reg: Registry, a: seq<ExtId>, b: seq<ExtId>)
    requires g.extensions == a + b
    ensures PrunedGroup(g, reg).extensions == Registered(a, reg) + Registered(b, reg)
    ensures |a| == 1 ==> Registered(a, reg) == if a[0] in reg.items then a else []
  {
    FilterAppend(a, b, (id: ExtId) => id in reg.items);
  }

  /** The pruning changes the length of `g`'s member list (`hasChanges = true`). */
  predicate Shrinks(g: Group, reg: Registry) {
    |Registered(g.extensions, reg)| != |g.extensions|
  }

  /** Every group pruned, no group added or removed, key order kept. */
  function Pruned(groups: Groups, reg: Registry): (r: Groups)
    requires groups.Valid()
    ensures r.Valid()
    ensures r.keys == groups.keys
    ensures forall k :: k in r.items ==> r.items[k] == PrunedGroup(groups.items[k], reg)
  {
    Dict(groups.keys, map k | k in groups.items :: PrunedGroup(groups.items[k], reg))
  }

  /** A group shrinks exactly when some member is not installed, and its
      pruned member list is then different; otherwise pruning keeps it as is. */
  lemma {:induction false} ShrinksIff(g: Group, reg: Registry)
    ensures Shrinks(g, reg) <==> exists x :: x in g.extensions && x !in reg.items
    ensures !Shrinks(g, reg) <==> PrunedGroup(g, reg) == g
  {
    var p := (id: ExtId) => id in reg.items;
    FilterLength(g.extensions, p);
    FilterAll(g.extensions, p);
  }

  /** After pruning every member of every group is installed and was a
      member before, and pruning a pruned layout changes nothing. The order
      of the survivors is `PrunedKeepsOrder`. */
  lemma {:induction false} PrunedFacts(groups: Groups, reg: Registry)
    requires groups.Valid()
    ensures forall k, x :: k in Pruned(groups, reg).items && x in Pruned(groups, reg).items[k].extensions ==>
      x in reg.items && x in groups.items[k].extensions
    ensures Pruned(Pruned(groups, reg), reg) == Pruned(groups, reg)
  {
    var r := Pruned(groups, reg);
    var rr := Pruned(r, reg);
    forall k | k in r.items ensures rr.items[k] == r.items[k] {
      var g := r.items[k];
      assert forall x :: x in g.extensions ==> x in reg.items;
      ShrinksIff(g, reg);
    }
    assert rr.items == r.items;
  }

  /** Pruning leaves the layout as it was exactly when no group shrinks. */
  lemma {:induction false} PrunedUnchangedIff(groups: Groups, reg: Registry)
    requires groups.Valid()
    ensures Pruned(groups, reg) == groups <==>
      forall k :: k in groups.items ==> !Shrinks(groups.items[k], reg)
  {
    var r := Pruned(groups, reg);
    if forall k :: k in groups.items ==> !Shrinks(groups.items[k], reg) {
      forall k | k in groups.items ensures r.items[k] == groups.items[k] {
        ShrinksIff(groups.items[k], reg);
      }
      assert r.items == groups.items;
    } else {
      var k :| k in groups.items && Shrinks(groups.items[k], reg);
      assert r.items[k] != groups.items[k];
    }
  }

  // ---------------------------------------------------------------- membership

  /** `if (!group.extensions.includes(extId)) group.extensions.push(extId)` */
  function WithMember(g: Group, extId: ExtId): (r: Group)
    ensures r.id == g.id && r.name == g.name && r.isDefault == g.isDefault
    ensures extId in r.extensions
  {
    if extId in g.extensions then g else g.(extensions := g.extensions + [extId])
  }

  /** Adding a member twice is the same as adding it once; a member already
      present changes nothing; an absent one is appended; a duplicate-free
      list stays duplicate-free. */
  lemma WithMemberFacts(g: Group, extId: ExtId)
    ensures WithMember(WithMember(g, extId), extId) == WithMember(g, extId)
    ensures extId in g.extensions ==> WithMember(g, extId) == g
    ensures extId !in g.extensions ==> WithMember(g, extId).extensions == g.extensions + [extId]
    ensures NoDuplicates(g.extensions) ==> NoDuplicates(WithMember(g, extId).extensions)
  {
    if extId !in g.extensions && NoDuplicates(g.extensions) {
      var s := g.extensions + [extId];
      forall i, j | 0 <= i < j < |s| ensures s[i] != s[j] {
        if j == |s| - 1 { assert s[i] in g.extensions; }
      }
    }
  }

  // ---------------------------------------------------------------- deletion

  /** `delete groups[id]; groupOrder = groupOrder.filter(x => x !== id)` */
  lemma DeletedFacts(groups: Groups, order: seq<GroupId>, id: GroupId)
    requires groups.Valid()
    ensures id !in groups.Remove(id).items && id !in Without(order, id)
    ensures forall k :: k in groups.items && k != id ==>
      k in groups.Remove(id).items && groups.Remove(id).items[k] == groups.items[k]
    ensures forall x :: x in Without(order, id) <==> x in order && x != id
  {
    WithoutFacts(order, id);
  }
}
