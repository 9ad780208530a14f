/** The extension registry every page rebuilds from chrome.management.getAll():
    only records of type "extension" other than the tool's own are kept
    (popup.js, settings.js, debugger.js and popup-debug.js share this filter),
    and the summary counts shown by the settings page and the debugger. */
module Registry {
  import opened Types
  import opened Dicts
  import opened Seqs

  /** The forEach test: a managed entry is an "extension" that is not this tool. */
  predicate Managed(e: Extension, selfId: ExtId) {
    e.kind == "extension" && e.id != selfId
  }

  /** The registry the forEach leaves after visiting `list` in order; a later
      entry with the same id overwrites an earlier one in place. */
  function Snapshot(list: seq<Extension>, selfId: ExtId): (r: Registry)
    ensures r.Valid()
  {
    if list == [] then Empty()
    else
      var prev := Snapshot(list[..|list| - 1], selfId);
      var e := list[|list| - 1];
      if Managed(e, selfId) then prev.Put(e.id, e) else prev
  }

  /** `this.extensions = {}; extensions.forEach(ext => { if (...) this.extensions[ext.id] = ext; })` */
  method Load(list: seq<Extension>, selfId: ExtId) returns (reg: Registry)
    ensures reg == Snapshot(list, selfId)
    ensures reg.Valid()
  {
    reg := Empty();
    for i := 0 to |list|
      invariant reg == Snapshot(list[..i], selfId)
    {
      var e := list[i];
      assert list[..i + 1][..i] == list[..i];
      if e.kind == "extension" && e.id != selfId {
        reg := reg.Put(e.id, e);
      }
    }
    assert list[..|list|] == list;
  }

  /** Some entry of `list` is managed and has id `k`. */
  ghost predicate HasManaged(list: seq<Extension>, selfId: ExtId, k: ExtId) {
    exists i :: 0 <= i < |list| && list[i].id == k && Managed(list[i], selfId)
  }

  /** `e` occurs in `list` and no managed entry with id `k` comes after it. */
  ghost predicate LastManaged(list: seq<Extension>, selfId: ExtId, k: ExtId, e: Extension) {
    exists i :: 0 <= i < |list| && list[i] == e &&
      forall j :: i < j < |list| && list[j].id == k ==> !Managed(list[j], selfId)
  }

  /** An id is in the registry exactly when some managed entry has it. */
  lemma {:induction false} SnapshotKeys(list: seq<Extension>, selfId: ExtId, k: ExtId)
    ensures k in Snapshot(list, selfId).items <==> HasManaged(list, selfId, k)
  {
    if list != [] {
      var n := |list| - 1;
      var init := list[..n];
      SnapshotKeys(init, selfId, k);
      if HasManaged(init, selfId, k) {
        var i :| 0 <= i < |init| && init[i].id == k && Managed(init[i], selfId);
        assert list[i] == init[i];
      }
      if HasManaged(list, selfId, k) && !(list[n].id == k && Managed(list[n], selfId)) {
        var i :| 0 <= i < |list| && list[i].id == k && Managed(list[i], selfId);
        assert init[i] == list[i];
      }
    }
  }

  /** The record kept under an id is managed, carries that id, and is the
      last managed entry of `list` with it: later duplicates overwrite earlier ones. */
  lemma {:induction false} SnapshotValue(list: seq<Extension>, selfId: ExtId, k: ExtId)
    requires k in Snapshot(list, selfId).items
    ensures var e := Snapshot(list, selfId).items[k];
      e.id == k && Managed(e, selfId) && LastManaged(list, selfId, k, e)
  {
    var n := |list| - 1;
    var init := list[..n];
    var prev := Snapshot(init, selfId);
    var e := Snapshot(list, selfId).items[k];
    if list[n].id == k && Managed(list[n], selfId) {
      assert e == list[n];
    } else {
      assert k in prev.items && e == prev.items[k];
      SnapshotValue(init, selfId, k);
      var i :| 0 <= i < |init| && init[i] == e &&
        forall j :: i < j < |init| && init[j].id == k ==> !Managed(init[j], selfId);
      assert list[i] == e;
      forall j | i < j < |list| && list[j].id == k ensures !Managed(list[j], selfId) {
        if j < n { assert list[j] == init[j]; }
      }
    }
  }

  /** Key order: the registry of any prefix of `list` lists its ids first,
      in the same order, so an id takes its place when its first managed
      entry is visited and later duplicates never move it
      (`this.extensions[ext.id] = ext` on an existing key). With
      `SnapshotKeys` on the prefixes, the keys are the managed ids in order
      of first occurrence. */
  lemma {:induction false} SnapshotKeysGrow(list: seq<Extension>, selfId: ExtId, n: nat)
    requires n <= |list|
    ensures Snapshot(list[..n], selfId).keys <= Snapshot(list, selfId).keys
    decreases |list|
  {
    if n < |list| {
      var init := list[..|list| - 1];
      assert init[..n] == list[..n];
      SnapshotKeysGrow(init, selfId, n);
    } else {
      assert list[..n] == list;
    }
  }

  /** The counts the settings summary and the debugger's statistics show. */
  datatype Summary = Summary(total: nat, enabled: nat, disabled: nat)

  predicate IsEnabled(e: Extension) { e.enabled }
  predicate IsDisabled(e: Extension) { !e.enabled }

  /** total = number of extensions, enabled = those enabled, disabled = total - enabled,
      which is the number of extensions not enabled (settings.js:635-643, debugger.js:60-68). */
  function Summarize(reg: Registry): (s: Summary)
    requires reg.Valid()
    ensures s.total == |reg.keys|
    ensures s.enabled == Count(reg.Values(), IsEnabled)
    ensures s.disabled == Count(reg.Values(), IsDisabled)
    ensures s.enabled + s.disabled == s.total
  {
    var values := reg.Values();
    CountSplit(values, IsEnabled, IsDisabled);
    var total := |reg.keys|;
    var enabled := Count(values, IsEnabled);
    Summary(total, enabled, total - enabled)
  }
}
