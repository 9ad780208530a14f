/** The analyses of the debugging page (debugger.js): which diagnostic results
    failed, the error patterns they show, the characteristics the failed
    extensions share, and the health of each stored group. */
module Diagnostics {
  import opened Types
  import opened Dicts
  import opened Seqs
  import opened Tallies

  /** A string field that is truthy: present and not empty. */
  predicate Present(s: Option<string>) {
    s.Some? && s.value != ""
  }

  // ---------------------------------------------------------------- characteristics

  /** The `chars` object of `analyzeCharacteristics`. */
  datatype Characteristics = Characteristics(
    permissions: Dict<nat>,
    types: Dict<nat>,
    installTypes: Dict<nat>,
    updateUrls: nat,
    hostPermissions: Dict<nat>,
    disabledReasons: Dict<nat>)
  {
    ghost predicate Valid() {
      permissions.Valid() && types.Valid() && installTypes.Valid() && hostPermissions.Valid() && disabledReasons.Valid()
    }
  }

  function NoCharacteristics(): (c: Characteristics)
    ensures c.Valid()
  {
    Characteristics(Empty(), Empty(), Empty(), 0, Empty(), Empty())
  }

  predicate HasUpdateUrl(e: Extension) { Present(e.updateUrl) }
  predicate HasDisabledReason(e: Extension) { Present(e.disabledReason) }

  /** One pass of the `forEach` body over `ext`. */
  function Characterize(c: Characteristics, ext: Extension): (r: Characteristics)
    requires c.Valid()
    ensures r.Valid()
  {
    Characteristics(
      if ext.permissions.Some? then BumpAll(c.permissions, ext.permissions.value) else c.permissions,
      Bump(c.types, ext.kind),
      Bump(c.installTypes, ext.installType),
      c.updateUrls + (if HasUpdateUrl(ext) then 1 else 0),
      if ext.hostPermissions.Some? then BumpAll(c.hostPermissions, ext.hostPermissions.value) else c.hostPermissions,
      if HasDisabledReason(ext) then Bump(c.disabledReasons, ext.disabledReason.value) else c.disabledReasons)
  }

  /** What `analyzeCharacteristics(exts)` returns. */
  function CharacteristicsOf(exts: seq<Extension>): (c: Characteristics)
    ensures c.Valid()
  {
    if exts == [] then NoCharacteristics()
    else Characterize(CharacteristicsOf(exts[..|exts| - 1]), exts[|exts| - 1])
  }

  /** The extensions' `type` fields, in order. */
  function KindsOf(exts: seq<Extension>): (r: seq<string>)
    ensures |r| == |exts|
  {
    if exts == [] then [] else KindsOf(exts[..|exts| - 1]) + [exts[|exts| - 1].kind]
  }

  /** The extensions' `installType` fields, in order. */
  function InstallTypesOf(exts: seq<Extension>): (r: seq<string>)
    ensures |r| == |exts|
  {
    if exts == [] then [] else InstallTypesOf(exts[..|exts| - 1]) + [exts[|exts| - 1].installType]
  }

  /** All permission lists, one after the other. */
  function PermissionsOf(exts: seq<Extension>): seq<string>
  {
    if exts == [] then [] else PermissionsOf(exts[..|exts| - 1]) + exts[|exts| - 1].permissions.GetOr([])
  }

  /** All host permission lists, one after the other. */
  function HostPermissionsOf(exts: seq<Extension>): seq<string>
  {
    if exts == [] then [] else HostPermissionsOf(exts[..|exts| - 1]) + exts[|exts| - 1].hostPermissions.GetOr([])
  }

  /** The truthy `disabledReason` fields, in order. */
  function ReasonsOf(exts: seq<Extension>): seq<string>
  {
    if exts == [] then []
    else
      var e := exts[|exts| - 1];
      ReasonsOf(exts[..|exts| - 1]) + (if HasDisabledReason(e) then [e.disabledReason.value] else [])
  }

  /** Each tally is the bumping of the corresponding field list, and the
      update-URL counter counts the extensions with a truthy update URL. */
  lemma CharacteristicsParts(exts: seq<Extension>)
    ensures var c := CharacteristicsOf(exts);
      && c.permissions == BumpAll(Empty(), PermissionsOf(exts))
      && c.types == BumpAll(Empty(), KindsOf(exts))
      && c.installTypes == BumpAll(Empty(), InstallTypesOf(exts))
      && c.updateUrls == Count(exts, HasUpdateUrl)
      && c.hostPermissions == BumpAll(Empty(), HostPermissionsOf(exts))
      && c.disabledReasons == BumpAll(Empty(), ReasonsOf(exts))
      && |ReasonsOf(exts)| == Count(exts, HasDisabledReason)
  {
    PermissionsPart(exts);
    HostPermissionsPart(exts);
    KindsPart(exts);
    InstallTypesPart(exts);
    UpdateUrlsPart(exts);
    ReasonsPart(exts);
  }

  lemma {:induction false} PermissionsPart(exts: seq<Extension>)
    ensures CharacteristicsOf(exts).permissions == BumpAll(Empty(), PermissionsOf(exts))
  {
    if exts != [] {
      var init := exts[..|exts| - 1];
      PermissionsPart(init);
      BumpAllAppend(Empty(), PermissionsOf(init), exts[|exts| - 1].permissions.GetOr([]));
    }
  }

  lemma {:induction false} HostPermissionsPart(exts: seq<Extension>)
    ensures CharacteristicsOf(exts).hostPermissions == BumpAll(Empty(), HostPermissionsOf(exts))
  {
    if exts != [] {
      var init := exts[..|exts| - 1];
      HostPermissionsPart(init);
      BumpAllAppend(Empty(), HostPermissionsOf(init), exts[|exts| - 1].hostPermissions.GetOr([]));
    }
  }

  lemma {:induction false} KindsPart(exts: seq<Extension>)
    ensures CharacteristicsOf(exts).types == BumpAll(Empty(), KindsOf(exts))
  {
    if exts != [] {
      var init := exts[..|exts| - 1];
      KindsPart(init);
      SnocBumps(KindsOf(init), exts[|exts| - 1].kind);
    }
  }

  lemma {:induction false} InstallTypesPart(exts: seq<Extension>)
    ensures CharacteristicsOf(exts).installTypes == BumpAll(Empty(), InstallTypesOf(exts))
  {
    if exts != [] {
      var init := exts[..|exts| - 1];
      InstallTypesPart(init);
      SnocBumps(InstallTypesOf(init), exts[|exts| - 1].installType);
    }
  }

  lemma {:induction false} UpdateUrlsPart(exts: seq<Extension>)
    ensures CharacteristicsOf(exts).updateUrls == Count(exts, HasUpdateUrl)
  {
    if exts != [] {
      var init := exts[..|exts| - 1];
      UpdateUrlsPart(init);
      CountLast(exts, HasUpdateUrl);
    }
  }

  lemma {:induction false} ReasonsPart(exts: seq<Extension>)
    ensures CharacteristicsOf(exts).disabledReasons == BumpAll(Empty(), ReasonsOf(exts))
    ensures |ReasonsOf(exts)| == Count(exts, HasDisabledReason)
  {
    if exts != [] {
      var init := exts[..|exts| - 1];
      var e := exts[|exts| - 1];
      ReasonsPart(init);
      if HasDisabledReason(e) {
        SnocBumps(ReasonsOf(init), e.disabledReason.value);
      } else {
        assert ReasonsOf(exts) == ReasonsOf(init);
      }
      CountLast(exts, HasDisabledReason);
    }
  }

  lemma SnocBumps(keys: seq<string>, k: string)
    ensures BumpAll(Empty(), keys + [k]) == Bump(BumpAll(Empty(), keys), k)
  {
    assert (keys + [k])[..|keys|] == keys;
  }

  /** Each type and install type is counted once per extension, so their
      counts add up to the number of extensions; only truthy disabled reasons
      are counted; and at most every extension has an update URL. */
  lemma CharacteristicsTotals(exts: seq<Extension>)
    ensures var c := CharacteristicsOf(exts);
      && Total(c.types) == |exts| && Total(c.installTypes) == |exts|
      && Total(c.disabledReasons) == Count(exts, HasDisabledReason)
      && c.updateUrls == Count(exts, HasUpdateUrl) <= |exts|
  {
    KindsPart(exts);
    TotalFromEmpty(KindsOf(exts));
    InstallTypesPart(exts);
    TotalFromEmpty(InstallTypesOf(exts));
    ReasonsPart(exts);
    TotalFromEmpty(ReasonsOf(exts));
    UpdateUrlsPart(exts);
    CountBound(exts, HasUpdateUrl);
  }

  lemma TotalFromEmpty(keys: seq<string>)
    ensures Total(BumpAll(Empty(), keys)) == |keys|
  {
    TotalBumpAll(Empty(), keys);
  }

  /** Every type, install type, permission, host permission and truthy
      disabled reason is counted once per occurrence among the extensions. */
  lemma CharacteristicsTallies(exts: seq<Extension>, key: string)
    ensures var c := CharacteristicsOf(exts);
      && Tally(c.types, key) == Occurrences(KindsOf(exts), key)
      && Tally(c.installTypes, key) == Occurrences(InstallTypesOf(exts), key)
      && Tally(c.permissions, key) == Occurrences(PermissionsOf(exts), key)
      && Tally(c.hostPermissions, key) == Occurrences(HostPermissionsOf(exts), key)
      && Tally(c.disabledReasons, key) == Occurrences(ReasonsOf(exts), key)
  {
    KindsPart(exts);
    BumpAllOnce(KindsOf(exts), key);
    InstallTypesPart(exts);
    BumpAllOnce(InstallTypesOf(exts), key);
    PermissionsPart(exts);
    BumpAllOnce(PermissionsOf(exts), key);
    HostPermissionsPart(exts);
    BumpAllOnce(HostPermissionsOf(exts), key);
    ReasonsPart(exts);
    BumpAllOnce(ReasonsOf(exts), key);
  }

  lemma BumpAllOnce(keys: seq<string>, key: string)
    ensures Tally(BumpAll(Empty(), keys), key) == Occurrences(keys, key)
  {
    BumpAllTally(Empty(), keys, key);
  }

  /** `analyzeCharacteristics`: one `forEach` over the extensions, bumping
      the counters of `chars` in place. */
  method AnalyzeCharacteristics(exts: seq<Extension>) returns (chars: Characteristics)
    ensures chars == CharacteristicsOf(exts)
  {
    chars := NoCharacteristics();
    for i := 0 to |exts|
      invariant chars == CharacteristicsOf(exts[..i])
    {
      assert exts[..i + 1][..i] == exts[..i];
      chars := CountExtension(chars, exts[i]);
    }
    assert exts[..|exts|] == exts;
  }

  /** The body of the `forEach` for one extension. */
  method CountExtension(chars: Characteristics, ext: Extension) returns (r: Characteristics)
    requires chars.Valid()
    ensures r == Characterize(chars, ext)
  {
    var permissions := chars.permissions;
    if ext.permissions.Some? {
      permissions := BumpEach(permissions, ext.permissions.value);
    }
    var types := Bump(chars.types, ext.kind);
    var installTypes := Bump(chars.installTypes, ext.installType);
    var updateUrls := chars.updateUrls;
    if ext.updateUrl.Some? && ext.updateUrl.value != "" {
      updateUrls := updateUrls + 1;
    }
    var hostPermissions := chars.hostPermissions;
    if ext.hostPermissions.Some? {
      hostPermissions := BumpEach(hostPermissions, ext.hostPermissions.value);
    }
    var disabledReasons := chars.disabledReasons;
    if ext.disabledReason.Some? && ext.disabledReason.value != "" {
      disabledReasons := Bump(disabledReasons, ext.disabledReason.value);
    }
    ghost var c := Characterize(chars, ext);
    assert permissions == c.permissions && hostPermissions == c.hostPermissions;
    assert updateUrls == c.updateUrls && disabledReasons == c.disabledReasons;
    r := Characteristics(permissions, types, installTypes, updateUrls, hostPermissions, disabledReasons);
  }

  // ---------------------------------------------------------------- error patterns

  /** One entry of the `results` of `runFullDiagnostics` (times left out). */
  datatype DiagResult = DiagResult(
    extension: Extension,
    disableSuccess: bool,
    enableSuccess: bool,
    disableError: Option<string>,
    enableError: Option<string>)

  /** `!r.disableSuccess || !r.enableSuccess` */
  predicate TestFailed(r: DiagResult) {
    !r.disableSuccess || !r.enableSuccess
  }

  /** `[result.disableError, result.enableError].filter(Boolean)` */
  function ErrorsOf(r: DiagResult): (errors: seq<string>)
    ensures |errors| <= 2
  {
    (if Present(r.disableError) then [r.disableError.value] else [])
    + (if Present(r.enableError) then [r.enableError.value] else [])
  }

  /** The extensions listed under `error`, or none. */
  function Listed(patterns: Dict<seq<Extension>>, error: string): seq<Extension> {
    if error in patterns.items then patterns.items[error] else []
  }

  /** `if (!errorPatterns[error]) errorPatterns[error] = []; errorPatterns[error].push(ext)` */
  function Push(patterns: Dict<seq<Extension>>, error: string, ext: Extension): (r: Dict<seq<Extension>>)
    requires patterns.Valid()
    ensures r.Valid()
  {
    patterns.Put(error, Listed(patterns, error) + [ext])
  }

  /** Pushing `ext` under each of `errors`, in order. */
  function PushAll(patterns: Dict<seq<Extension>>, errors: seq<string>, ext: Extension): (r: Dict<seq<Extension>>)
    requires patterns.Valid()
    ensures r.Valid()
    decreases |errors|
  {
    if errors == [] then patterns
    else Push(PushAll(patterns, errors[..|errors| - 1], ext), errors[|errors| - 1], ext)
  }

  /** The `errorPatterns` that the `forEach` builds from the failed results `failed`. */
  function PatternsOf(failed: seq<DiagResult>): (r: Dict<seq<Extension>>)
    ensures r.Valid()
  {
    if failed == [] then Empty()
    else
      var last := failed[|failed| - 1];
      PushAll(PatternsOf(failed[..|failed| - 1]), ErrorsOf(last), last.extension)
  }

  /** The reference definition: result by result, the extension once for a
      disable error equal to `error` and once for an enable error equal to it. */
  function Affected(results: seq<DiagResult>, error: string): seq<Extension> {
    if results == [] then []
    else
      var r := results[|results| - 1];
      Affected(results[..|results| - 1], error)
      + (if Present(r.disableError) && r.disableError.value == error then [r.extension] else [])
      + (if Present(r.enableError) && r.enableError.value == error then [r.extension] else [])
  }

  /** `errorPatterns[e]` lists, in result order, the extensions whose disable
      or enable error is `e`, and `e` is a key exactly when there is one. */
  lemma {:induction false} PatternsMeaning(failed: seq<DiagResult>, error: string)
    ensures Listed(PatternsOf(failed), error) == Affected(failed, error)
    ensures error in PatternsOf(failed).items <==> Affected(failed, error) != []
  {
    if failed != [] {
      var init := failed[..|failed| - 1];
      var last := failed[|failed| - 1];
      PatternsMeaning(init, error);
      PushErrors(PatternsOf(init), last, error);
    }
  }

  /** Pushing `ext` under `e` adds it at the end of the list under `e` only. */
  lemma ListedPush(patterns: Dict<seq<Extension>>, e: string, ext: Extension, error: string)
    requires patterns.Valid()
    ensures Listed(Push(patterns, e, ext), error) == Listed(patterns, error) + (if e == error then [ext] else [])
    ensures error in Push(patterns, e, ext).items <==> error in patterns.items || e == error
  {
  }

  /** Pushing a result's errors adds its extension under `error` once per matching error. */
  lemma PushErrors(patterns: Dict<seq<Extension>>, r: DiagResult, error: string)
    requires patterns.Valid()
    requires error in patterns.items <==> Listed(patterns, error) != []
    ensures var p := PushAll(patterns, ErrorsOf(r), r.extension);
      && Listed(p, error) == Listed(patterns, error)
           + (if Present(r.disableError) && r.disableError.value == error then [r.extension] else [])
           + (if Present(r.enableError) && r.enableError.value == error then [r.extension] else [])
      && (error in p.items <==> Listed(p, error) != [])
  {
    var x := r.extension;
    var d := r.disableError;
    var n := r.enableError;
    if Present(d) && Present(n) {
      PushTwo(patterns, d.value, n.value, x);
      ListedPush(patterns, d.value, x, error);
      ListedPush(Push(patterns, d.value, x), n.value, x, error);
    } else if Present(d) {
      PushOne(patterns, d.value, x);
      ListedPush(patterns, d.value, x, error);
    } else if Present(n) {
      PushOne(patterns, n.value, x);
      ListedPush(patterns, n.value, x, error);
    } else {
      assert ErrorsOf(r) == [];
    }
  }

  lemma PushOne(patterns: Dict<seq<Extension>>, e: string, ext: Extension)
    requires patterns.Valid()
    ensures PushAll(patterns, [e], ext) == Push(patterns, e, ext)
  {
    assert [e][..0] == [];
  }

  lemma PushTwo(patterns: Dict<seq<Extension>>, e1: string, e2: string, ext: Extension)
    requires patterns.Valid()
    ensures PushAll(patterns, [e1, e2], ext) == Push(Push(patterns, e1, ext), e2, ext)
  {
    assert [e1, e2][..1] == [e1];
    PushOne(patterns, e1, ext);
  }

  /** `errors.forEach(error => ...push(ext))` */
  method PushEach(patterns: Dict<seq<Extension>>, errors: seq<string>, ext: Extension)
    returns (r: Dict<seq<Extension>>)
    requires patterns.Valid()
    ensures r == PushAll(patterns, errors, ext)
  {
    r := patterns;
    for j := 0 to |errors|
      invariant r == PushAll(patterns, errors[..j], ext)
    {
      assert errors[..j + 1][..j] == errors[..j];
      r := Push(r, errors[j], ext);
    }
    assert errors[..|errors|] == errors;
  }

  /** `analyzeResults`: the failed results, the `errorPatterns` the nested
      `forEach` builds from them, and the characteristics of their extensions. */
  method AnalyzeResults(results: seq<DiagResult>)
    returns (failed: seq<DiagResult>, errorPatterns: Dict<seq<Extension>>, characteristics: Characteristics)
    ensures failed == Filter(results, TestFailed)
    ensures errorPatterns == PatternsOf(failed)
    ensures characteristics == CharacteristicsOf(ExtensionsOf(failed))
  {
    failed := Filter(results, TestFailed);
    errorPatterns := Empty();
    for i := 0 to |failed|
      invariant errorPatterns == PatternsOf(failed[..i])
    {
      var result := failed[i];
      assert failed[..i + 1][..i] == failed[..i];
      errorPatterns := PushEach(errorPatterns, ErrorsOf(result), result.extension);
    }
    assert failed[..|failed|] == failed;
    characteristics := AnalyzeCharacteristics(ExtensionsOf(failed));
  }

  /** `failedExtensions.map(r => r.extension)` */
  function ExtensionsOf(results: seq<DiagResult>): (exts: seq<Extension>)
    ensures |exts| == |results|
    ensures forall i :: 0 <= i < |results| ==> exts[i] == results[i].extension
  {
    seq(|results|, i requires 0 <= i < |results| => results[i].extension)
  }

  /** A result counts as failed exactly when its disable or its enable failed,
      and only failed results feed the patterns and the characteristics. */
  lemma FailedFacts(results: seq<DiagResult>)
    ensures forall r :: r in Filter(results, TestFailed) <==> r in results && (!r.disableSuccess || !r.enableSuccess)
    ensures |Filter(results, TestFailed)| == Count(results, TestFailed) <= |results|
  {
    FilterLength(results, TestFailed);
  }

  // ---------------------------------------------------------------- group health

  /** How `analyzeGroups` classifies one member of a group. */
  datatype MemberStatus = NotFound | Unmodifiable | Failing | Fine

  /** The disabled reasons that mark an extension as one that cannot be modified. */
  predicate Unchangeable(e: Extension) {
    e.disabledReason == Some("unknown") || e.disabledReason == Some("permissions_increase")
  }

  function StatusOf(extId: ExtId, reg: Registry, failed: set<ExtId>): MemberStatus {
    if extId !in reg.items then NotFound
    else if Unchangeable(reg.items[extId]) then Unmodifiable
    else if extId in failed then Failing
    else Fine
  }

  /** `failCount` and `unmodifiableCount` for one group. */
  datatype Health = Health(failCount: nat, unmodifiableCount: nat)

  /** The counts after one more member with status `status`. */
  function Tallied(h: Health, status: MemberStatus): Health {
    match status
    case Failing => h.(failCount := h.failCount + 1)
    case Unmodifiable => h.(unmodifiableCount := h.unmodifiableCount + 1)
    case _ => h
  }

  function HealthOf(members: seq<ExtId>, reg: Registry, failed: set<ExtId>): Health
  {
    if members == [] then Health(0, 0)
    else Tallied(HealthOf(members[..|members| - 1], reg, failed), StatusOf(members[|members| - 1], reg, failed))
  }

  predicate Healthy(h: Health) {
    h.failCount == 0 && h.unmodifiableCount == 0
  }

  /** A member the registry lacks is skipped; the unmodifiable check comes
      before the known-failure check; a group is reported healthy exactly
      when every member is either missing or neither unmodifiable nor known
      to fail; the two counts never exceed the group's size. */
  lemma {:induction false} HealthFacts(members: seq<ExtId>, reg: Registry, failed: set<ExtId>)
    ensures var h := HealthOf(members, reg, failed);
      && h.failCount + h.unmodifiableCount <= |members|
      && (Healthy(h) <==> forall i :: 0 <= i < |members| ==>
            StatusOf(members[i], reg, failed) == NotFound || StatusOf(members[i], reg, failed) == Fine)
  {
    if members != [] {
      var init := members[..|members| - 1];
      HealthFacts(init, reg, failed);
      assert forall i :: 0 <= i < |init| ==> init[i] == members[i];
    }
  }
}
