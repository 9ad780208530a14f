# Extension Wrangler, modelled in Dafny

Extension Wrangler is a browser extension that sorts the user's other
installed extensions into named groups and switches a whole group on or off
at once. One group is reserved: the always-on group, keyed `always-on` and
shown as "Fixed". A background service worker switches a member of that
group back on whenever something disables it. The project models every
page of the extension:

- the **registry** every page rebuilds from `chrome.management.getAll()`
  (`registry.dfy`);
- the **group store** shared by the pages: inserting the reserved group,
  initialising the display order, pruning members that are no longer
  installed, adding a member, deleting a group (`groups.dfy`), and the
  drag-and-drop move inside the order (`order.dfy`);
- the **toggle engine** of the popup: slices of two, up to three tries per
  extension with a growing wait between tries, a pause between slices, and
  skipped ids (`engine.dfy`);
- the **failure journal**, which keeps the newest fifty failures
  (`journal.dfy`);
- the **guardian** and the message API of the background worker
  (`background.dfy`);
- what the pages show: a group's toggle state, what a click on it asks for,
  the order in which groups are listed and which groups an extension belongs
  to (`display.dfy`);
- the three pages as classes whose fields the methods update:
  - the popup (`popup.dfy`);
  - its stripped-down debug variant (`popup_debug.dfy`);
  - the settings page (`settings.dfy`);
  - the diagnostics page (`debugger.dfy`), with its analyses in
    `diagnostics.dfy`;
- the group-name and image-URL validators (`utils.dfy`).

The remaining files hold helpers:

- `types.dfy`: the shared entities;
- `dict.dfy`: a JavaScript object as an insertion-ordered dictionary;
- `seqs.dfy`: filter and count;
- `tallies.dfy`: counting dictionaries;
- `text.dfy`: `trim`, `substring` and number formatting.

**Modelling conventions**

- **Order-sensitive objects.** A JavaScript object whose key order matters
  is a `Dict`: a key sequence in insertion order plus a map. This covers
  `groups`, `extensions`, the characteristic tallies and `errorPatterns`.
- **The host.**
  - `chrome.management.setEnabled` is an oracle giving the reply to attempt
    k for an extension and a target state, k being the caller's retry
    counter.
  - `getAll()` is a `Fetch` value, and a storage read is a `Stored` value
    with a flag saying whether the read failed.
  - A storage write is an update of the page's `store` field.
- **Page methods.** Each page method is proved to leave exactly the state a
  specification function computes from the state before. The properties are
  proved as lemmas about those functions.
- **Deferred work.** Timers and clock readings are parameters. Host calls
  and waits that the code only issues are recorded as a ghost trace.

**Behaviour of the code worth knowing:**

- **Import versus restore.**
  - The settings page import replaces the groups wholesale and can drop the
    reserved group (`Settings.ImportCanDropReserved`).
  - The popup's restore always keeps the current reserved group
    (`Popup.RestoredFacts`).
- **Result order.** The toggle engine gives one result per id, in input
  order, because the slices are pushed in order and `Promise.all` keeps the
  order of its inputs.
- **Groups missing from the stored order** go at the front of the list, last
  one first, because they are added with `unshift`
  (`Display.DisplayOrderShape`).
- **New groups.**
  - The popup's `createGroup` leaves the order alone, so the new group shows
    as a missing one.
  - The settings page's `saveGroup` puts the new id first in the order.
- **Clicking a mixed group.** The popup disables it and the settings page
  enables it (`Display.ClickRulesDiffer`).
- **The popup's journal** starts empty in every session, and its first
  write replaces the stored journal.
- **`extensionLoadError`** is never cleared once set, so later loads in the
  same popup never prune again.
- **The batch size of the diagnostics page.** A size that `parseInt` cannot
  read passes the range check and tests an empty batch.

## Model

| member | source | states |
|---|---|---|
| Background.OnStateChange | background.js:17-42 | one state-change notification arms at most one timer |
| Background.OnStateChangeFacts | background.js:17-42 | only a disable notification for an extension listed in the stored reserved group arms a timer. That timer re-enables exactly that extension after 100 ms. An enable, a failed read, missing groups, a missing reserved group or an unlisted id arm nothing |
| Background.FireReassertFacts | background.js:29-36 | the re-enable is one `setEnabled(id, true)` whatever the reply. Success is logged exactly when it was accepted, and otherwise the error is logged |
| Background.OnMessage | background.js:45-62 | the listener keeps the channel open exactly when it will send a response |
| Background.OnMessageFacts | background.js:45-62 | `toggleExtension` forwards id and flag unchanged and answers success or the error message. `getExtensions` answers the list or the error message. Any other action makes no call and sends no response |
| Registry.Snapshot | popup.js:145-149 | the registry built from a `getAll()` list is a well-formed dictionary |
| Registry.Load | popup.js:143-149 | the `forEach` loop builds exactly the snapshot of the list |
| Registry.SnapshotKeys | popup.js:145-149 | an id is in the registry exactly when some entry of type "extension" other than this tool has it |
| Registry.SnapshotValue | popup.js:145-149 | the record kept under an id carries that id, is managed, and is the last managed entry with that id |
| Registry.SnapshotKeysGrow | popup.js:145-149 | the registry of a prefix of the list lists its ids first, in the same order: an id takes its place at its first managed entry and a later duplicate never moves it |
| Registry.Summarize | settings.js:635-643 | total is the number of extensions. Enabled and disabled count the enabled and the not-enabled records, and they add up to the total |
| GroupStore.WithFixedGroup | popup.js:59-68 | the reserved group is present afterwards. A present one is kept, and a missing one is appended as the empty default "Fixed" group |
| GroupStore.FixedGroupIdempotent | popup.js:59-68 | inserting the reserved group twice equals inserting it once, and no other group is touched or added |
| GroupStore.InitialOrder | popup.js:70-74 | a non-empty stored order is kept, and an empty one becomes the group keys |
| GroupStore.LoadedOrderNonEmpty | popup.js:70-74 | after a load the order is never empty, and an initialised order lists every group, the reserved one included |
| GroupStore.LoadStoredFacts | settings.js:19-45 | a load keeps every stored group and creates the reserved group when missing. Its order is non-empty and kept when stored non-empty. Storage then holds exactly the loaded groups and order, and the journal is untouched |
| GroupStore.LoadStoredStable | settings.js:19-45 | loading again from what a load stored gives the same layout and writes nothing |
| GroupStore.GroupIdFor | popup.js:381 | a created group's id starts with `group-` and is never the reserved id |
| GroupStore.PrunedGroup | popup.js:116-122 | pruning keeps id, name and flag. A member survives exactly when it is installed, and the list never grows |
| GroupStore.PrunedKeepsOrder | popup.js:116-122 | survivors keep their relative order: pruning the two parts of a split list and joining them gives the pruned list, and a single member survives exactly when it is installed |
| GroupStore.Pruned | popup.js:111-129 | every group is pruned, and no group is added, removed or moved |
| GroupStore.ShrinksIff | popup.js:124-128 | a group's list gets shorter exactly when some member is not installed, and otherwise pruning leaves it as it is |
| GroupStore.PrunedFacts | popup.js:111-129 | after pruning every member is installed and was a member before, and pruning again changes nothing |
| GroupStore.PrunedUnchangedIff | popup.js:124-137 | pruning leaves the layout unchanged exactly when no group shrinks, which is when nothing is saved |
| GroupStore.WithMember | settings.js:560-567 | id, name and flag are kept, and the extension is a member afterwards |
| GroupStore.WithMemberFacts | settings.js:560-567 | adding is idempotent: a present member changes nothing and an absent one is appended. A list without duplicates stays so |
| GroupStore.DeletedFacts | settings.js:274-275 | the deleted id leaves the groups and the order, and every other group and id stays |
| GroupOrder.IndexOf | settings.js:602-603 | `indexOf` gives -1 exactly for an absent id, and otherwise the first position holding it |
| GroupOrder.Reordered | settings.js:601-622 | a move never changes the length of the order |
| GroupOrder.ReorderedPermutation | settings.js:601-622 | a move with a missing id is a no-op, and a move never adds or loses an id (same multiset) |
| GroupOrder.ReorderedFromAbove | settings.js:612-614 | dragged from above, the id is taken out and put back right after the target |
| GroupOrder.AboveLandsAfterTarget | settings.js:612-614 | dragged from above, the id lands at the target's old position with the target just before it |
| GroupOrder.ReorderedFromBelow | settings.js:615-617 | dragged from below, the id is taken out and put back right before the target |
| GroupOrder.BelowLandsBeforeTarget | settings.js:615-617 | dragged from below, the id lands at the target's old position with the target just after it |
| Journal.Last | popup.js:539-541 | `slice(-50)` keeps the last fifty entries, or all of them when there are fewer |
| Journal.RecordFacts | popup.js:536-541 | one record grows the journal by one up to fifty. The new entry is last, and the newest earlier entries are kept in order |
| Journal.RecordAllIsSuffix | popup.js:536-541 | however many entries are recorded, the journal is the newest fifty of everything recorded, in order |
| Journal.EntryFor | popup.js:522-534 | an entry holds the id, target state, error message and code, and time. It also holds the name and the record without its icons when the extension is known, and neither otherwise |
| ToggleEngine.Attempt | popup.js:441-470 | a try can only succeed within the retry budget, and an exhausted loop that tried keeps an error |
| ToggleEngine.OutcomeOf | popup.js:431-481 | a result carries its id. It is skipped exactly when the id is not in the registry, and then it has the "Extension not found" error and makes no call. A success has no error and a failure has one |
| ToggleEngine.RunOf | popup.js:427-491 | a run produces one result per id |
| ToggleEngine.RunResults | popup.js:483-484 | the i-th result is the outcome of the i-th id: results are in input order |
| ToggleEngine.AttemptSchedule | popup.js:441-470 | the retry loop stops at the first accepted try and otherwise makes all tries. Its effects follow the call/wait schedule, and an exhausted loop keeps the last try's error |
| ToggleEngine.ScheduleCalls | popup.js:441-446 | the calls of a schedule are exactly attempts j to m-1, in order |
| ToggleEngine.ScheduleWaits | popup.js:463-468 | between consecutive tries there is one wait, of 100 ms, 200 ms, … growing with the attempt |
| ToggleEngine.OutcomeTrace | popup.js:436-470 | a present id gets between 1 and max calls and a skipped id gets none. The id succeeds exactly when its last call is accepted, and every earlier call was refused |
| ToggleEngine.ExhaustedIff | popup.js:472-480 | an id fails exactly when it is present and all its tries are refused, and it then carries the last try's error |
| ToggleEngine.ReliableHost | popup.js:443-446 | a host that accepts the first try costs one call and no wait |
| ToggleEngine.RunCallsOnlyPresent | popup.js:431-446 | every call of a run is for an input id that is installed, with the requested state |
| ToggleEngine.RunPauses | popup.js:486-490 | a run over n > 0 ids pauses (n-1)/2 times, once between consecutive slices |
| ToggleEngine.RunJournal | popup.js:477-478 | afterwards the journal is the newest fifty of the old journal followed by one entry per failed id |
| ToggleEngine.RunJournalCount | popup.js:477-480 | a run journals exactly one entry per failure result |
| ToggleEngine.RefusedThrice | popup.js:441-480 | an id refused every time gets calls 0, 1, 2 with waits of 100 and 200 ms between them, and fails with the third error |
| ToggleEngine.ThreeMemberScenario | popup.js:415-514 | given three members with the middle one refused, the others succeed, the middle one fails after three tries, and exactly one journal entry is added, for it |
| Display.EnabledCount | popup.js:752-754 | the number of installed, enabled members never exceeds the group's size |
| Display.ButtonAgreesWithRender | popup.js:612-630 | the state `updateGroupToggleState` sets equals the state `renderGroups` computes |
| Display.ToggleStateMeaning | popup.js:756-762 | Enabled is a non-empty group with every member on. Mixed has some member on and some off, and Disabled has none on (an empty group included) |
| Display.ClickRulesDiffer | popup.js:824-829 | the popup and the settings page ask for the same thing except on a mixed group, which the popup disables and the settings page enables |
| Display.StoredPart | popup.js:729-731 | the stored-order part lists no default group |
| Display.FixedPart | popup.js:734-737 | `find(g => g.isDefault)` gives at most one group. It gives one exactly when some default group exists, and then the first default group in value order |
| Display.HasIdMeaning | popup.js:741 | `find(g => g.id === id)` succeeds exactly when a listed group carries the id |
| Display.Unordered | popup.js:739-746 | the groups not in the stored order are exactly the non-default stored groups whose id is missing from it |
| Display.DisplayOrderShape | popup.js:728-746 | the list is the groups missing from the stored order, last first. Then come the non-default groups in stored order, then the default group |
| Display.DisplayOrderComplete | popup.js:728-746 | every non-default group is listed and every listed group is stored. A default group, when there is one, is listed last |
| Display.ExtensionGroupNames | popup.js:639-643 | `getExtensionGroups` yields, in key order, the name of each group that lists the extension |
| Display.MembershipPartition | settings.js:510-525 | each group is either one of the extension's groups or offered in its dropdown, never both, and the two counts add up to the number of groups |
| Popup.LoadExtensionsFacts | popup.js:140-168 | the error flag is raised exactly when it was up or a `getAll()` made failed, and it is never lowered. The registry is the snapshot of the reply used. A failing first call keeps the old registry, and an empty first reply triggers one retry |
| Popup.FixedOnly | popup.js:80-88 | the catch branch's layout is the reserved group alone |
| Popup.LoadDataReserved | popup.js:53-90 | after any load the reserved group is present and the order is non-empty. A read failure leaves the reserved group alone, with order `[always-on]` and storage untouched |
| Popup.LoadDataPersisted | popup.js:53-77 | a successful load leaves storage holding exactly the groups and the order in memory, and the journal untouched |
| Popup.LoadDataStable | popup.js:53-77 | loading again from what a load stored gives the same layout and writes nothing |
| Popup.PrunedNoneShrinks | popup.js:92-138 | a pruned layout has nothing left to prune |
| Popup.RestoredFacts | popup.js:327-334 | a restore keeps the current reserved group and takes every other group from the backup |
| Popup.PruneAll | popup.js:111-129 | the cleanup loop leaves exactly the pruned layout, and its `hasChanges` is true exactly when some group shrank |
| Popup.RetryToggle | popup.js:441-470 | the retry loop's outcome and effects are exactly those of the retry specification |
| Popup.ExtensionOrganizer.constructor | popup.js:2-8 | a new popup starts with no groups, no extensions, an empty order, no load error and an empty journal |
| Popup.ExtensionOrganizer.Init | popup.js:10-39 | the registry is loaded first, then the layout, which is pruned against it |
| Popup.ExtensionOrganizer.SaveData | popup.js:170-176 | storage then holds the groups, and nothing else changes |
| Popup.ExtensionOrganizer.SaveGroupOrder | popup.js:178-184 | storage then holds the order, and nothing else changes |
| Popup.ExtensionOrganizer.LoadExtensions | popup.js:140-168 | the registry and the error flag are what the load specification gives, and the layout is untouched |
| Popup.ExtensionOrganizer.LoadData | popup.js:53-90 | the layout and storage are what the load specification gives |
| Popup.ExtensionOrganizer.CleanupOrphanedExtensions | popup.js:92-138 | pruning is skipped after a failed or empty registry load. The layout is saved only when some group shrank |
| Popup.ExtensionOrganizer.RestoreGroups | popup.js:316-344 | an invalid backup changes nothing. Otherwise the backup, with the current reserved group kept, is saved and the layout is loaded from it |
| Popup.ExtensionOrganizer.CreateGroup | popup.js:377-392 | a blank name changes nothing. Otherwise an empty, non-default group with the trimmed name is added under a fresh id and saved, and the order is left alone |
| Popup.ExtensionOrganizer.LogFailedToggle | popup.js:516-545 | the journal gains the entry, keeping the newest fifty, and is stored |
| Popup.ExtensionOrganizer.ToggleWithRetry | popup.js:431-481 | one id's result and effects are its outcome. The journal gains an entry exactly when it failed, and the layout and registry are untouched |
| Popup.ExtensionOrganizer.ToggleExtensionsWithRetry | popup.js:415-514 | results, effects and journal are exactly the run specification's. Storage holds the journal once an id failed, and nothing else changes |
| Popup.ExtensionOrganizer.ToggleBatch | popup.js:427-484 | a slice continues the run by its ids, in order |
| Popup.ExtensionOrganizer.ToggleAt | popup.js:431-483 | one callback continues the run by one id |
| Popup.ExtensionOrganizer.ToggleGroup | popup.js:394-413 | a missing group does nothing. Otherwise the failures reported are the run's results that neither succeeded nor were skipped, the journal is the run's and is written to storage once some id failed, and the registry is loaded again |
| PopupDebug.DebugGroups | popup-debug.js:46-59 | the debug load's groups are a well-formed dictionary |
| PopupDebug.DebugLoadFacts | popup-debug.js:46-59 | the reserved group exists and, when created, is the empty default "Fixed" group. Stored groups are kept and nothing else is added. The groups equal the full load's, but an empty stored order stays empty |
| PopupDebug.ExtensionOrganizer.constructor | popup-debug.js:5-17 | the page starts with no groups, no extensions, the groups tab and an empty order |
| PopupDebug.ExtensionOrganizer.Init | popup-debug.js:19-34 | a failing `getAll()` or storage read stops the initialisation. Otherwise the registry and the debug load result are installed |
| PopupDebug.ExtensionOrganizer.LoadExtensions | popup-debug.js:36-44 | the registry is the snapshot of the list, and nothing else changes |
| PopupDebug.ExtensionOrganizer.LoadData | popup-debug.js:46-59 | the groups are the debug load's and the order is the stored one. Nothing is saved |
| Settings.SaveGroupFacts | settings.js:231-265 | a blank name or an edit of a vanished group changes nothing. A new group gets a fresh id, the trimmed name, the ticked members and isDefault false, and goes first in the order. An edit replaces name and members only. No other group changes and changes are stored |
| Settings.DeleteGroupFacts | settings.js:267-281 | a default group is never deleted. A confirmed delete of another stored group removes it from the groups and the order, keeps everything else and stores both. Otherwise nothing changes |
| Settings.AddExtensionFacts | settings.js:560-567 | adding is idempotent and never duplicates a member. The order and other groups are untouched, and a change is stored |
| Settings.ImportGroupsFacts | settings.js:380-401 | only a confirmed import of an object replaces the groups, and it saves them and keeps the order. An unreadable file or a missing or non-object `groups` fails, and nothing else changes |
| Settings.ImportCanDropReserved | settings.js:391-396 | a confirmed import of an empty object leaves no reserved group |
| Settings.ToggleGroupCounts | settings.js:283-305 | the success count never exceeds the group's size. It equals the size exactly when every member was accepted, and is zero exactly when every one was refused |
| Settings.SetAll | settings.js:287-299 | the count is the number of members whose `setEnabled` was accepted |
| Settings.ExtensionWranglerSettings.constructor | settings.js:2-10 | the page starts with no groups, no extensions, an empty order and no group being edited |
| Settings.ExtensionWranglerSettings.Init | settings.js:12-17 | the layout is loaded first, then the registry, and nothing is pruned |
| Settings.ExtensionWranglerSettings.SaveData | settings.js:63-70 | storage then holds the groups, and nothing else changes |
| Settings.ExtensionWranglerSettings.SaveGroupOrder | settings.js:72-78 | storage then holds the order, and nothing else changes |
| Settings.ExtensionWranglerSettings.LoadData | settings.js:19-45 | a failed read leaves the page as it was. Otherwise the layout is the shared load's |
| Settings.ExtensionWranglerSettings.LoadExtensions | settings.js:47-61 | a successful `getAll()` installs its snapshot, and a failing one keeps the registry |
| Settings.ExtensionWranglerSettings.SaveGroup | settings.js:231-265 | the layout and the outcome are the save specification's, and a successful save closes the editor |
| Settings.ExtensionWranglerSettings.DeleteGroup | settings.js:267-281 | the layout is the delete specification's |
| Settings.ExtensionWranglerSettings.AddExtensionToGroup | settings.js:560-567 | the layout is the add specification's |
| Settings.ExtensionWranglerSettings.ReorderGroups | settings.js:601-622 | the order is the drag-and-drop move, stored when it took place, and nothing else changes |
| Settings.ExtensionWranglerSettings.ImportGroups | settings.js:380-401 | the layout and the notification are the import specification's |
| Settings.ExtensionWranglerSettings.ToggleGroup | settings.js:283-305 | a missing group does nothing. Otherwise one call is made per member, the success count and total are reported, and the registry is loaded again |
| Utils.Stripped | utils.js:74-75 | the cleaned name holds none of the five stripped characters |
| Utils.ValidateGroupNameFacts | utils.js:70-79 | a non-string or a name that is empty after trimming and stripping is refused. Otherwise the result is the first fifty cleaned characters, non-empty and free of the stripped characters |
| Utils.StripAfterTrim | utils.js:74-76 | stripping after trimming can leave leading whitespace: `"< a"` gives `" a"` |
| Utils.SanitizeImageUrlFacts | utils.js:11-24 | the result is null or the URL itself. It is the URL exactly when that is non-empty, parses, and has an https, chrome, chrome-extension or data protocol |
| Text.Trim | settings.js:232 | `trim()` never lengthens a string, and its result is empty or begins and ends with a non-whitespace character |
| Text.TrimMeaning | settings.js:232 | `trim()` yields a piece of the string: everything before it and after it is whitespace |
| Text.TrimEmpty | settings.js:232-233 | a name trims to nothing exactly when it is all whitespace |
| Text.Digits | popup.js:381 | `Date.now()` in a group id is written as a non-empty string of decimal digits |
| Tallies.BumpEach | debugger.js:175-177 | the `forEach` loop over keys leaves exactly the tally of bumping each key in turn |
| Tallies.BumpAllTally | debugger.js:175-177 | bumping a list of keys raises each key's count by its occurrences in the list |
| Diagnostics.Characterize | debugger.js:172-202 | one extension's contribution to the characteristics |
| Diagnostics.CharacteristicsOf | debugger.js:162-205 | the characteristics of the failed extensions, defined one extension at a time |
| Diagnostics.CharacteristicsTotals | debugger.js:162-205 | the types and the install types each count every failed extension once. Disabled reasons count those with a truthy reason, and update URLs count those with a truthy URL, at most all of them |
| Diagnostics.CharacteristicsTallies | debugger.js:172-202 | each permission, host permission, type, install type and reason is counted once per occurrence among the failed extensions |
| Diagnostics.AnalyzeCharacteristics | debugger.js:162-205 | the `forEach` loop yields exactly the characteristics of its list |
| Diagnostics.CountExtension | debugger.js:172-202 | one loop body adds one extension's contribution |
| Diagnostics.ErrorsOf | debugger.js:146 | the truthy errors of a result, disable first, at most two |
| Diagnostics.PatternsOf | debugger.js:144-153 | the error patterns built from the failed results |
| Diagnostics.PatternsMeaning | debugger.js:141-153 | each error's list is exactly the failed extensions that reported it, once per report, in order. An error is a key exactly when some failed result reported it |
| Diagnostics.PushEach | debugger.js:147-152 | the inner loop appends the extension under each of its errors |
| Diagnostics.AnalyzeResults | debugger.js:140-160 | the failed results are those where a disable or an enable test failed. The patterns and the characteristics are computed from them |
| Diagnostics.ExtensionsOf | debugger.js:156 | the extensions of the failed results, in order |
| Diagnostics.FailedFacts | debugger.js:141 | a result is kept exactly when one of its two tests failed |
| Diagnostics.HealthFacts | debugger.js:365-393 | the two counts together never exceed the group's size. A group is healthy exactly when every member is missing or fine |
| Debugger.OutcomeOf | debugger.js:114-138 | a test toggle reports success exactly on an accepted call, with the error's message otherwise |
| Debugger.ToggleFacts | debugger.js:114-138 | every test toggle logs one line. A refusal adds the id to the failed set and one entry to that id's history only, and success changes neither |
| Debugger.ResultOf | debugger.js:94-102 | a diagnostic result records the extension and both tests' outcomes |
| Debugger.ResultsOf | debugger.js:75-108 | one result per extension: the i-th result is the diagnostic result of the i-th extension, in registry order |
| Debugger.DiagnoseOneFacts | debugger.js:83-107 | each extension is disabled, then enabled, and set back to its original state exactly when that differs from the enable's success. Logging and the failed set grow accordingly, and only for that id |
| Debugger.SingleFacts | debugger.js:293-310 | an empty, cancelled or unknown id logs only the refusal. Otherwise four lines are logged, the verdict is a success exactly when both calls went through, and only that id can become failed |
| Debugger.BatchSizeFacts | debugger.js:313-317 | a cancelled or empty answer means five. A number outside 1 to 10 is refused, a size that is accepted is at most ten, and an unreadable number gives an empty batch |
| Debugger.Take | debugger.js:319 | `slice(0, n)` is the first n extensions, or all of them |
| Debugger.BatchSuccessesFacts | debugger.js:347-352 | the success count never exceeds twice the batch size, and reaches it exactly when every disable and enable went through |
| Debugger.RoundFacts | debugger.js:328-345 | a round logs one line per extension, and only ids of the batch whose call was refused join the failed set |
| Debugger.SummaryFacts | debugger.js:385-393 | "appears healthy" ends a group's report exactly when the group is healthy, and then it is the only verdict. Otherwise one verdict appears per non-zero count |
| Debugger.MemberEntriesFacts | debugger.js:368-383 | a member logs at most one line, and none exactly when every member is installed, modifiable and not known to fail |
| Debugger.GroupStep | debugger.js:368-383 | one more member appends its line and adds its status to the counts |
| Debugger.StatsOf | debugger.js:60-69 | the statistics hold the total and the enabled count. Disabled is the total minus enabled, which is the number of disabled extensions, and failed toggles is the size of the failed set |
| Debugger.ExtensionDebugger.constructor | debugger.js:2-8 | the page starts with an empty log, registry, failed set and history |
| Debugger.ExtensionDebugger.Init | debugger.js:10-14 | the registry is loaded with its log line, then the statistics are computed |
| Debugger.ExtensionDebugger.Log | debugger.js:40-45 | exactly one entry is appended and nothing else changes |
| Debugger.ExtensionDebugger.ClearLogs | debugger.js:406-410 | only the "Logs cleared" line is left |
| Debugger.ExtensionDebugger.FilterExtensions | debugger.js:412-415 | filtering only logs the query |
| Debugger.ExtensionDebugger.LoadExtensions | debugger.js:25-38 | a successful load installs the snapshot and logs its size. A failure keeps the registry and logs the message |
| Debugger.ExtensionDebugger.UpdateStats | debugger.js:60-69 | the statistics of the current registry and failed set |
| Debugger.ExtensionDebugger.TestToggle | debugger.js:114-138 | the bookkeeping and the outcome are the test toggle specification's |
| Debugger.ExtensionDebugger.DiagnoseExtension | debugger.js:83-107 | one loop iteration's bookkeeping, result and calls are the specification's |
| Debugger.ExtensionDebugger.RunFullDiagnostics | debugger.js:71-112 | the bookkeeping, results and calls of the whole diagnostic are the specification's. The patterns and the characteristics are those of the failed results |
| Debugger.ExtensionDebugger.DiagnoseEach | debugger.js:78-108 | the loop's bookkeeping, results and calls are the specification's |
| Debugger.ExtensionDebugger.TestSingleToggle | debugger.js:293-310 | the bookkeeping is the single-test specification's |
| Debugger.ExtensionDebugger.ToggleRound | debugger.js:330-331 | one round's bookkeeping is the specification's, and its count is the number of accepted calls |
| Debugger.ExtensionDebugger.TestBatchToggle | debugger.js:312-353 | the bookkeeping is the batch-test specification's |
| Debugger.ExtensionDebugger.RunBatch | debugger.js:319-352 | three announced rounds and the verdict line |
| Debugger.ExtensionDebugger.AnnouncedRound | debugger.js:328-331 | the announcement line, then one round |
| Debugger.ExtensionDebugger.AnalyzeGroup | debugger.js:363-393 | one group's log lines and counts are the report specification's |
| Debugger.ExtensionDebugger.ReportMembers | debugger.js:365-383 | the member loop logs each member's line and returns the group's counts |
| Debugger.ExtensionDebugger.ReportMember | debugger.js:368-383 | one member's line and the counts after it |
| Debugger.ExtensionDebugger.ReportHealth | debugger.js:385-393 | the verdict lines for the counts |
| Debugger.ExtensionDebugger.AnalyzeGroups | debugger.js:355-398 | the log gains exactly the report of every stored group, in key order, or the failure line |
| Debugger.ExtensionDebugger.AnalyzeEach | debugger.js:362-394 | the group loop appends each group's report in order |

## Left out

- Rendering and the DOM are not modelled. This covers every `render…` method, `innerHTML` templates, modals, notifications, drag CSS and the progress bar (`updateProgress`), because they are UI.
- `confirm`, `prompt` and the file picker are boolean and value parameters, and `alert` is not modelled.
- Event wiring is not modelled, because it only dispatches to the operations that are: `setupEventListeners`, tab switching, search (`handleSearch`, `renderSearchResults`, `filterExtensionsInModal`, `filterExtensionsInList`), accordions, `toggleGroupDropdown` and the loading spinner (`setGroupLoadingState`).
- The diagnostics page's `renderAnalysis` is not modelled: its tables, the top-five permissions, the success rate and the average time are presentation of values the model does compute.
- Measured latencies and log timestamps are left out, being clock readings; time stamps are parameters.
- Waits are effects. `setTimeout` delays are recorded as values in the effect trace, never as elapsed time.
- Concurrency is modelled sequentially. `Promise.all` callbacks run one after the other in input order, and interleavings with the guardian or with user actions are not modelled. The order within a slice therefore follows input order, while the code follows completion order. This affects which popup journal entries a slice adds first (popup.js:477, 536-544) and the order of the diagnostics batch's per-extension log lines (debugger.js:330-345). The results themselves are in input order in the code as well.
- `console` logging is left out. So are `checkFailureHistory` and `showDebugInfo` in popup.js, which only report.
- A storage write always succeeds, because the source only logs write failures.
- Parsing is not modelled. `JSON.parse`, `parseInt` and the `URL` parser are parameters or case splits. The `ImportFile` and backup arguments are the parsing results.
- Strings are sequences of characters, not UTF-16 code units, so the 50-character limit of `validateGroupName` counts characters.
- `sanitizeHTML`, `throttle`, `debounce`, `showNotification` and `createSkeletonLoader` in utils.js are DOM or timing helpers, not modelled.
- Several operations are not modelled, because each is one host call or a plain loop of them with a notification or repaint:
  - the settings page's `toggleExtension`, `enableAllExtensions`, `disableAllExtensions` and `exportGroups`;
  - the popup's `toggleExtension`, `updateExtensionState`, `updateAllGroupToggleStates` and `refreshData`.

  Their building blocks are modelled: `Settings.SetAll`, the registry loads and `Display.ButtonAgreesWithRender`.
- Settings.ExtensionWranglerSettings.ImportGroups: requires a parsed `groups` object to be a well-formed dictionary (distinct keys, one value per key), which every JSON object is. The shape of each imported group is not validated, as in the source.
- Popup.ExtensionOrganizer.RestoreGroups: requires the parsed backup to be a well-formed dictionary, for the same reason. A backup that is not an object is `None`.
- Debugger.ExtensionDebugger.AnalyzeGroups: requires the stored groups read to be well-formed dictionaries, for the same reason.
- Popup.ExtensionOrganizer.ToggleExtensionsWithRetry: requires `maxRetries >= 1`. The only caller passes the default 3, and with 0 no attempt runs and `logFailedToggle` dereferences a null error.
- ToggleEngine.RunOf / Popup.ExtensionOrganizer.ToggleExtensionsWithRetry: the oracle is indexed by the retry attempt of each list entry, not by call position in the run. So when an id is listed twice, both entries get the same replies and the same outcome, while the code makes fresh `setEnabled` calls that the host may answer differently (popup.js:431-446). Such a list can occur only through an imported file (settings.js:380-401) or a restored backup (popup.js:316-344), whose members are not checked.
- Settings.SetAll: the reply to a member's call is the oracle's reply to attempt 0, so a group listing the same id twice gets the same reply for both.
- The display-order lemmas (`Display.DisplayOrderShape`, `Display.DisplayOrderComplete`) require each stored group's `id` to equal its key, which every writer in the source ensures. An imported file can break it, and for such a file the model states nothing.
- Each constructor's trailing `this.init()` call is the separate `Init` method, given the host replies and the storage read as parameters.
- `Dict` enumerates keys in insertion order. JavaScript lists integer-like keys first, in ascending order, and the model leaves that out. Group and extension ids are never integer-like, but an error message or a permission name could be, and such keys would then come out of order in the error patterns and tallies.
