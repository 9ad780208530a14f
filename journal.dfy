/** The failure journal of popup.js `logFailedToggle`: a list of failure
    entries that keeps only the newest fifty. */
module Journal {
  import opened Types
  import opened Dicts

  const Capacity: nat := 50

  /** `s.slice(-n)` for a positive `n`: the last `n` elements, or all of `s` when shorter. */
  function Last(s: seq<FailureEntry>, n: nat): (r: seq<FailureEntry>)
    ensures |r| == if |s| < n then |s| else n
    ensures r == s[|s| - |r|..]
  {
    if |s| <= n then s else s[|s| - n..]
  }

  /** `failedToggles.push(entry); if (failedToggles.length > 50) failedToggles = failedToggles.slice(-50)` */
  function Record(journal: seq<FailureEntry>, entry: FailureEntry): (r: seq<FailureEntry>)
  {
    Last(journal + [entry], Capacity)
  }

  /** One record grows the journal by one up to the cap, ends with the new entry,
      and keeps the newest earlier entries in their order: it is the tail of the
      journal with the entry appended. */
  lemma RecordFacts(journal: seq<FailureEntry>, entry: FailureEntry)
    ensures var r := Record(journal, entry);
      && |r| == (if |journal| + 1 < Capacity then |journal| + 1 else Capacity)
      && r[|r| - 1] == entry
      && r == (journal + [entry])[|journal| + 1 - |r|..]
      && (|journal| < Capacity ==> r == journal + [entry])
      && (|journal| >= Capacity ==> r == journal[|journal| - Capacity + 1..] + [entry])
  {
    var s := journal + [entry];
    if |journal| >= Capacity {
      assert s[|s| - Capacity..] == journal[|journal| - Capacity + 1..] + [entry];
    }
  }

  /** Recording a sequence of entries one at a time. */
  function RecordAll(journal: seq<FailureEntry>, entries: seq<FailureEntry>): (r: seq<FailureEntry>)
    decreases |entries|
  {
    if entries == [] then journal
    else RecordAll(Record(journal, entries[0]), entries[1..])
  }

  /** However many entries are recorded, the journal is the newest fifty of
      everything ever recorded, in recording order. */
  lemma {:induction false} RecordAllIsSuffix(journal: seq<FailureEntry>, entries: seq<FailureEntry>)
    requires |journal| <= Capacity
    ensures RecordAll(journal, entries) == Last(journal + entries, Capacity)
    decreases |entries|
  {
    if entries != [] {
      var j1 := Record(journal, entries[0]);
      RecordAllIsSuffix(j1, entries[1..]);
      assert journal + entries == (journal + [entries[0]]) + entries[1..];
      LastConcat(journal + [entries[0]], entries[1..], Capacity);
    }
  }

  /** Keeping the last `n` of a prefix, then appending, keeps the last `n` of the whole. */
  lemma {:induction false} LastConcat(s: seq<FailureEntry>, t: seq<FailureEntry>, n: nat)
    requires n > 0
    ensures Last(Last(s, n) + t, n) == Last(s + t, n)
  {
    if |s| > n {
      var l := Last(s, n);
      if t == [] {
        assert l + t == l && s + t == s;
      } else {
        var a := Last(l + t, n);
        var b := Last(s + t, n);
        forall k | 0 <= k < n ensures a[k] == b[k] {
          if |t| + k < n {
            assert a[k] == l[|t| + k] == s[|s| - n + |t| + k] == b[k];
          } else {
            assert a[k] == t[|t| + k - n] == b[k];
          }
        }
      }
    }
  }

  /** The entry `logFailedToggle` builds: the extension's name and its record
      without the icon list, the error's message and code, and when it happened. */
  function EntryFor(reg: Registry, extId: ExtId, targetState: bool, error: HostError, timestamp: string): (e: FailureEntry)
    ensures e.extensionId == extId && e.targetState == targetState && e.timestamp == timestamp
    ensures e.error == error.message && e.errorCode == error.code
    ensures extId in reg.items ==>
      e.extensionName == Some(reg.items[extId].name) &&
      e.extensionDetails == Some(reg.items[extId].(icons := None))
    ensures extId !in reg.items ==> e.extensionName == None && e.extensionDetails == None
    ensures e.extensionDetails.Some? ==> e.extensionDetails.value.icons == None
  {
    if extId in reg.items then
      var ext := reg.items[extId];
      FailureEntry(extId, Some(ext.name), targetState, error.message, error.code, timestamp, Some(ext.(icons := None)))
    else
      FailureEntry(extId, None, targetState, error.message, error.code, timestamp, None)
  }
}
