/** Moving one group id within the stored order by drag and drop
    (settings.js `reorderGroups`), built from `indexOf` and `splice`. */
module GroupOrder {
  import opened Types

  /** `s.indexOf(x)`: the first position of `x`, or -1. */
  function IndexOf(s: seq<GroupId>, x: GroupId): (i: int)
    ensures -1 <= i < |s|
    ensures i == -1 <==> x !in s
    ensures 0 <= i ==> s[i] == x && forall k :: 0 <= k < i ==> s[k] != x
  {
    if s == [] then -1
    else if s[0] == x then 0
    else
      var j := IndexOf(s[1..], x);
      if j == -1 then -1 else j + 1
  }

  /** Where `splice(start, ...)` starts: a negative start counts from the end, and
      the result is clamped to the sequence. */
  function SpliceStart(start: int, len: nat): (p: nat)
    ensures p <= len
    ensures 0 <= start <= len ==> p == start
  {
    if start < 0 then (if len + start < 0 then 0 else len + start)
    else if start > len then len
    else start
  }

  /** `s.splice(i, 1)` for an index inside `s`. */
  function RemoveAt(s: seq<GroupId>, i: nat): (r: seq<GroupId>)
    requires i < |s|
    ensures |r| == |s| - 1
    ensures r == s[..i] + s[i + 1..]
  {
    s[..i] + s[i + 1..]
  }

  /** `s.splice(start, 0, x)` */
  function InsertAt(s: seq<GroupId>, start: int, x: GroupId): (r: seq<GroupId>)
    ensures |r| == |s| + 1
    ensures r == s[..SpliceStart(start, |s|)] + [x] + s[SpliceStart(start, |s|)..]
  {
    var p := SpliceStart(start, |s|);
    s[..p] + [x] + s[p..]
  }

  /** The order after dropping `dragged` onto `target` (settings.js `reorderGroups`):
      unchanged if either is missing; otherwise `dragged` is removed and put back
      just after `target` when it came from above, just before it otherwise. */
  function Reordered(order: seq<GroupId>, dragged: GroupId, target: GroupId): (r: seq<GroupId>)
    ensures |r| == |order|
  {
    var d := IndexOf(order, dragged);
    var t := IndexOf(order, target);
    if d == -1 || t == -1 then order
    else
      var removed := RemoveAt(order, d);
      var nt := IndexOf(removed, target);
      if d < t then InsertAt(removed, nt + 1, dragged) else InsertAt(removed, nt, dragged)
  }

  /** A missing id makes the move a no-op, and the move never adds or loses an id. */
  lemma ReorderedPermutation(order: seq<GroupId>, dragged: GroupId, target: GroupId)
    ensures dragged !in order || target !in order ==> Reordered(order, dragged, target) == order
    ensures multiset(Reordered(order, dragged, target)) == multiset(order)
  {
    var d := IndexOf(order, dragged);
    var t := IndexOf(order, target);
    if d != -1 && t != -1 {
      var removed := RemoveAt(order, d);
      var nt := IndexOf(removed, target);
      RemoveAtMultiset(order, d);
      InsertAtMultiset(removed, if d < t then nt + 1 else nt, dragged);
    }
  }

  lemma RemoveAtMultiset(s: seq<GroupId>, i: nat)
    requires i < |s|
    ensures multiset(RemoveAt(s, i)) + multiset{s[i]} == multiset(s)
  {
    assert s == s[..i] + [s[i]] + s[i + 1..];
  }

  lemma InsertAtMultiset(s: seq<GroupId>, start: int, x: GroupId)
    ensures multiset(InsertAt(s, start, x)) == multiset(s) + multiset{x}
  {
    var p := SpliceStart(start, |s|);
    assert s == s[..p] + s[p..];
  }

  /** Dragged from above (its first position before the target's): `dragged`
      is taken out and put back right after `target`. */
  lemma ReorderedFromAbove(order: seq<GroupId>, dragged: GroupId, target: GroupId)
    requires 0 <= IndexOf(order, dragged) < IndexOf(order, target)
    ensures var d := IndexOf(order, dragged); var t := IndexOf(order, target);
      Reordered(order, dragged, target) == order[..d] + order[d + 1..t + 1] + [dragged] + order[t + 1..]
  {
    var d := IndexOf(order, dragged);
    var t := IndexOf(order, target);
    var removed := RemoveAt(order, d);
    AboveIsInsert(order, dragged, target);
    SplitAroundRemoval(order, d, t);
    Regroup(Reordered(order, dragged, target), removed[..t], dragged, removed[t..],
            order[..d] + order[d + 1..t + 1], order[t + 1..]);
  }

  lemma Regroup(r: seq<GroupId>, a: seq<GroupId>, x: GroupId, b: seq<GroupId>, a': seq<GroupId>, b': seq<GroupId>)
    requires r == a + [x] + b && a == a' && b == b'
    ensures r == a' + [x] + b'
  {
  }

  /** From above, `dragged` lands at the target's old position, with `target` just before it. */
  lemma AboveLandsAfterTarget(order: seq<GroupId>, dragged: GroupId, target: GroupId)
    requires 0 <= IndexOf(order, dragged) < IndexOf(order, target)
    ensures var t := IndexOf(order, target);
      var r := Reordered(order, dragged, target);
      r[t] == dragged && r[t - 1] == target
  {
    var t := IndexOf(order, target);
    var removed := RemoveAt(order, IndexOf(order, dragged));
    AboveIsInsert(order, dragged, target);
    AppendAt(removed[..t], removed[t..], t, target, dragged);
  }

  /** From above, the target's first position after the removal is one less,
      and the insertion goes just after it, at the target's old position. */
  lemma AboveIsInsert(order: seq<GroupId>, dragged: GroupId, target: GroupId)
    requires 0 <= IndexOf(order, dragged) < IndexOf(order, target)
    ensures var d := IndexOf(order, dragged); var t := IndexOf(order, target);
      var removed := RemoveAt(order, d);
      Reordered(order, dragged, target) == removed[..t] + [dragged] + removed[t..] &&
      removed[t - 1] == target
  {
    var d := IndexOf(order, dragged);
    var t := IndexOf(order, target);
    var removed := RemoveAt(order, d);
    TargetShiftsDown(order, d, t, target);
    assert Reordered(order, dragged, target) == InsertAt(removed, t, dragged);
    assert SpliceStart(t, |removed|) == t;
  }

  /** Indexing around an element placed right after a prefix of length `t`. */
  lemma AppendAt(front: seq<GroupId>, back: seq<GroupId>, t: nat, last: GroupId, x: GroupId)
    requires |front| == t > 0 && front[t - 1] == last
    ensures (front + [x] + back)[t] == x && (front + [x] + back)[t - 1] == last
  {
  }

  lemma SplitAroundRemoval(order: seq<GroupId>, d: nat, t: nat)
    requires d < t < |order|
    ensures RemoveAt(order, d)[..t] == order[..d] + order[d + 1..t + 1]
    ensures RemoveAt(order, d)[t..] == order[t + 1..]
  {
  }

  /** Removing an element before the first `target` moves that first occurrence down by one. */
  lemma TargetShiftsDown(order: seq<GroupId>, d: nat, t: nat, target: GroupId)
    requires d < t < |order| && order[t] == target
    requires forall k :: 0 <= k < t ==> order[k] != target
    ensures IndexOf(RemoveAt(order, d), target) == t - 1
  {
    var removed := RemoveAt(order, d);
    forall k | 0 <= k < t - 1 ensures removed[k] != target {
      if k < d {
        assert removed[k] == order[k];
      } else {
        assert removed[k] == order[k + 1];
      }
    }
    assert removed[t - 1] == order[t];
    IndexOfAt(removed, target, t - 1);
  }

  /** Dragged from below: `dragged` is taken out and put back right before `target`. */
  lemma ReorderedFromBelow(order: seq<GroupId>, dragged: GroupId, target: GroupId)
    requires 0 <= IndexOf(order, target) < IndexOf(order, dragged)
    ensures var d := IndexOf(order, dragged); var t := IndexOf(order, target);
      Reordered(order, dragged, target) == order[..t] + [dragged] + order[t..d] + order[d + 1..]
  {
    var d := IndexOf(order, dragged);
    var t := IndexOf(order, target);
    BelowIsInsert(order, dragged, target);
    var removed := RemoveAt(order, d);
    assert removed[..t] == order[..t];
    assert removed[t..] == order[t..d] + order[d + 1..];
    InsertBefore(order[..t], dragged, order[t..d], order[d + 1..]);
  }

  /** From below, `dragged` lands at the target's old position, with `target` just after it. */
  lemma BelowLandsBeforeTarget(order: seq<GroupId>, dragged: GroupId, target: GroupId)
    requires 0 <= IndexOf(order, target) < IndexOf(order, dragged)
    ensures var t := IndexOf(order, target);
      var r := Reordered(order, dragged, target);
      r[t] == dragged && r[t + 1] == target
  {
    var d := IndexOf(order, dragged);
    var t := IndexOf(order, target);
    ReorderedFromBelow(order, dragged, target);
    InsertBefore(order[..t], dragged, order[t..d], order[d + 1..]);
  }

  /** An element put between a prefix and two further parts sits at the prefix's
      length, followed by the first of the parts. */
  lemma InsertBefore(front: seq<GroupId>, x: GroupId, b: seq<GroupId>, c: seq<GroupId>)
    requires b != []
    ensures front + [x] + (b + c) == front + [x] + b + c
    ensures (front + [x] + b + c)[|front|] == x && (front + [x] + b + c)[|front| + 1] == b[0]
  {
  }

  /** From below, the target keeps its first position after the removal, and
      the insertion goes there, just before it. */
  lemma BelowIsInsert(order: seq<GroupId>, dragged: GroupId, target: GroupId)
    requires 0 <= IndexOf(order, target) < IndexOf(order, dragged)
    ensures var d := IndexOf(order, dragged); var t := IndexOf(order, target);
      var removed := RemoveAt(order, d);
      Reordered(order, dragged, target) == removed[..t] + [dragged] + removed[t..]
  {
    var d := IndexOf(order, dragged);
    var t := IndexOf(order, target);
    var removed := RemoveAt(order, d);
    forall k | 0 <= k < t ensures removed[k] != target {
      assert removed[k] == order[k];
    }
    assert removed[t] == order[t];
    IndexOfAt(removed, target, t);
    assert Reordered(order, dragged, target) == InsertAt(removed, t, dragged);
    assert SpliceStart(t, |removed|) == t;
  }

  /** The first position of `x` is `i` when `x` sits at `i` and not before it. */
  lemma {:induction false} IndexOfAt(s: seq<GroupId>, x: GroupId, i: nat)
    requires i < |s| && s[i] == x
    requires forall k :: 0 <= k < i ==> s[k] != x
    ensures IndexOf(s, x) == i
  {
    if i > 0 {
      IndexOfAt(s[1..], x, i - 1);
    }
  }
}
