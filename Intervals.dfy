/** Half-open intervals of canonical minutes and the three operations the
    scheduler builds on them: the free-time complement of a busy list, the
    pairwise intersection of two lists, and the minimum-duration filter. */
module Intervals {
  import opened TimeBase

  /** `{from, to}`: the minutes from `from` up to, not including, `to`. */
  datatype Interval = Interval(from: int, to: int)

  predicate Contains(i: Interval, t: int) {
    i.from <= t < i.to
  }

  /** Minute `t` lies in some interval of `s`. */
  predicate Covers(s: seq<Interval>, t: int) {
    exists k :: 0 <= k < |s| && Contains(s[k], t)
  }

  /** `inner` lies inside `outer`. */
  predicate Within(inner: Interval, outer: Interval) {
    outer.from <= inner.from && inner.to <= outer.to
  }

  /** No interval ends before it starts. */
  predicate NonInverted(s: seq<Interval>) {
    forall k :: 0 <= k < |s| ==> s[k].from <= s[k].to
  }

  /** Every interval holds at least one minute. */
  predicate NonEmpty(s: seq<Interval>) {
    forall k :: 0 <= k < |s| ==> s[k].from < s[k].to
  }

  /** Every interval lies in [0, 4320]. */
  predicate InHorizon(s: seq<Interval>) {
    forall k :: 0 <= k < |s| ==> 0 <= s[k].from && s[k].to <= HorizonEnd
  }

  /** Each interval ends no later than any later one starts: ascending and
      pairwise disjoint. */
  predicate SortedDisjoint(s: seq<Interval>) {
    forall i, j :: 0 <= i < j < |s| ==> s[i].to <= s[j].from
  }

  /** What getFreeTime expects of a busy list (and does not check). */
  predicate WellFormedBusy(busy: seq<Interval>) {
    InHorizon(busy) && NonInverted(busy) && SortedDisjoint(busy)
  }

  lemma {:induction false} CoversConcat(a: seq<Interval>, b: seq<Interval>, t: int)
    ensures Covers(a + b, t) <==> Covers(a, t) || Covers(b, t)
  {
    if Covers(a + b, t) {
      var k :| 0 <= k < |a + b| && Contains((a + b)[k], t);
      if k < |a| {
        assert Contains(a[k], t);
      } else {
        assert Contains(b[k - |a|], t);
      }
    }
    if Covers(a, t) {
      var k :| 0 <= k < |a| && Contains(a[k], t);
      assert Contains((a + b)[k], t);
    }
    if Covers(b, t) {
      var k :| 0 <= k < |b| && Contains(b[k], t);
      assert Contains((a + b)[k + |a|], t);
    }
  }

  lemma AppendAssoc(a: seq<Interval>, b: seq<Interval>, c: seq<Interval>)
    ensures (a + b) + c == a + (b + c)
  {
  }

  lemma SortedDisjointConcat(a: seq<Interval>, b: seq<Interval>)
    requires SortedDisjoint(a) && SortedDisjoint(b)
    requires forall x, y :: x in a && y in b ==> x.to <= y.from
    ensures SortedDisjoint(a + b)
  {
    var s := a + b;
    forall i, j | 0 <= i < j < |s| ensures s[i].to <= s[j].from {
      if j < |a| {
        assert s[i] == a[i] && s[j] == a[j];
      } else if i >= |a| {
        assert s[i] == b[i - |a|] && s[j] == b[j - |a|];
      } else {
        assert s[i] in a && s[j] in b;
      }
    }
  }

  // ---------------------------------------------------------------------
  // Free time (getFreeTime)
  // ---------------------------------------------------------------------

  /** The free intervals getFreeTime emits from cursor `cursor` on: a gap
      before each busy interval that starts after the cursor, the cursor
      moving to that interval's end, and a trailing [cursor, 4320) when the
      cursor is still inside the horizon. Every emitted interval is
      non-empty. */
  function FreeFrom(cursor: int, busy: seq<Interval>): (r: seq<Interval>)
    ensures NonEmpty(r)
    decreases |busy|
  {
    if busy == [] then
      (if cursor < HorizonEnd then [Interval(cursor, HorizonEnd)] else [])
    else
      (if cursor < busy[0].from then [Interval(cursor, busy[0].from)] else [])
      + FreeFrom(busy[0].to, busy[1..])
  }

  /** getFreeTime's result: the cursor starts at minute 0. */
  function FreeTime(busy: seq<Interval>): seq<Interval> {
    FreeFrom(0, busy)
  }

  /** getFreeTime: one pass over the busy list with a moving cursor. */
  method GetFreeTime(busy: seq<Interval>) returns (free: seq<Interval>)
    ensures free == FreeTime(busy)
    ensures busy == [] ==> free == [Interval(0, HorizonEnd)]
    ensures NonEmpty(free)
  {
    free := [];
    var start := 0;
    var i := 0;
    while i < |busy|
      invariant 0 <= i <= |busy|
      invariant free + FreeFrom(start, busy[i..]) == FreeTime(busy)
    {
      var range := busy[i];
      ghost var before := free;
      ghost var gap := if start < range.from then [Interval(start, range.from)] else [];
      FreeFromStep(start, busy, i);
      if start < range.from {
        free := free + [Interval(start, range.from)];
      }
      assert free == before + gap;
      AppendAssoc(before, gap, FreeFrom(range.to, busy[i + 1..]));
      start := range.to;
      i := i + 1;
    }
    if start < HorizonEnd {
      free := free + [Interval(start, HorizonEnd)];
    }
  }

  lemma FreeFromStep(cursor: int, busy: seq<Interval>, i: nat)
    requires i < |busy|
    ensures FreeFrom(cursor, busy[i..])
         == (if cursor < busy[i].from then [Interval(cursor, busy[i].from)] else [])
            + FreeFrom(busy[i].to, busy[i + 1..])
  {
    assert busy[i..][0] == busy[i] && busy[i..][1..] == busy[i + 1..];
  }

  lemma WellFormedBusyTail(busy: seq<Interval>)
    requires busy != [] && WellFormedBusy(busy)
    ensures WellFormedBusy(busy[1..])
    ensures forall k :: 0 <= k < |busy[1..]| ==> busy[0].to <= busy[1..][k].from
  {
    var rest := busy[1..];
    forall i, j | 0 <= i < j < |rest| ensures rest[i].to <= rest[j].from {
      assert rest[i] == busy[i + 1] && rest[j] == busy[j + 1];
    }
    forall k | 0 <= k < |rest| ensures busy[0].to <= rest[k].from {
      assert rest[k] == busy[k + 1];
    }
  }

  /** From a cursor that does not pass the first busy interval, a minute is
      free exactly when it is at or after the cursor, inside the horizon and
      in no busy interval. */
  lemma {:induction false} FreeFromComplement(cursor: int, busy: seq<Interval>, t: int)
    requires WellFormedBusy(busy)
    requires cursor <= HorizonEnd
    requires busy != [] ==> cursor <= busy[0].from
    ensures Covers(FreeFrom(cursor, busy), t) <==> cursor <= t < HorizonEnd && !Covers(busy, t)
    decreases |busy|
  {
    if busy == [] {
      if cursor < HorizonEnd {
        assert Contains(FreeFrom(cursor, busy)[0], t) <==> cursor <= t < HorizonEnd;
      }
    } else {
      var b, rest := busy[0], busy[1..];
      var gap := if cursor < b.from then [Interval(cursor, b.from)] else [];
      WellFormedBusyTail(busy);
      FreeFromComplement(b.to, rest, t);
      CoversConcat(gap, FreeFrom(b.to, rest), t);
      assert busy == [b] + rest;
      CoversConcat([b], rest, t);
      assert Covers([b], t) <==> Contains(b, t) by {
        if Contains(b, t) { assert Contains([b][0], t); }
      }
      assert Covers(gap, t) <==> cursor <= t < b.from by {
        if cursor <= t < b.from { assert Contains(gap[0], t); }
      }
      if Covers(rest, t) {
        var k :| 0 <= k < |rest| && Contains(rest[k], t);
        assert b.to <= t;
      }
    }
  }

  /** getFreeTime computes the complement of a well-formed busy list within
      the horizon: a minute is free exactly when it lies in [0, 4320) and in
      no busy interval (so, in particular, no free interval overlaps a busy
      one). */
  lemma FreeTimeComplement(busy: seq<Interval>, t: int)
    requires WellFormedBusy(busy)
    ensures Covers(FreeTime(busy), t) <==> 0 <= t < HorizonEnd && !Covers(busy, t)
  {
    FreeFromComplement(0, busy, t);
  }

  lemma {:induction false} FreeFromOrdered(cursor: int, busy: seq<Interval>)
    requires WellFormedBusy(busy)
    requires cursor <= HorizonEnd
    requires busy != [] ==> cursor <= busy[0].from
    ensures SortedDisjoint(FreeFrom(cursor, busy))
    ensures forall k :: 0 <= k < |FreeFrom(cursor, busy)| ==>
      cursor <= FreeFrom(cursor, busy)[k].from && FreeFrom(cursor, busy)[k].to <= HorizonEnd
    decreases |busy|
  {
    if busy != [] {
      var b, rest := busy[0], busy[1..];
      var gap := if cursor < b.from then [Interval(cursor, b.from)] else [];
      WellFormedBusyTail(busy);
      FreeFromOrdered(b.to, rest);
      var tail := FreeFrom(b.to, rest);
      forall x, y | x in gap && y in tail ensures x.to <= y.from {
        var k :| 0 <= k < |tail| && tail[k] == y;
      }
      SortedDisjointConcat(gap, tail);
    }
  }

  /** For a well-formed busy list the free intervals are ascending, pairwise
      disjoint and inside [0, 4320]. */
  lemma FreeTimeOrdered(busy: seq<Interval>)
    requires WellFormedBusy(busy)
    ensures SortedDisjoint(FreeTime(busy)) && InHorizon(FreeTime(busy))
  {
    FreeFromOrdered(0, busy);
  }

  // ---------------------------------------------------------------------
  // Intersection (isIntersected, getIntersection)
  // ---------------------------------------------------------------------

  function Max(a: int, b: int): int { if a >= b then a else b }
  function Min(a: int, b: int): int { if a <= b then a else b }

  /** isIntersected: the two intervals overlap as half-open intervals. */
  predicate IsIntersected(l: Interval, r: Interval) {
    !(l.from >= r.to || l.to <= r.from)
  }

  /** The interval getIntersection emits for an overlapping pair. */
  function Meet(l: Interval, r: Interval): (m: Interval)
    ensures Within(m, l) && Within(m, r)
  {
    Interval(Max(l.from, r.from), Min(l.to, r.to))
  }

  /** The overlap test is symmetric, and intervals that only touch do not
      overlap. */
  lemma IsIntersectedSymmetric(l: Interval, r: Interval)
    ensures IsIntersected(l, r) <==> IsIntersected(r, l)
    ensures l.to == r.from ==> !IsIntersected(l, r)
  {
  }

  /** Intervals sharing a minute overlap; for non-empty intervals the
      converse holds too, and then the overlap is a non-empty interval. (An
      empty interval strictly inside another passes the test although it
      shares no minute.) */
  lemma IsIntersectedMeaning(l: Interval, r: Interval)
    ensures (exists t :: Contains(l, t) && Contains(r, t)) ==> IsIntersected(l, r)
    ensures l.from < l.to && r.from < r.to ==>
      (IsIntersected(l, r) <==> exists t :: Contains(l, t) && Contains(r, t))
    ensures l.from < l.to && r.from < r.to ==>
      (IsIntersected(l, r) <==> Meet(l, r).from < Meet(l, r).to)
  {
    if l.from < l.to && r.from < r.to && IsIntersected(l, r) {
      var t := Max(l.from, r.from);
      assert Contains(l, t) && Contains(r, t);
    }
  }

  /** The row of getIntersection's output produced by one left interval. */
  function IntersectOne(l: Interval, right: seq<Interval>): seq<Interval>
    decreases |right|
  {
    if right == [] then []
    else
      (if IsIntersected(l, right[0]) then [Meet(l, right[0])] else [])
      + IntersectOne(l, right[1..])
  }

  /** getIntersection's output: for each left interval in turn, for each right
      interval in turn, the overlap of every overlapping pair. */
  function IntersectAll(left: seq<Interval>, right: seq<Interval>): seq<Interval>
    decreases |left|
  {
    if left == [] then []
    else IntersectOne(left[0], right) + IntersectAll(left[1..], right)
  }

  /** getIntersection: for each left interval, the inner loop over the right
      list (PushOverlaps) pushes the overlap of every overlapping pair. */
  method GetIntersection(left: seq<Interval>, right: seq<Interval>) returns (intersected: seq<Interval>)
    ensures intersected == IntersectAll(left, right)
  {
    intersected := [];
    var i := 0;
    while i < |left|
      invariant 0 <= i <= |left|
      invariant intersected + IntersectAll(left[i..], right) == IntersectAll(left, right)
    {
      ghost var before := intersected;
      IntersectAllStep(left, right, i);
      intersected := PushOverlaps(intersected, left[i], right);
      AppendAssoc(before, IntersectOne(left[i], right), IntersectAll(left[i + 1..], right));
      i := i + 1;
    }
  }

  /** The inner loop of getIntersection: appends to `acc` the overlap of `l`
      with each right interval it overlaps, in order. */
  method PushOverlaps(acc: seq<Interval>, l: Interval, right: seq<Interval>) returns (out: seq<Interval>)
    ensures out == acc + IntersectOne(l, right)
  {
    out := acc;
    var j := 0;
    while j < |right|
      invariant 0 <= j <= |right|
      invariant out + IntersectOne(l, right[j..]) == acc + IntersectOne(l, right)
    {
      var r := right[j];
      ghost var before := out;
      ghost var head := if IsIntersected(l, r) then [Meet(l, r)] else [];
      IntersectOneStep(l, right, j);
      if IsIntersected(l, r) {
        out := out + [Meet(l, r)];
      }
      assert out == before + head;
      AppendAssoc(before, head, IntersectOne(l, right[j + 1..]));
      j := j + 1;
    }
    assert right[j..] == [];
  }

  lemma IntersectOneStep(l: Interval, right: seq<Interval>, j: nat)
    requires j < |right|
    ensures IntersectOne(l, right[j..])
         == (if IsIntersected(l, right[j]) then [Meet(l, right[j])] else []) + IntersectOne(l, right[j + 1..])
  {
    assert right[j..][0] == right[j] && right[j..][1..] == right[j + 1..];
  }

  lemma IntersectAllStep(left: seq<Interval>, right: seq<Interval>, i: nat)
    requires i < |left|
    ensures IntersectAll(left[i..], right) == IntersectOne(left[i], right) + IntersectAll(left[i + 1..], right)
  {
    assert left[i..][0] == left[i] && left[i..][1..] == left[i + 1..];
  }

  lemma {:induction false} IntersectOneCoverage(l: Interval, right: seq<Interval>, t: int)
    ensures Covers(IntersectOne(l, right), t) <==> Contains(l, t) && Covers(right, t)
    decreases |right|
  {
    if right != [] {
      var r, rest := right[0], right[1..];
      var head := if IsIntersected(l, r) then [Meet(l, r)] else [];
      IntersectOneCoverage(l, rest, t);
      CoversConcat(head, IntersectOne(l, rest), t);
      assert right == [r] + rest;
      CoversConcat([r], rest, t);
      assert Covers([r], t) <==> Contains(r, t) by {
        if Contains(r, t) { assert Contains([r][0], t); }
      }
      assert Covers(head, t) <==> Contains(l, t) && Contains(r, t) by {
        IsIntersectedMeaning(l, r);
        if Contains(l, t) && Contains(r, t) { assert Contains(head[0], t); }
      }
    }
  }

  /** getIntersection is set intersection on the minutes covered: a minute
      lies in some output interval exactly when it lies in some left interval
      and in some right interval. */
  lemma {:induction false} IntersectionCoverage(left: seq<Interval>, right: seq<Interval>, t: int)
    ensures Covers(IntersectAll(left, right), t) <==> Covers(left, t) && Covers(right, t)
    decreases |left|
  {
    if left != [] {
      var l, rest := left[0], left[1..];
      IntersectOneCoverage(l, right, t);
      IntersectionCoverage(rest, right, t);
      CoversConcat(IntersectOne(l, right), IntersectAll(rest, right), t);
      assert left == [l] + rest;
      CoversConcat([l], rest, t);
      assert Covers([l], t) <==> Contains(l, t) by {
        if Contains(l, t) { assert Contains([l][0], t); }
      }
    }
  }

  lemma {:induction false} IntersectOneMembers(l: Interval, right: seq<Interval>, x: Interval)
    ensures x in IntersectOne(l, right) <==>
      exists j :: 0 <= j < |right| && IsIntersected(l, right[j]) && x == Meet(l, right[j])
    decreases |right|
  {
    if right != [] {
      var head := if IsIntersected(l, right[0]) then [Meet(l, right[0])] else [];
      IntersectOneMembers(l, right[1..], x);
      assert IntersectOne(l, right) == head + IntersectOne(l, right[1..]);
      if exists j :: 0 <= j < |right| && IsIntersected(l, right[j]) && x == Meet(l, right[j]) {
        var j :| 0 <= j < |right| && IsIntersected(l, right[j]) && x == Meet(l, right[j]);
        if j > 0 {
          assert right[1..][j - 1] == right[j];
        }
      }
      if exists j :: 0 <= j < |right[1..]| && IsIntersected(l, right[1..][j]) && x == Meet(l, right[1..][j]) {
        var j :| 0 <= j < |right[1..]| && IsIntersected(l, right[1..][j]) && x == Meet(l, right[1..][j]);
        assert right[j + 1] == right[1..][j];
      }
    }
  }

  /** The output of getIntersection is exactly the overlaps of the
      overlapping pairs: every output interval is the overlap of some
      overlapping (left, right) pair, and every such pair contributes its
      overlap. */
  lemma IntersectionMembers(left: seq<Interval>, right: seq<Interval>, x: Interval)
    ensures x in IntersectAll(left, right) <==>
      exists i, j :: 0 <= i < |left| && 0 <= j < |right| &&
        IsIntersected(left[i], right[j]) && x == Meet(left[i], right[j])
  {
    if x in IntersectAll(left, right) {
      IntersectionFromPair(left, right, x);
    }
    if exists i, j :: 0 <= i < |left| && 0 <= j < |right| &&
        IsIntersected(left[i], right[j]) && x == Meet(left[i], right[j]) {
      var i, j :| 0 <= i < |left| && 0 <= j < |right| &&
        IsIntersected(left[i], right[j]) && x == Meet(left[i], right[j]);
      PairInIntersection(left, right, i, j);
    }
  }

  /** Every output interval comes from an overlapping pair. */
  lemma {:induction false} IntersectionFromPair(left: seq<Interval>, right: seq<Interval>, x: Interval)
    requires x in IntersectAll(left, right)
    ensures exists i, j :: 0 <= i < |left| && 0 <= j < |right| &&
                           IsIntersected(left[i], right[j]) && x == Meet(left[i], right[j])
    decreases |left|
  {
    var row, tail := IntersectOne(left[0], right), left[1..];
    assert IntersectAll(left, right) == row + IntersectAll(tail, right);
    if x in row {
      IntersectOneMembers(left[0], right, x);
      var j :| 0 <= j < |right| && IsIntersected(left[0], right[j]) && x == Meet(left[0], right[j]);
      assert 0 < |left|;
    } else {
      IntersectionFromPair(tail, right, x);
      var i, j :| 0 <= i < |tail| && 0 <= j < |right| &&
        IsIntersected(tail[i], right[j]) && x == Meet(tail[i], right[j]);
      assert tail[i] == left[i + 1];
    }
  }

  /** Every overlapping pair contributes its overlap. */
  lemma {:induction false} PairInIntersection(left: seq<Interval>, right: seq<Interval>, i: nat, j: nat)
    requires i < |left| && j < |right| && IsIntersected(left[i], right[j])
    ensures Meet(left[i], right[j]) in IntersectAll(left, right)
    decreases |left|
  {
    var row, tail := IntersectOne(left[0], right), left[1..];
    assert IntersectAll(left, right) == row + IntersectAll(tail, right);
    if i == 0 {
      IntersectOneMembers(left[0], right, Meet(left[0], right[j]));
    } else {
      assert tail[i - 1] == left[i];
      PairInIntersection(tail, right, i - 1, j);
    }
  }

  /** The positions of the right intervals that overlap `l`. */
  function OverlapIndices(l: Interval, right: seq<Interval>): set<nat> {
    set j: nat | j < |right| && IsIntersected(l, right[j])
  }

  /** The number of overlapping (left, right) pairs, counted left interval by
      left interval. */
  function OverlapPairCount(left: seq<Interval>, right: seq<Interval>): nat
    decreases |left|
  {
    if left == [] then 0
    else |OverlapIndices(left[0], right)| + OverlapPairCount(left[1..], right)
  }

  lemma {:induction false} IntersectOneSnoc(l: Interval, a: seq<Interval>, x: Interval)
    ensures IntersectOne(l, a + [x])
         == IntersectOne(l, a) + (if IsIntersected(l, x) then [Meet(l, x)] else [])
    decreases |a|
  {
    if a == [] {
      assert a + [x] == [x];
      assert [x][1..] == [];
    } else {
      assert (a + [x])[1..] == a[1..] + [x];
      IntersectOneSnoc(l, a[1..], x);
    }
  }

  lemma OverlapIndicesSnoc(l: Interval, a: seq<Interval>, x: Interval)
    ensures OverlapIndices(l, a + [x])
         == OverlapIndices(l, a) + (if IsIntersected(l, x) then {|a|} else {})
    ensures |a| !in OverlapIndices(l, a)
  {
    var s := a + [x];
    forall j: nat | j < |a| ensures s[j] == a[j] {}
    assert s[|a|] == x;
  }

  /** One left interval contributes exactly one output per right interval it
      overlaps. */
  lemma {:induction false} IntersectOneCount(l: Interval, right: seq<Interval>)
    ensures |IntersectOne(l, right)| == |OverlapIndices(l, right)|
    decreases |right|
  {
    if right == [] {
      assert OverlapIndices(l, right) == {};
    } else {
      var n := |right| - 1;
      var a, x := right[..n], right[n];
      assert right == a + [x];
      IntersectOneSnoc(l, a, x);
      IntersectOneCount(l, a);
      OverlapIndicesSnoc(l, a, x);
    }
  }

  /** getIntersection outputs exactly one interval per overlapping pair. */
  lemma {:induction false} IntersectionCount(left: seq<Interval>, right: seq<Interval>)
    ensures |IntersectAll(left, right)| == OverlapPairCount(left, right)
    decreases |left|
  {
    if left != [] {
      IntersectOneCount(left[0], right);
      IntersectionCount(left[1..], right);
    }
  }

  /** Every interval getIntersection outputs lies inside some left and some
      right interval, and is non-empty when every input interval is. */
  lemma IntersectionContained(left: seq<Interval>, right: seq<Interval>, x: Interval)
    requires x in IntersectAll(left, right)
    ensures exists i :: 0 <= i < |left| && Within(x, left[i])
    ensures exists j :: 0 <= j < |right| && Within(x, right[j])
    ensures NonEmpty(left) && NonEmpty(right) ==> x.from < x.to
  {
    IntersectionMembers(left, right, x);
    var i, j :| 0 <= i < |left| && 0 <= j < |right| &&
      IsIntersected(left[i], right[j]) && x == Meet(left[i], right[j]);
    IsIntersectedMeaning(left[i], right[j]);
  }

  lemma {:induction false} IntersectOneSortedDisjoint(l: Interval, right: seq<Interval>)
    requires SortedDisjoint(right)
    ensures SortedDisjoint(IntersectOne(l, right))
    ensures forall x :: x in IntersectOne(l, right) ==> Within(x, l)
    decreases |right|
  {
    if right != [] {
      var r, rest := right[0], right[1..];
      var head := if IsIntersected(l, r) then [Meet(l, r)] else [];
      assert SortedDisjoint(rest) by {
        forall i, j | 0 <= i < j < |rest| ensures rest[i].to <= rest[j].from {
          assert rest[i] == right[i + 1] && rest[j] == right[j + 1];
        }
      }
      IntersectOneSortedDisjoint(l, rest);
      forall x, y | x in head && y in IntersectOne(l, rest) ensures x.to <= y.from {
        IntersectOneMembers(l, rest, y);
        var j :| 0 <= j < |rest| && IsIntersected(l, rest[j]) && y == Meet(l, rest[j]);
        assert rest[j] == right[j + 1];
      }
      SortedDisjointConcat(head, IntersectOne(l, rest));
    }
  }

  /** Intersecting two ascending, disjoint lists gives an ascending, disjoint
      list: getIntersection's row-major order is already sorted then. */
  lemma {:induction false} IntersectionSortedDisjoint(left: seq<Interval>, right: seq<Interval>)
    requires SortedDisjoint(left) && SortedDisjoint(right)
    ensures SortedDisjoint(IntersectAll(left, right))
    decreases |left|
  {
    if left != [] {
      var l, rest := left[0], left[1..];
      assert SortedDisjoint(rest) by {
        forall i, j | 0 <= i < j < |rest| ensures rest[i].to <= rest[j].from {
          assert rest[i] == left[i + 1] && rest[j] == left[j + 1];
        }
      }
      IntersectOneSortedDisjoint(l, right);
      IntersectionSortedDisjoint(rest, right);
      forall x, y | x in IntersectOne(l, right) && y in IntersectAll(rest, right) ensures x.to <= y.from {
        IntersectionContained(rest, right, y);
        var i :| 0 <= i < |rest| && Within(y, rest[i]);
        assert rest[i] == left[i + 1];
      }
      SortedDisjointConcat(IntersectOne(l, right), IntersectAll(rest, right));
    }
  }

  lemma {:induction false} IntersectOneSwapped(right: seq<Interval>, l: Interval)
    ensures multiset(IntersectOne(l, right)) == multiset(IntersectAll(right, [l]))
    decreases |right|
  {
    if right != [] {
      IntersectOneSwapped(right[1..], l);
      assert [l][1..] == [];
      IsIntersectedSymmetric(l, right[0]);
      assert Meet(l, right[0]) == Meet(right[0], l);
      assert IntersectOne(right[0], [l]) == (if IsIntersected(right[0], l) then [Meet(right[0], l)] else []) + [];
    }
  }

  lemma {:induction false} IntersectAllConsRight(left: seq<Interval>, r: Interval, rest: seq<Interval>)
    ensures multiset(IntersectAll(left, [r] + rest))
         == multiset(IntersectAll(left, [r])) + multiset(IntersectAll(left, rest))
    decreases |left|
  {
    if left != [] {
      var l := left[0];
      IntersectAllConsRight(left[1..], r, rest);
      assert ([r] + rest)[1..] == rest;
      assert [r][1..] == [];
      assert IntersectOne(l, [r] + rest) == (if IsIntersected(l, r) then [Meet(l, r)] else []) + IntersectOne(l, rest);
      assert IntersectOne(l, [r]) == (if IsIntersected(l, r) then [Meet(l, r)] else []) + [];
    }
  }

  /** Intersection does not depend on the order of its arguments: the two
      outputs hold the same intervals the same number of times (only their
      order may differ). */
  lemma {:induction false} IntersectionCommutes(a: seq<Interval>, b: seq<Interval>)
    ensures multiset(IntersectAll(a, b)) == multiset(IntersectAll(b, a))
    decreases |a|
  {
    if a != [] {
      var l, rest := a[0], a[1..];
      IntersectionCommutes(rest, b);
      IntersectOneSwapped(b, l);
      assert a == [l] + rest;
      IntersectAllConsRight(b, l, rest);
      calc {
        multiset(IntersectAll(a, b));
        multiset(IntersectOne(l, b) + IntersectAll(rest, b));
        multiset(IntersectOne(l, b)) + multiset(IntersectAll(rest, b));
        multiset(IntersectAll(b, [l])) + multiset(IntersectAll(b, rest));
        multiset(IntersectAll(b, [l] + rest));
      }
    } else {
      IntersectAllEmptyRight(b);
    }
  }

  lemma {:induction false} IntersectAllEmptyRight(left: seq<Interval>)
    ensures IntersectAll(left, []) == []
    decreases |left|
  {
    if left != [] {
      IntersectAllEmptyRight(left[1..]);
    }
  }

  // ---------------------------------------------------------------------
  // Duration filter
  // ---------------------------------------------------------------------

  /** The filter predicate of getTimeToRobbery: at least `duration` minutes
      long and not empty. */
  predicate LongEnough(i: Interval, duration: int) {
    i.to - i.from >= duration && i.from < i.to
  }

  /** `Array.prototype.filter` with that predicate: keeps, in order, exactly
      the intervals that pass it. */
  function FilterWindows(s: seq<Interval>, duration: int): (r: seq<Interval>)
    ensures forall x :: x in r <==> x in s && LongEnough(x, duration)
    ensures |r| <= |s|
  {
    if s == [] then []
    else if LongEnough(s[0], duration) then [s[0]] + FilterWindows(s[1..], duration)
    else FilterWindows(s[1..], duration)
  }

  /** Filtering keeps the order, so an ascending, disjoint list stays so. */
  lemma {:induction false} FilterSortedDisjoint(s: seq<Interval>, duration: int)
    requires SortedDisjoint(s)
    ensures SortedDisjoint(FilterWindows(s, duration))
  {
    if s != [] {
      var rest := s[1..];
      assert SortedDisjoint(rest) by {
        forall i, j | 0 <= i < j < |rest| ensures rest[i].to <= rest[j].from {
          assert rest[i] == s[i + 1] && rest[j] == s[j + 1];
        }
      }
      FilterSortedDisjoint(rest, duration);
      if LongEnough(s[0], duration) {
        forall x, y | x in [s[0]] && y in FilterWindows(rest, duration) ensures x.to <= y.from {
          var k :| 0 <= k < |rest| && rest[k] == y;
          assert rest[k] == s[k + 1];
        }
        SortedDisjointConcat([s[0]], FilterWindows(rest, duration));
      }
    }
  }
}
