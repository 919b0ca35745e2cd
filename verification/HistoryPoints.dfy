/** The public reset timeline of one account. */
module HistoryPoints {
  import opened Common
  import opened HistoryModel
  import opened HistoryRules

  const MAX_POINTS := 1024

  datatype Kind = Scheduled | InferredEarly

  datatype Point = Point(at: int, detectedAt: Instant, kind: Kind, usedBefore: int,
                         previousScheduledAt: Option<int>, nextScheduledAt: Option<int>)

  function ScheduledPoint(e: Event): Point {
    Point(e.resetsAt, e.detectedAt, Scheduled, e.usedBefore, None, None)
  }

  function InferredPointOf(a: Adjustment): Point {
    Point(a.after.startedAt, a.detectedAt, InferredEarly, a.before.used, Some(a.before.resetsAt), Some(a.after.resetsAt))
  }

  function ScheduledPoints(events: seq<Event>): seq<Point> {
    seq(|events|, i requires 0 <= i < |events| => ScheduledPoint(events[i]))
  }

  predicate Near(points: seq<Point>, at: int) {
    exists i :: 0 <= i < |points| && Equivalent(points[i].at, at)
  }

  function AddInferred(points: seq<Point>, a: Adjustment): seq<Point> {
    if InferredPoint(a) && !Near(points, InferredPointOf(a).at) then points + [InferredPointOf(a)] else points
  }

  function Collect(events: seq<Event>, adjs: seq<Adjustment>): seq<Point> {
    if adjs == [] then ScheduledPoints(events)
    else AddInferred(Collect(events, adjs[..|adjs| - 1]), adjs[|adjs| - 1])
  }

  predicate Before(a: Point, b: Point) {
    if a.at != b.at then a.at < b.at
    else if a.kind != b.kind then a.kind == Scheduled
    else a.detectedAt < b.detectedAt
  }

  function InsertPoint(points: seq<Point>, p: Point): seq<Point> {
    if points == [] || !Before(p, points[|points| - 1]) then points + [p]
    else InsertPoint(points[..|points| - 1], p) + [points[|points| - 1]]
  }

  function SortPoints(points: seq<Point>): seq<Point> {
    if points == [] then [] else InsertPoint(SortPoints(points[..|points| - 1]), points[|points| - 1])
  }

  function ResetPoints(events: seq<Event>, adjs: seq<Adjustment>): seq<Point> {
    Newest(SortPoints(Collect(events, adjs)), MAX_POINTS)
  }

  /** The loops of the projection compute the specification function. */
  method PublicResetPoints(events: seq<Event>, adjs: seq<Adjustment>) returns (r: seq<Point>)
    ensures r == ResetPoints(events, adjs)
  {
    var points := [];
    for i := 0 to |events|
      invariant points == ScheduledPoints(events[..i])
    {
      points := points + [ScheduledPoint(events[i])];
    }
    assert events[..|events|] == events;
    for i := 0 to |adjs|
      invariant points == Collect(events, adjs[..i])
    {
      assert adjs[..i + 1][..i] == adjs[..i];
      if InferredPoint(adjs[i]) {
        var point := InferredPointOf(adjs[i]);
        var duplicate := false;
        for j := 0 to |points|
          invariant duplicate <==> Near(points[..j], point.at)
        {
          if Equivalent(points[j].at, point.at) {
            duplicate := true;
          }
          assert forall k :: 0 <= k < j ==> points[..j + 1][k] == points[..j][k];
        }
        assert points[..|points|] == points;
        if !duplicate {
          points := points + [point];
        }
      }
    }
    assert adjs[..|adjs|] == adjs;
    r := [];
    for i := 0 to |points|
      invariant r == SortPoints(points[..i])
    {
      assert points[..i + 1][..i] == points[..i];
      r := InsertPoint(r, points[i]);
    }
    assert points[..|points|] == points;
    if |r| > MAX_POINTS {
      r := r[|r| - MAX_POINTS..];
    }
  }

  // ----- what the timeline guarantees -----

  /** Distinct positions, and an inferred point keeps more than two minutes from every other point. */
  predicate Spaced(points: seq<Point>) {
    forall i, j :: 0 <= i < j < |points| ==>
      && points[i].at != points[j].at
      && (points[i].kind == InferredEarly || points[j].kind == InferredEarly ==> !Equivalent(points[i].at, points[j].at))
  }

  predicate StrictlyOrdered(points: seq<Point>) {
    forall i, j :: 0 <= i < j < |points| ==> points[i].at < points[j].at
  }

  /** An adjustment that tells of an early reset: another reset time with less used, and a week that began after
      the old one was first observed, at most five minutes after and a day before the change was detected. */
  predicate EarlyReset(a: Adjustment) {
    && ResetTimestampChanged in a.reasons && UsedPercentDecreased in a.reasons && a.after.used < a.before.used
    && Unix(a.before.firstObservedAt) <= a.after.startedAt && -300 <= Unix(a.detectedAt) - a.after.startedAt <= 86_400
  }

  lemma EarlyResetInferred(a: Adjustment)
    ensures InferredPoint(a) <==> EarlyReset(a)
  {
  }

  /** Where a point may come from: a completed week, at its reset; an early reset, where the new week began. */
  predicate Sourced(p: Point, events: seq<Event>, adjs: seq<Adjustment>) {
    || (exists e :: e in events && p == Point(e.resetsAt, e.detectedAt, Scheduled, e.usedBefore, None, None))
    || (exists a :: a in adjs && EarlyReset(a) &&
          p == Point(a.after.startedAt, a.detectedAt, InferredEarly, a.before.used, Some(a.before.resetsAt), Some(a.after.resetsAt)))
  }

  lemma {:induction false} CollectSpaced(events: seq<Event>, adjs: seq<Adjustment>)
    requires Increasing(events)
    ensures Spaced(Collect(events, adjs))
  {
    if adjs != [] {
      CollectSpaced(events, adjs[..|adjs| - 1]);
      var points, a := Collect(events, adjs[..|adjs| - 1]), adjs[|adjs| - 1];
      if InferredPoint(a) && !Near(points, InferredPointOf(a).at) {
        forall i | 0 <= i < |points| ensures !Equivalent(points[i].at, InferredPointOf(a).at) {}
      }
    }
  }

  lemma {:induction false} CollectSourced(events: seq<Event>, adjs: seq<Adjustment>)
    ensures forall p :: p in Collect(events, adjs) ==> Sourced(p, events, adjs)
  {
    if adjs == [] {
      forall p | p in ScheduledPoints(events) ensures Sourced(p, events, adjs) {
        var i :| 0 <= i < |events| && ScheduledPoint(events[i]) == p;
        assert events[i] in events;
      }
    } else {
      var front, last := adjs[..|adjs| - 1], adjs[|adjs| - 1];
      CollectSourced(events, front);
      assert adjs == front + [last];
      EarlyResetInferred(last);
    }
  }

  lemma {:induction false} CollectCovers(events: seq<Event>, adjs: seq<Adjustment>)
    ensures forall e :: e in events ==> ScheduledPoint(e) in Collect(events, adjs)
    ensures forall a :: a in adjs && InferredPoint(a) ==> Near(Collect(events, adjs), a.after.startedAt)
  {
    var points := Collect(events, adjs);
    if adjs == [] {
      forall e | e in events ensures ScheduledPoint(e) in points {
        var i :| 0 <= i < |events| && events[i] == e;
        assert points[i] == ScheduledPoint(e);
      }
    } else {
      var front, last := adjs[..|adjs| - 1], adjs[|adjs| - 1];
      CollectCovers(events, front);
      var before := Collect(events, front);
      assert adjs == front + [last] && before <= points;
      forall at | Near(before, at) ensures Near(points, at) {
        var i :| 0 <= i < |before| && Equivalent(before[i].at, at);
        assert points[i] == before[i];
      }
      if InferredPoint(last) && !Near(before, last.after.startedAt) {
        assert points[|before|] == InferredPointOf(last);
        assert Near(points, last.after.startedAt);
      }
    }
  }

  lemma {:induction false} InsertPointElements(points: seq<Point>, p: Point)
    ensures forall x :: x in InsertPoint(points, p) <==> x in points || x == p
    ensures |InsertPoint(points, p)| == |points| + 1
  {
    if points != [] && Before(p, points[|points| - 1]) {
      var front, last := points[..|points| - 1], points[|points| - 1];
      assert points == front + [last];
      InsertPointElements(front, p);
    }
  }

  lemma {:induction false} InsertPointOrdered(points: seq<Point>, p: Point)
    requires StrictlyOrdered(points) && forall x :: x in points ==> x.at != p.at
    ensures StrictlyOrdered(InsertPoint(points, p))
  {
    if points != [] {
      var front, last := points[..|points| - 1], points[|points| - 1];
      assert points == front + [last] && last in points;
      if Before(p, last) {
        InsertPointOrdered(front, p);
        InsertPointElements(front, p);
        var r := InsertPoint(front, p);
        forall i | 0 <= i < |r| ensures r[i].at < last.at {
          assert r[i] in r;
          if r[i] != p {
            var j :| 0 <= j < |front| && front[j] == r[i];
            assert points[j].at < points[|points| - 1].at;
          }
        }
      }
    }
  }

  lemma {:induction false} SortPointsSorts(points: seq<Point>)
    requires Spaced(points)
    ensures StrictlyOrdered(SortPoints(points)) && |SortPoints(points)| == |points|
    ensures forall x :: x in SortPoints(points) <==> x in points
  {
    if points != [] {
      var front, last := points[..|points| - 1], points[|points| - 1];
      assert points == front + [last];
      SortPointsSorts(front);
      forall x | x in SortPoints(front) ensures x.at != last.at {
        var i :| 0 <= i < |front| && front[i] == x;
        assert points[i] == x && points[|points| - 1] == last;
      }
      InsertPointOrdered(SortPoints(front), last);
      InsertPointElements(SortPoints(front), last);
    }
  }

  lemma SpacedByElements(points: seq<Point>, x: Point, y: Point)
    requires Spaced(points) && x in points && y in points && x != y
    requires x.kind == InferredEarly || y.kind == InferredEarly
    ensures !Equivalent(x.at, y.at)
  {
    var i :| 0 <= i < |points| && points[i] == x;
    var j :| 0 <= j < |points| && points[j] == y;
  }

  /** The published timeline of an account with well-formed events: strictly increasing, at most
      1024 points, all from events and early resets, an early reset more than two minutes from any other point. */
  lemma TimelineSound(events: seq<Event>, adjs: seq<Adjustment>)
    requires Increasing(events)
    ensures var r := ResetPoints(events, adjs);
            && StrictlyOrdered(r) && |r| <= 1024
            && (forall p :: p in r ==> Sourced(p, events, adjs))
            && (forall x, y :: x in r && y in r && x != y && x.kind == InferredEarly ==> x.at - y.at > 120 || y.at - x.at > 120)
  {
    var points := Collect(events, adjs);
    CollectSpaced(events, adjs);
    CollectSourced(events, adjs);
    SortPointsSorts(points);
    var r := ResetPoints(events, adjs);
    forall x, y | x in r && y in r && x != y && x.kind == InferredEarly ensures !Equivalent(x.at, y.at) {
      SpacedByElements(points, x, y);
    }
  }

  /** Some point lies within two minutes of `at`. */
  predicate Shown(points: seq<Point>, at: int) {
    exists p :: p in points && -120 <= p.at - at <= 120
  }

  /** The cap drops a point only from 1024 later ones. */
  predicate Capped(points: seq<Point>, at: int) {
    |points| == 1024 && forall q :: q in points ==> at < q.at
  }

  /** Nothing else is missing: every completed week has its point, and every early reset a point within two
      minutes, unless the timeline is full of later ones. */
  lemma TimelineComplete(events: seq<Event>, adjs: seq<Adjustment>)
    requires Increasing(events)
    ensures var r, all := ResetPoints(events, adjs), SortPoints(Collect(events, adjs));
            && r == all[|all| - |r|..] && (|r| < 1024 ==> r == all)
            && (forall e :: e in events ==>
                  Point(e.resetsAt, e.detectedAt, Scheduled, e.usedBefore, None, None) in r || Capped(r, e.resetsAt))
            && (forall a :: a in adjs && EarlyReset(a) ==> Shown(r, a.after.startedAt) || Capped(r, a.after.startedAt - 120))
  {
    hide Collect, SortPoints, Newest, Capped, EarlyReset, Shown;
    CollectSpaced(events, adjs);
    CollectCovers(events, adjs);
    SortPointsSorts(Collect(events, adjs));
    var all := SortPoints(Collect(events, adjs));
    CapDropsOlder(all);
    NewestIs(all);
    forall e | e in events
      ensures Point(e.resetsAt, e.detectedAt, Scheduled, e.usedBefore, None, None) in ResetPoints(events, adjs)
              || Capped(ResetPoints(events, adjs), e.resetsAt)
    {
      assert ScheduledPoint(e) in all;
    }
    forall a | a in adjs && EarlyReset(a)
      ensures Shown(ResetPoints(events, adjs), a.after.startedAt) || Capped(ResetPoints(events, adjs), a.after.startedAt - 120)
    {
      EarlyResetInferred(a);
      ShownOrCapped(Collect(events, adjs), all, ResetPoints(events, adjs), a.after.startedAt);
    }
  }

  lemma ShownOrCapped(points: seq<Point>, all: seq<Point>, r: seq<Point>, at: int)
    requires Near(points, at) && (forall x :: x in points ==> x in all) && forall p :: p in all && p !in r ==> Capped(r, p.at)
    ensures Shown(r, at) || Capped(r, at - 120)
  {
    var i :| 0 <= i < |points| && Equivalent(points[i].at, at);
    assert points[i] in all;
    if points[i] !in r { CappedBelow(r, points[i].at, at - 120); }
    hide Capped;
  }

  lemma NewestIs(all: seq<Point>)
    ensures var r := Newest(all, MAX_POINTS); |r| <= |all| && r == all[|all| - |r|..] && (|r| < 1024 ==> r == all)
  {
  }

  lemma CappedBelow(points: seq<Point>, at: int, below: int)
    requires Capped(points, at) && below <= at
    ensures Capped(points, below)
  {
  }

  lemma CapDropsOlder(all: seq<Point>)
    requires StrictlyOrdered(all)
    ensures var r := Newest(all, MAX_POINTS); forall p :: p in all && p !in r ==> Capped(r, p.at)
  {
    var r := Newest(all, MAX_POINTS);
    forall p | p in all && p !in r ensures |r| == 1024 {}
    forall p, q | p in all && p !in r && q in r ensures p.at < q.at {
      DroppedBefore(all, r, p, q);
    }
  }

  lemma DroppedBefore(all: seq<Point>, r: seq<Point>, p: Point, q: Point)
    requires StrictlyOrdered(all) && |r| <= |all| && r == all[|all| - |r|..]
    requires p in all && p !in r && q in r
    ensures p.at < q.at
  {
    var cut := |all| - |r|;
    var i :| 0 <= i < |all| && all[i] == p;
    var j :| 0 <= j < |r| && r[j] == q;
    TailHas(all, cut);
    assert all[j + cut] == q;
  }

  lemma TailHas(all: seq<Point>, cut: nat)
    requires cut <= |all|
    ensures forall i :: cut <= i < |all| ==> all[i] in all[cut..]
  {
    forall i | cut <= i < |all| ensures all[i] in all[cut..] { assert all[cut..][i - cut] == all[i]; }
  }
}
