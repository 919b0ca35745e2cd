/** When two collectors' quota reports agree. */
module HubQuota {
  import opened Common
  import opened HubModel

  const PERCENT_TOLERANCE := 5
  const RESET_TOLERANCE := 300

  predicate Within(a: int, b: int, tolerance: int) {
    var difference := a - b;
    (if difference < 0 then -difference else difference) <= tolerance
  }

  predicate TimesAgree(a: Option<int>, b: Option<int>) {
    if a.None? || b.None? then a.None? && b.None? else Within(a.value, b.value, RESET_TOLERANCE)
  }

  predicate WindowsAgree(a: Option<Window>, b: Option<Window>) {
    if a.None? || b.None? then a.None? && b.None?
    else
      && Within(a.value.used, b.value.used, PERCENT_TOLERANCE)
      && Within(a.value.remaining, b.value.remaining, PERCENT_TOLERANCE)
      && a.value.minutes == b.value.minutes && TimesAgree(a.value.resetsAt, b.value.resetsAt)
  }

  predicate IndividualsAgree(a: Option<Individual>, b: Option<Individual>) {
    if a.None? || b.None? then a.None? && b.None?
    else
      && a.value.limit == b.value.limit && Within(a.value.remaining, b.value.remaining, PERCENT_TOLERANCE)
      && Within(a.value.resetsAt, b.value.resetsAt, RESET_TOLERANCE)
  }

  predicate LimitsAgree(a: RateLimit, b: RateLimit) {
    && a.id == b.id && a.name == b.name && a.plan == b.plan
    && WindowsAgree(a.primary, b.primary) && WindowsAgree(a.secondary, b.secondary)
    && a.credits == b.credits && IndividualsAgree(a.individual, b.individual)
    && a.spendControl == b.spendControl && a.reachedType == b.reachedType
  }

  predicate HasAgreeing(l: RateLimit, limits: seq<RateLimit>) {
    exists j :: 0 <= j < |limits| && LimitsAgree(l, limits[j])
  }

  /** The comparison as it is made: left to right, with duplicate ids rejected on the right only. */
  predicate Agrees(a: Quota, b: Quota) {
    && a.plan == b.plan && WindowsAgree(a.main, b.main) && a.resetCredits == b.resetCredits
    && |a.limits| == |b.limits| && UniqueIds(b.limits)
    && forall i :: 0 <= i < |a.limits| ==> HasAgreeing(a.limits[i], b.limits)
  }

  function Ids(limits: seq<RateLimit>): set<string> {
    set i | 0 <= i < |limits| :: limits[i].id
  }

  lemma SubsetEqual<T>(a: set<T>, b: set<T>)
    requires a <= b && |a| == |b|
    ensures a == b
  {
    assert b == a + (b - a);
    assert |b| == |a| + |b - a|;
  }

  lemma LimitsAgreeSymmetric(a: RateLimit, b: RateLimit)
    ensures LimitsAgree(a, b) <==> LimitsAgree(b, a)
  {
  }

  lemma SameIds(l: seq<RateLimit>, r: seq<RateLimit>)
    requires |l| == |r| && UniqueIds(l) && UniqueIds(r) && forall i :: 0 <= i < |l| ==> HasAgreeing(l[i], r)
    ensures Ids(l) == Ids(r)
  {
    UniqueIfCounted(l);
    UniqueIfCounted(r);
    hide LimitsAgree, UniqueIds;
    forall i | 0 <= i < |l| ensures l[i].id in Ids(r) {
      var j :| 0 <= j < |r| && LimitsAgree(l[i], r[j]);
      SameId(l[i], r[j]);
    }
    SubsetEqual(Ids(l), Ids(r));
  }

  lemma AgreesBack(l: seq<RateLimit>, r: seq<RateLimit>, j: nat)
    requires Ids(l) == Ids(r) && UniqueIds(r) && j < |r| && forall i :: 0 <= i < |l| ==> HasAgreeing(l[i], r)
    ensures HasAgreeing(r[j], l)
  {
    hide LimitsAgree;
    assert r[j].id in Ids(l);
    var i :| 0 <= i < |l| && l[i].id == r[j].id;
    assert HasAgreeing(l[i], r);
    var k :| 0 <= k < |r| && LimitsAgree(l[i], r[k]);
    SameId(l[i], r[k]);
    LimitsAgreeSymmetric(l[i], r[j]);
  }

  lemma AgreesOneWay(a: Quota, b: Quota)
    requires UniqueIds(a.limits) && Agrees(a, b)
    ensures Agrees(b, a)
  {
    hide HasAgreeing, UniqueIds;
    SameIds(a.limits, b.limits);
    forall j | 0 <= j < |b.limits| ensures HasAgreeing(b.limits[j], a.limits) {
      AgreesBack(a.limits, b.limits, j);
    }
  }

  lemma SameId(a: RateLimit, b: RateLimit)
    requires LimitsAgree(a, b)
    ensures a.id == b.id
  {
  }

  /** For reports without duplicate buckets the comparison does not depend on the order. */
  lemma AgreesSymmetric(a: Quota, b: Quota)
    requires UniqueIds(a.limits) && UniqueIds(b.limits)
    ensures Agrees(a, b) <==> Agrees(b, a)
  {
    if Agrees(a, b) { AgreesOneWay(a, b); }
    if Agrees(b, a) { AgreesOneWay(b, a); }
    hide Agrees;
  }

  /** An agreement holds the other way round exactly when the left report has no duplicate buckets. */
  lemma AgreesBackIff(a: Quota, b: Quota)
    requires Agrees(a, b)
    ensures Agrees(b, a) <==> UniqueIds(a.limits)
  {
    hide HasAgreeing, UniqueIds;
    if UniqueIds(a.limits) { AgreesOneWay(a, b); }
  }

  /** A duplicated bucket on the left alone goes unnoticed, so without validation the order matters. */
  lemma AgreesNeedsUniqueIds(l: RateLimit, m: RateLimit)
    requires l.id != m.id
    ensures var a, b := Quota("", None, None, [l, l]), Quota("", None, None, [l, m]);
            Agrees(a, b) && !Agrees(b, a)
  {
    var a, b := [l, l], [l, m];
    assert LimitsAgree(l, b[0]);
    assert a[0].id == a[1].id;
  }

  method IndexById(limits: seq<RateLimit>) returns (byId: map<string, RateLimit>)
    ensures byId.Keys == Ids(limits)
    ensures UniqueIds(limits) ==> forall i :: 0 <= i < |limits| ==> limits[i].id in byId && byId[limits[i].id] == limits[i]
  {
    byId := map[];
    for j := 0 to |limits|
      invariant byId.Keys == set i | 0 <= i < j :: limits[i].id
      invariant UniqueIds(limits) ==> forall i :: 0 <= i < j ==> limits[i].id in byId && byId[limits[i].id] == limits[i]
    {
      byId := byId[limits[j].id := limits[j]];
    }
  }

  method Compare(a: Quota, b: Quota) returns (agree: bool)
    ensures agree <==> Agrees(a, b)
  {
    hide LimitsAgree, WindowsAgree, UniqueIds, HasAgreeing, Ids;
    if a.plan != b.plan || !WindowsAgree(a.main, b.main) || a.resetCredits != b.resetCredits || |a.limits| != |b.limits| {
      return false;
    }
    var byId := IndexById(b.limits);
    UniqueIfCounted(b.limits);
    if |byId| != |b.limits| {
      return false;
    }
    for i := 0 to |a.limits|
      invariant forall k :: 0 <= k < i ==> HasAgreeing(a.limits[k], b.limits)
    {
      var l := a.limits[i];
      FoundById(l, b.limits, byId);
      if l.id !in byId || !LimitsAgree(l, byId[l.id]) { return false; }
    }
    agree := true;
  }

  lemma FoundById(l: RateLimit, limits: seq<RateLimit>, byId: map<string, RateLimit>)
    requires byId.Keys == Ids(limits) && forall i :: 0 <= i < |limits| ==> limits[i].id in byId && byId[limits[i].id] == limits[i]
    ensures HasAgreeing(l, limits) <==> l.id in byId && LimitsAgree(l, byId[l.id])
  {
    hide LimitsAgree;
    if HasAgreeing(l, limits) {
      var j :| 0 <= j < |limits| && LimitsAgree(l, limits[j]);
      SameId(l, limits[j]);
    }
    if l.id in byId && LimitsAgree(l, byId[l.id]) {
      var j :| 0 <= j < |limits| && limits[j].id == l.id;
      assert LimitsAgree(l, limits[j]);
    }
  }

  lemma UniqueLast(limits: seq<RateLimit>)
    requires limits != []
    ensures UniqueIds(limits) <==>
            UniqueIds(limits[..|limits| - 1]) && limits[|limits| - 1].id !in Ids(limits[..|limits| - 1])
  {
  }

  lemma {:induction false} UniqueIfCounted(limits: seq<RateLimit>)
    ensures |Ids(limits)| <= |limits|
    ensures |Ids(limits)| == |limits| <==> UniqueIds(limits)
  {
    if limits != [] {
      var front, last := limits[..|limits| - 1], limits[|limits| - 1];
      UniqueIfCounted(front);
      UniqueLast(limits);
      hide UniqueIds;
      assert Ids(limits) == Ids(front) + {last.id};
    }
  }

  // ----- how close is close enough -----

  /** Two windows agree on the same period when percentages differ by at most five and resets by at most 300 seconds. */
  predicate Close(a: Window, b: Window) {
    && -5 <= a.used - b.used <= 5 && -5 <= a.remaining - b.remaining <= 5 && a.minutes == b.minutes
    && a.resetsAt.Some? == b.resetsAt.Some? && (a.resetsAt.Some? && b.resetsAt.Some? ==> -300 <= a.resetsAt.value - b.resetsAt.value <= 300)
  }

  predicate CloseOption(a: Option<Window>, b: Option<Window>) {
    a.Some? == b.Some? && (a.Some? && b.Some? ==> Close(a.value, b.value))
  }

  /** Two buckets agree when their windows and spending limits are close and all else is the same. */
  predicate CloseLimit(a: RateLimit, b: RateLimit) {
    && a == b.(primary := a.primary, secondary := a.secondary, individual := a.individual)
    && CloseOption(a.primary, b.primary) && CloseOption(a.secondary, b.secondary)
    && a.individual.Some? == b.individual.Some?
    && (a.individual.Some? && b.individual.Some? ==>
          && a.individual.value.limit == b.individual.value.limit
          && -5 <= a.individual.value.remaining - b.individual.value.remaining <= 5
          && -300 <= a.individual.value.resetsAt - b.individual.value.resetsAt <= 300)
  }

  /** Reports without duplicate buckets agree exactly when plan and reset credits are the same, the main windows are
      close, and both have the same buckets, each close to the other's of the same id. */
  lemma AgreesExactly(a: Quota, b: Quota)
    requires UniqueIds(a.limits) && UniqueIds(b.limits)
    ensures Agrees(a, b) <==>
            && a.plan == b.plan && a.resetCredits == b.resetCredits && CloseOption(a.main, b.main) && Ids(a.limits) == Ids(b.limits)
            && forall i, j :: 0 <= i < |a.limits| && 0 <= j < |b.limits| && a.limits[i].id == b.limits[j].id ==> CloseLimit(a.limits[i], b.limits[j])
  {
    hide LimitsAgree, CloseLimit, UniqueIds;
    forall i, j | 0 <= i < |a.limits| && 0 <= j < |b.limits| ensures LimitsAgree(a.limits[i], b.limits[j]) <==> CloseLimit(a.limits[i], b.limits[j]) {
      LimitsAgreeIff(a.limits[i], b.limits[j]);
    }
    if Agrees(a, b) {
      SameIds(a.limits, b.limits);
      forall i, j | 0 <= i < |a.limits| && 0 <= j < |b.limits| && a.limits[i].id == b.limits[j].id
        ensures LimitsAgree(a.limits[i], b.limits[j])
      {
        assert HasAgreeing(a.limits[i], b.limits);
        var k :| 0 <= k < |b.limits| && LimitsAgree(a.limits[i], b.limits[k]);
        SameId(a.limits[i], b.limits[k]);
        OneOfId(b.limits, j, k);
      }
    }
    if Ids(a.limits) == Ids(b.limits) {
      UniqueIfCounted(a.limits);
      UniqueIfCounted(b.limits);
      forall i | 0 <= i < |a.limits| ensures exists j :: 0 <= j < |b.limits| && b.limits[j].id == a.limits[i].id {
        assert a.limits[i].id in Ids(b.limits);
      }
    }
  }

  lemma OneOfId(limits: seq<RateLimit>, j: nat, k: nat)
    requires UniqueIds(limits) && j < |limits| && k < |limits| && limits[j].id == limits[k].id
    ensures j == k
  {
  }

  lemma LimitsAgreeIff(a: RateLimit, b: RateLimit)
    ensures LimitsAgree(a, b) <==> CloseLimit(a, b)
  {
  }
}
