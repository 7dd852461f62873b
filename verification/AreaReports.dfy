/** When a report of a forgotten area alone, without its entries, reaches every subscriber it concerns. */
module AreaReports {
  import opened Wrappers
  import opened ByteStrings
  import opened Paths
  import opened Grouping
  import opened Entries
  import opened StoreEvents
  import opened Queries
  import opened Replay

  ghost predicate AreaReportReplays(sub: Subscription, ns: NamespaceId, m: Store, area: Area, protected: Option<Area>)
    requires ValidArea(sub.lim, sub.width, area) && (protected.Some? ==> ValidArea(sub.lim, sub.width, protected.value))
  {
    EventsEffect(ns, Subscribed(sub, m), EventsOf(sub, AreaForgotten(area, protected)))
      == Subscribed(sub, OpEffect(m, AreaForgotten(area, protected)))
  }

  /** The persistent store reports an area alone. Such a report replays in every store and for every
      subscription if and only if its areas are among those that `ReportSuffices` describes. */
  lemma AreaReportReplaysIff(lim: Limits, width: nat, ns: NamespaceId, area: Area, protected: Option<Area>, token: Token)
    requires ValidArea(lim, width, area) && ValidTimes(area.times)
    requires protected.Some? ==> ValidArea(lim, width, protected.value) && ValidTimes(protected.value.times)
    ensures (forall sub: Subscription, m | sub.lim == lim && sub.width == width && ValidStore(lim, width, m) ::
              AreaReportReplays(sub, ns, m, area, protected))
      <==> ReportSuffices(lim, width, area, protected)
  {
    if ReportSuffices(lim, width, area, protected) {
      forall sub: Subscription, m | sub.lim == lim && sub.width == width && ValidStore(lim, width, m)
        ensures AreaReportReplays(sub, ns, m, area, protected)
      {
        ReplayAreaForgotten(sub, ns, m, area, protected);
      }
    } else {
      var sub, m := MissedReport(lim, width, ns, area, protected, token);
      assert !AreaReportReplays(sub, ns, m, area, protected);
    }
  }

  lemma MissedReport(lim: Limits, width: nat, ns: NamespaceId, area: Area, protected: Option<Area>, token: Token)
      returns (sub: Subscription, m: Store)
    requires ValidArea(lim, width, area) && ValidTimes(area.times)
    requires protected.Some? ==> ValidArea(lim, width, protected.value) && ValidTimes(protected.value.times)
    requires !ReportSuffices(lim, width, area, protected)
    ensures sub.lim == lim && sub.width == width && ValidStore(lim, width, m)
    ensures !AreaReportReplays(sub, ns, m, area, protected)
  {
    if protected.Some? && ReachesPast(lim, protected.value, area) {
      var p := protected.value;
      var s, q, t := PastPoint(lim, width, p, area);
      sub := Subscription(lim, width, RangeFromArea(lim, width, p), DEFAULT_IGNORE);
      RangeIncludesItself(sub.range);
      m := Unheard(sub, ns, area, protected, s, q, t, token);
    } else {
      var s, q, t := PointBelow(lim, width, area, protected);
      sub := Subscription(lim, width, Range3d(Range(s, Open), Range(q, Open), Range(0, Open)), DEFAULT_IGNORE);
      StartsAfter(lim, width, area, s, q);
      m := Unheard(sub, ns, area, protected, s, q, t, token);
    }
  }

  /** A store with one entry, which the area forgets and the subscriber keeps. */
  lemma Unheard(sub: Subscription, ns: NamespaceId, area: Area, protected: Option<Area>, s: SubspaceId, q: Path, t: nat, token: Token)
      returns (m: Store)
    requires ValidArea(sub.lim, sub.width, area) && (protected.Some? ==> ValidArea(sub.lim, sub.width, protected.value))
    requires ValidSubspace(sub.width, s) && ValidPath(sub.lim, q) && t < U64_LIMIT && sub.ignore == DEFAULT_IGNORE
    requires RangeIncludes(sub.range, s, q, t) && AreaIncludes(area, s, q, t)
    requires !(protected.Some? && AreaIncludes(protected.value, s, q, t)) && !AreaTouches(sub, area, protected)
    ensures ValidStore(sub.lim, sub.width, m) && !AreaReportReplays(sub, ns, m, area, protected)
  {
    var k, r := Key(s, q), SingleRecord(token, t);
    m := map[k := r];
    assert k in m && m[k] == r && Wanted(sub, k, r) && k in Forgotten(m, area, protected);
    assert EventsOf(sub, AreaForgotten(area, protected)) == [];
    assert k in Subscribed(sub, m) && k !in Subscribed(sub, OpEffect(m, AreaForgotten(area, protected)));
  }

  lemma RangeIncludesItself(r: Range3d)
    ensures RangeIncludesRange(r, r)
  {}

  /** Where the range of a protected area reaches past it, into the other area. */
  lemma PastPoint(lim: Limits, width: nat, p: Area, a: Area) returns (s: SubspaceId, q: Path, t: nat)
    requires ValidArea(lim, width, p) && ValidArea(lim, width, a) && ReachesPast(lim, p, a)
    requires ValidTimes(a.times) && ValidTimes(p.times)
    ensures ValidSubspace(width, s) && ValidPath(lim, q) && t < U64_LIMIT
    ensures AreaIncludes(a, s, q, t) && !AreaIncludes(p, s, q, t) && RangeIncludes(RangeFromArea(lim, width, p), s, q, t)
  {
    s := if a.subspace.Id? then a.subspace.id else if p.subspace.Id? then p.subspace.id else Zeros(width);
    t := if p.times.start < a.times.start then a.times.start else p.times.start;
    SubspaceRangeMeaning(lim, width, p, s);
    SuccessorMeaning(lim, p.path);
    var next := SuccessorOf(lim, p.path).value;
    if PathLess(p.path, a.path) && PathLess(a.path, next) {
      q := a.path;
    } else {
      var w :| ValidPath(lim, w) && PathLess(p.path, w) && !PathLeq(next, w);
      PathLessTotal(next, w);
      var i := CarryFork(lim, p.path, w);
      assert a.path == p.path[..|a.path|] == w[..i][..|a.path|];
      q := w;
    }
    assert |p.path| + 1 > lim.mcc by { assert PathLength(p.path) + 0 <= lim.mpl; }
    PathLessIrreflexive(p.path);
    assert p.path <= q ==> p.path == q;
  }

  /** An entry strictly below the path of the area that is not protected. */
  lemma PointBelow(lim: Limits, width: nat, a: Area, protected: Option<Area>) returns (s: SubspaceId, q: Path, t: nat)
    requires ValidArea(lim, width, a) && ValidTimes(a.times) && !TimesEmpty(a.times) && |a.path| < lim.mcc
    requires protected.Some? ==> ValidArea(lim, width, protected.value) && ValidTimes(protected.value.times)
    requires protected.Some? ==> !ShieldsBelow(lim, width, protected.value, a)
    ensures ValidSubspace(width, s) && ValidPath(lim, q) && t < U64_LIMIT
    ensures AreaIncludes(a, s, q, t) && q != a.path && !(protected.Some? && AreaIncludes(protected.value, s, q, t))
  {
    s := match a.subspace case Any => Zeros(width) case Id(id) => id;
    q, t := a.path + [[]], a.times.start;
    PathLengthConcat(a.path, [[]]);
    if protected.Some? {
      var p := protected.value;
      if !SubspaceCovers(width, p.subspace, a.subspace) {
        s := UncoveredSubspace(width, p.subspace, a.subspace);
      } else if !TimesIncludeRange(p.times, a.times) {
        t := UncoveredTime(p.times, a.times);
      } else if p.path <= q {
        q := a.path + [[0]];
        PathLengthConcat(a.path, [[0]]);
        assert PathLength([[0]]) == 1 by { assert [[0]][1..] == []; }
        assert p.path == a.path + [[]];
        assert (a.path + [[]])[|a.path|] != q[|a.path|];
      }
    }
  }

  lemma UncoveredSubspace(width: nat, p: AreaSubspace, a: AreaSubspace) returns (s: SubspaceId)
    requires !SubspaceCovers(width, p, a) && (a.Id? ==> |a.id| == width) && (p.Id? ==> |p.id| == width)
    ensures |s| == width && SubspaceIncludes(a, s) && !SubspaceIncludes(p, s)
  {
    if a.Id? { return a.id; }
    s := p.id[0 := if p.id[0] == 0 then 1 else 0];
    assert s[0] != p.id[0];
  }

  lemma UncoveredTime(p: Range<nat>, a: Range<nat>) returns (t: nat)
    requires ValidTimes(p) && ValidTimes(a) && !TimesEmpty(a) && !TimesIncludeRange(p, a)
    ensures t < U64_LIMIT && TimesInclude(a, t) && !TimesInclude(p, t)
  {
    t := if p.start > a.start || p.end.end < a.start then a.start else p.end.end;
  }

  /** A subscription that starts below the path of an area does not meet the range made of the area. */
  lemma StartsAfter(lim: Limits, width: nat, a: Area, s: SubspaceId, q: Path)
    requires ValidArea(lim, width, a) && ValidPath(lim, q) && a.path <= q && q != a.path
    ensures !RangesMeet(RangeFromArea(lim, width, a), Range3d(Range(s, Open), Range(q, Open), Range(0, Open)))
  {
    var next := a.path + [[]];
    PathLengthConcat(a.path, [[]]);
    PathLengthConcat(a.path, q[|a.path|..]);
    assert q == a.path + q[|a.path|..];
    EmptyComponentIsSuccessor(lim, a.path);
    PathLessPrefix(a.path, q);
    PathLessIrreflexive(q);
    if PathLess(q, next) { PathLessAsymmetric(q, next); }
  }
}
