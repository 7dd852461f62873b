/** How many of some areas include a point, and how many of the ranges made of them do. */
module AreaTallies {
  import opened Paths
  import opened Grouping

  function Tally(marks: seq<bool>): nat {
    if marks == [] then 0 else Tally(marks[..|marks| - 1]) + if marks[|marks| - 1] then 1 else 0
  }

  lemma {:induction false} TallyGrows(a: seq<bool>, b: seq<bool>)
    requires |a| == |b| && forall i | 0 <= i < |a| :: a[i] ==> b[i]
    ensures Tally(a) <= Tally(b)
    ensures (exists i :: 0 <= i < |a| && !a[i] && b[i]) ==> Tally(a) < Tally(b)
    decreases |a|
  {
    if a != [] {
      var n := |a| - 1;
      TallyGrows(a[..n], b[..n]);
      if i :| 0 <= i < n && !a[i] && b[i] { assert !a[..n][i] && b[..n][i]; }
    }
  }

  predicate AllValid(lim: Limits, width: nat, areas: seq<Area>) {
    forall i | 0 <= i < |areas| :: ValidArea(lim, width, areas[i])
  }

  function InArea(areas: seq<Area>, s: SubspaceId, p: Path, t: nat): (marks: seq<bool>)
    ensures |marks| == |areas|
  {
    seq(|areas|, i requires 0 <= i < |areas| => AreaIncludes(areas[i], s, p, t))
  }

  function InRange(lim: Limits, width: nat, areas: seq<Area>, s: SubspaceId, p: Path, t: nat): (marks: seq<bool>)
    requires AllValid(lim, width, areas)
    ensures |marks| == |areas|
  {
    seq(|areas|, i requires 0 <= i < |areas| => RangeIncludes(RangeFromArea(lim, width, areas[i]), s, p, t))
  }

  /** An area in force at a subspace and a time. */
  predicate Active(a: Area, s: SubspaceId, t: nat) {
    SubspaceIncludes(a.subspace, s) && TimesInclude(a.times, t)
  }

  lemma ActiveOnly(lim: Limits, width: nat, a: Area, s: SubspaceId, p: Path, t: nat)
    requires ValidArea(lim, width, a) && ValidSubspace(width, s)
    ensures RangeIncludes(RangeFromArea(lim, width, a), s, p, t) <==>
      Active(a, s, t) && PathsInclude(Range(a.path, SingletonEnd(SuccessorOf(lim, a.path))), p)
    ensures AreaIncludes(a, s, p, t) <==> Active(a, s, t) && a.path <= p
  {
    SubspaceRangeMeaning(lim, width, a, s);
  }

  /** Among active areas with room below their path, one with a path of the least length. */
  lemma Shortest(lim: Limits, areas: seq<Area>, s: SubspaceId, t: nat, i: nat) returns (j: nat)
    requires i < |areas| && Active(areas[i], s, t) && |areas[i].path| < lim.mcc
    ensures j < |areas| && Active(areas[j], s, t) && |areas[j].path| < lim.mcc
    ensures forall k | 0 <= k < |areas| && Active(areas[k], s, t) :: |areas[j].path| <= |areas[k].path|
    decreases |areas[i].path|
  {
    if k :| 0 <= k < |areas| && Active(areas[k], s, t) && |areas[k].path| < |areas[i].path| {
      j := Shortest(lim, areas, s, t, k);
    } else {
      j := i;
    }
  }

  /** An area is listed at its own path; strictly below, only by a range that does not stop at once. */
  lemma OwnPathListed(lim: Limits, width: nat, a: Area, s: SubspaceId, t: nat)
    requires ValidArea(lim, width, a) && ValidSubspace(width, s) && Active(a, s, t)
    ensures RangeIncludes(RangeFromArea(lim, width, a), s, a.path, t)
  {
    ActiveOnly(lim, width, a, s, a.path, t);
    SuccessorMeaning(lim, a.path);
  }

  /** Where there is room below its path, an area misses the path extended by an empty component. */
  lemma BelowNotListed(lim: Limits, width: nat, a: Area, s: SubspaceId, t: nat)
    requires ValidArea(lim, width, a) && ValidSubspace(width, s) && Active(a, s, t) && |a.path| < lim.mcc
    ensures ValidPath(lim, a.path + [[]]) && AreaIncludes(a, s, a.path + [[]], t)
    ensures !RangeIncludes(RangeFromArea(lim, width, a), s, a.path + [[]], t)
  {
    PathLengthConcat(a.path, [[]]);
    PathLessIrreflexive(a.path + [[]]);
    ActiveOnly(lim, width, a, s, a.path + [[]], t);
  }

  /** A range that wrongly includes the path extended by an empty component wrongly includes the path itself. */
  lemma WrongBelowWrongAbove(lim: Limits, width: nat, b: Area, s: SubspaceId, q: Path, t: nat)
    requires ValidArea(lim, width, b) && ValidSubspace(width, s) && ValidPath(lim, q + [[]])
    requires RangeIncludes(RangeFromArea(lim, width, b), s, q + [[]], t) && !AreaIncludes(b, s, q + [[]], t)
    ensures RangeIncludes(RangeFromArea(lim, width, b), s, q, t) && !AreaIncludes(b, s, q, t)
  {
    var below := q + [[]];
    ActiveOnly(lim, width, b, s, below, t);
    ActiveOnly(lim, width, b, s, q, t);
    EmptyComponentIsSuccessor(lim, q);
    PathLessTotal(b.path, q);
    if PathLess(q, b.path) { PathLessAsymmetric(below, b.path); }
    var next := SuccessorOf(lim, b.path);
    if next.Some? { PathLessTransitive(q, below, next.value); }
    assert b.path <= q ==> b.path <= below;
  }

  /** Wherever some of the areas have ranges that are not exact, there is a point that is in more of the
      areas than of the ranges, or the other way around: errors of several areas never cancel everywhere. */
  lemma TalliesDisagree(lim: Limits, width: nat, areas: seq<Area>, i: nat) returns (s: SubspaceId, p: Path, t: nat)
    requires AllValid(lim, width, areas) && i < |areas| && !AreaRangeExact(lim, areas[i])
    ensures ValidSubspace(width, s) && ValidPath(lim, p) && exists j :: 0 <= j < |areas| && t == areas[j].times.start
    ensures Tally(InArea(areas, s, p, t)) != Tally(InRange(lim, width, areas, s, p, t))
  {
    if j :| 0 <= j < |areas| && !TimesEmpty(areas[j].times) && |areas[j].path| < lim.mcc {
      s := match areas[j].subspace case Any => Zeros(width) case Id(id) => id;
      t := areas[j].times.start;
      p := ShortDisagrees(lim, width, areas, s, t, j);
    } else {
      s, p := RangeDisagrees(lim, width, areas[i]);
      t := areas[i].times.start;
      OnlyFullPaths(lim, width, areas, s, p, t, i);
    }
  }

  lemma ShortDisagrees(lim: Limits, width: nat, areas: seq<Area>, s: SubspaceId, t: nat, i: nat) returns (p: Path)
    requires AllValid(lim, width, areas) && ValidSubspace(width, s)
    requires i < |areas| && Active(areas[i], s, t) && |areas[i].path| < lim.mcc
    ensures ValidPath(lim, p) && Tally(InArea(areas, s, p, t)) != Tally(InRange(lim, width, areas, s, p, t))
  {
    var j := Shortest(lim, areas, s, t, i);
    var q := areas[j].path;
    BelowNotListed(lim, width, areas[j], s, t);
    if k :| 0 <= k < |areas| && RangeIncludes(RangeFromArea(lim, width, areas[k]), s, q, t) && !AreaIncludes(areas[k], s, q, t) {
      p := q;
      forall l | 0 <= l < |areas| && AreaIncludes(areas[l], s, q, t) ensures RangeIncludes(RangeFromArea(lim, width, areas[l]), s, q, t) {
        assert areas[l].path == q;
        OwnPathListed(lim, width, areas[l], s, t);
      }
      assert !InArea(areas, s, p, t)[k] && InRange(lim, width, areas, s, p, t)[k];
      TallyGrows(InArea(areas, s, p, t), InRange(lim, width, areas, s, p, t));
    } else {
      p := q + [[]];
      forall l | 0 <= l < |areas| && RangeIncludes(RangeFromArea(lim, width, areas[l]), s, p, t) ensures AreaIncludes(areas[l], s, p, t) {
        if !AreaIncludes(areas[l], s, p, t) { WrongBelowWrongAbove(lim, width, areas[l], s, q, t); }
      }
      assert InArea(areas, s, p, t)[j] && !InRange(lim, width, areas, s, p, t)[j];
      TallyGrows(InRange(lim, width, areas, s, p, t), InArea(areas, s, p, t));
    }
  }

  /** If nothing fits below any path, areas are listed wherever they include, and too much is listed at most. */
  lemma OnlyFullPaths(lim: Limits, width: nat, areas: seq<Area>, s: SubspaceId, p: Path, t: nat, i: nat)
    requires AllValid(lim, width, areas) && ValidSubspace(width, s) && ValidPath(lim, p)
    requires forall j | 0 <= j < |areas| && !TimesEmpty(areas[j].times) :: |areas[j].path| == lim.mcc
    requires i < |areas| && RangeIncludes(RangeFromArea(lim, width, areas[i]), s, p, t) != AreaIncludes(areas[i], s, p, t)
    ensures Tally(InArea(areas, s, p, t)) < Tally(InRange(lim, width, areas, s, p, t))
  {
    var marks, marks' := InArea(areas, s, p, t), InRange(lim, width, areas, s, p, t);
    forall l | 0 <= l < |areas| && marks[l] ensures marks'[l] {
      assert areas[l].path == p;
      OwnPathListed(lim, width, areas[l], s, t);
    }
    assert !marks[i] && marks'[i];
    TallyGrows(marks, marks');
  }
}
