/** Ranges, areas and three-dimensional ranges, and the conversion of an area into a range. */
module Grouping {
  import opened Wrappers
  import opened ByteStrings
  import opened Paths

  // ---------------------------------------------------------------- subspace ids

  /** Subspace ids: byte strings of one fixed width, compared and encoded as they are. */
  type SubspaceId = seq<byte>

  predicate ValidSubspace(width: nat, s: SubspaceId) {
    |s| == width
  }

  lemma {:induction false} ZerosAreLeast(z: seq<byte>, x: seq<byte>)
    requires |z| == |x| && forall i | 0 <= i < |z| :: z[i] == 0
    ensures BytesLeq(z, x)
  {
    if z != [] {
      ZerosAreLeast(z[1..], x[1..]);
      assert z == [z[0]] + z[1..] && x == [x[0]] + x[1..];
    }
  }

  /** Adding one to a fixed-width id gives the least greater id, as the subspace trait demands. */
  lemma SubspaceSuccessorMeaning(s: SubspaceId, x: SubspaceId)
    requires |s| == |x|
    ensures var r := FixedWidthIncrement(s);
      && (r.Some? ==> |r.value| == |s| && BytesLess(s, r.value))
      && (BytesLess(s, x) <==> r.Some? && BytesLeq(r.value, x))
  {
    var r := FixedWidthIncrement(s);
    if r.Some? {
      var d := r.value;
      var k: nat :| IncrementedAt(s, d, k);
      assert d[..k] == d[..k + 1][..k] == s[..k] && d[k] == d[..k + 1][k] == s[k] + 1;
      LessFork(s, d, k);
      if BytesLeq(d, x) {
        if d != x { LessTransitive(s, d, x); }
      }
    }
    if BytesLess(s, x) {
      var j := LessCases(s, x);
      if s <= x {
        assert s == x;
        LessIrreflexive(s);
      }
      if r.Some? { IncrementIsLeast(s, r.value, x, j); }
    }
  }

  lemma IncrementIsLeast(s: SubspaceId, d: SubspaceId, x: SubspaceId, j: nat)
    requires |s| == |d| == |x| && BytesForkBelow(s, x, j)
    requires exists k: nat :: IncrementedAt(s, d, k)
    ensures BytesLeq(d, x)
  {
    var k: nat :| IncrementedAt(s, d, k);
    assert j <= k;
    assert d[..k] == d[..k + 1][..k] == s[..k] && d[k] == d[..k + 1][k] == s[k] + 1;
    assert d[..j] == s[..j];
    if j < k || d[k] < x[k] {
      LessFork(d, x, j);
    } else {
      assert x[..k + 1] == s[..k] + [x[k]] == d[..k + 1];
      ZerosAreLeast(d[k + 1..], x[k + 1..]);
      assert d == d[..k + 1] + d[k + 1..] && x == d[..k + 1] + x[k + 1..];
      LessCommonPrefix(d[..k + 1], d[k + 1..], x[k + 1..]);
    }
  }

  /** Every byte of `t` is the wrapping successor of its counterpart in `s`. */
  predicate EveryByteBumped(s: SubspaceId, t: SubspaceId) {
    |t| == |s| && forall i | 0 <= i < |s| :: t[i] == if s[i] == 255 then 0 else s[i] + 1
  }

  /** The successor loop of the 32-byte ids of Willow'25. It has no early exit: every byte changes. */
  method Successor25(s: SubspaceId) returns (r: Option<SubspaceId>)
    ensures r.None? <==> AllMax(s)
    ensures r.Some? ==> EveryByteBumped(s, r.value)
  {
    if AllMax(s) { return None; }
    var bytes := s;
    var i := |s|;
    while i > 0
      invariant 0 <= i <= |s| == |bytes|
      invariant forall j | 0 <= j < i :: bytes[j] == s[j]
      invariant forall j | i <= j < |s| :: bytes[j] == if s[j] == 255 then 0 else s[j] + 1
    {
      i := i - 1;
      bytes := bytes[i := if bytes[i] == 255 then 0 else bytes[i] + 1];
    }
    return Some(bytes);
  }

  /** What that loop computes is the least greater id exactly when only the first byte was below 255. */
  lemma Successor25Exact(s: SubspaceId, t: SubspaceId)
    requires !AllMax(s) && EveryByteBumped(s, t)
    ensures Some(t) == FixedWidthIncrement(s) <==> AllMax(s[1..])
  {
    var d := FixedWidthIncrement(s).value;
    var k: nat :| IncrementedAt(s, d, k);
    if AllMax(s[1..]) {
      forall j | 0 < j < |s| ensures s[j] == 255 { assert s[1..][j - 1] == 255; }
      assert IncrementedAt(s, t, 0);
      IncrementUnique(s, d, k, t, 0);
    } else {
      var i :| 0 <= i < |s[1..]| && s[1..][i] != 255;
      assert s[i + 1] != 255 && k >= i + 1;
      assert d[0] == d[..k + 1][0] == s[0];
      assert t[0] != s[0];
    }
  }

  // ---------------------------------------------------------------- ranges

  datatype RangeEnd<+T> = Closed(end: T) | Open

  /** Start values are included, end values are not. */
  datatype Range<+T> = Range(start: T, end: RangeEnd<T>)

  predicate TimesInclude(r: Range<nat>, t: nat) {
    r.start <= t && (r.end.Closed? ==> t < r.end.end)
  }

  /** Times are unsigned 64-bit integers. */
  predicate ValidTimes(times: Range<nat>) {
    times.start < U64_LIMIT && (times.end.Closed? ==> times.end.end < U64_LIMIT)
  }

  predicate PathsInclude(r: Range<Path>, p: Path) {
    PathLeq(r.start, p) && (r.end.Closed? ==> PathLess(p, r.end.end))
  }

  predicate SubspacesInclude(r: Range<SubspaceId>, s: SubspaceId) {
    BytesLeq(r.start, s) && (r.end.Closed? ==> BytesLess(s, r.end.end))
  }

  /** Inclusion of whole time ranges, by comparing starts and ends. */
  predicate TimesIncludeRange(r: Range<nat>, other: Range<nat>) {
    r.start <= other.start
    && match r.end
       case Open => true
       case Closed(e) => other.end.Closed? && other.end.end <= e
  }

  // ---------------------------------------------------------------- areas

  datatype AreaSubspace = Any | Id(id: SubspaceId)

  datatype Area = Area(subspace: AreaSubspace, path: Path, times: Range<nat>)

  const FULL_AREA: Area := Area(Any, [], Range(0, Open))

  function SubspaceArea(s: SubspaceId): Area {
    Area(Id(s), [], Range(0, Open))
  }

  predicate SubspaceIncludes(a: AreaSubspace, s: SubspaceId) {
    a.Any? || a.id == s
  }

  predicate AreaIncludes(a: Area, s: SubspaceId, p: Path, t: nat) {
    SubspaceIncludes(a.subspace, s) && a.path <= p && TimesInclude(a.times, t)
  }

  predicate AreaIncludesArea(a: Area, b: Area) {
    && (a.subspace.Any? || a.subspace == b.subspace)
    && a.path <= b.path
    && TimesIncludeRange(a.times, b.times)
  }

  /** For an area with any time at all, inclusion means that every entry of it is an entry of the other. */
  lemma AreaIncludesAreaIff(width: nat, a: Area, b: Area)
    requires width > 0 && !TimesEmpty(b.times)
    requires (a.subspace.Id? ==> |a.subspace.id| == width) && (b.subspace.Id? ==> |b.subspace.id| == width)
    ensures AreaIncludesArea(a, b) <==>
      forall s, p, t: nat | |s| == width && AreaIncludes(b, s, p, t) :: AreaIncludes(a, s, p, t)
  {
    if !AreaIncludesArea(a, b) {
      var s, t := MemberOutside(width, a, b);
      assert AreaIncludes(b, s, b.path, t) && !AreaIncludes(a, s, b.path, t);
    } else {
      forall s, p, t: nat | |s| == width && AreaIncludes(b, s, p, t) ensures AreaIncludes(a, s, p, t) {
        assert a.path <= b.path <= p;
      }
    }
  }

  lemma MemberOutside(width: nat, a: Area, b: Area) returns (s: SubspaceId, t: nat)
    requires width > 0 && !TimesEmpty(b.times) && !AreaIncludesArea(a, b)
    requires (a.subspace.Id? ==> |a.subspace.id| == width) && (b.subspace.Id? ==> |b.subspace.id| == width)
    ensures |s| == width && AreaIncludes(b, s, b.path, t) && !AreaIncludes(a, s, b.path, t)
  {
    s := if b.subspace.Id? then b.subspace.id else if a.subspace.Any? then Zeros(width)
      else a.subspace.id[0 := if a.subspace.id[0] == 0 then 1 else 0];
    t := if a.times.end.Closed? && a.times.end.end > b.times.start then a.times.end.end else b.times.start;
    if a.times.start > b.times.start { t := b.times.start; }
    assert b.subspace.Any? && a.subspace.Id? ==> s[0] != a.subspace.id[0];
    if (a.subspace.Any? || a.subspace == b.subspace) && a.path <= b.path {
      assert !TimesIncludeRange(a.times, b.times);
    } else {
      t := b.times.start;
    }
  }

  /** Inclusion up to the subspace: an `Any` on either side is accepted. */
  predicate AlmostIncludesArea(a: Area, b: Area) {
    && (a.subspace.Id? && b.subspace.Id? ==> a.subspace == b.subspace)
    && a.path <= b.path
    && TimesIncludeRange(a.times, b.times)
  }

  predicate ValidArea(lim: Limits, width: nat, a: Area) {
    && (a.subspace.Id? ==> ValidSubspace(width, a.subspace.id))
    && ValidPath(lim, a.path)
  }

  // ---------------------------------------------------------------- three-dimensional ranges

  datatype Range3d = Range3d(subspaces: Range<SubspaceId>, paths: Range<Path>, times: Range<nat>)

  predicate RangeIncludes(r: Range3d, s: SubspaceId, p: Path, t: nat) {
    SubspacesInclude(r.subspaces, s) && PathsInclude(r.paths, p) && TimesInclude(r.times, t)
  }

  function Zeros(n: nat): (z: seq<byte>)
    ensures |z| == n && forall i | 0 <= i < n :: z[i] == 0
  {
    seq(n, i => 0)
  }

  function SingletonEnd<T>(successor: Option<T>): RangeEnd<T> {
    match successor
    case Some(s) => Closed(s)
    case None => Open
  }

  /** The range that stands for an area in queries and subscriptions. */
  function RangeFromArea(lim: Limits, width: nat, a: Area): (r: Range3d)
    requires ValidArea(lim, width, a)
  {
    var subspaces := match a.subspace
      case Any => Range(Zeros(width), Open)
      case Id(id) => Range(id, SingletonEnd(FixedWidthIncrement(id)));
    Range3d(subspaces, Range(a.path, SingletonEnd(SuccessorOf(lim, a.path))), a.times)
  }

  predicate TimesEmpty(r: Range<nat>) {
    r.end.Closed? && r.end.end <= r.start
  }

  /** The areas for which that range is right: those with nothing below their path, if the path
      successor does not overshoot, and those without any time. */
  predicate AreaRangeExact(lim: Limits, a: Area) {
    TimesEmpty(a.times) || (|a.path| == lim.mcc && !SuccessorCarries(lim, a.path))
  }

  lemma SubspaceRangeMeaning(lim: Limits, width: nat, a: Area, s: SubspaceId)
    requires ValidArea(lim, width, a) && ValidSubspace(width, s)
    ensures SubspacesInclude(RangeFromArea(lim, width, a).subspaces, s) <==> SubspaceIncludes(a.subspace, s)
  {
    match a.subspace
    case Any => ZerosAreLeast(Zeros(width), s);
    case Id(id) =>
      SubspaceSuccessorMeaning(id, s);
      LessTotal(id, s);
      var next := FixedWidthIncrement(id);
      if next.Some? {
        LessTotal(next.value, s);
        if BytesLess(next.value, s) { LessAsymmetric(next.value, s); }
        if BytesLess(s, next.value) { LessAsymmetric(s, next.value); }
        if BytesLess(s, id) { LessAsymmetric(s, id); }
      }
      if BytesLess(s, id) { LessAsymmetric(s, id); }
  }

  /** The range covers precisely the entries of the area if and only if the area is one of those. */
  lemma RangeFromAreaExactIff(lim: Limits, width: nat, a: Area)
    requires ValidArea(lim, width, a)
    ensures (forall s, p, t: nat | ValidSubspace(width, s) && ValidPath(lim, p) ::
              RangeIncludes(RangeFromArea(lim, width, a), s, p, t) <==> AreaIncludes(a, s, p, t))
      <==> AreaRangeExact(lim, a)
  {
    var r := RangeFromArea(lim, width, a);
    SuccessorMeaning(lim, a.path);
    if AreaRangeExact(lim, a) {
      forall s, p, t: nat | ValidSubspace(width, s) && ValidPath(lim, p)
        ensures RangeIncludes(r, s, p, t) <==> AreaIncludes(a, s, p, t)
      {
        SubspaceRangeMeaning(lim, width, a, s);
        if !TimesEmpty(a.times) { FullPathRange(lim, a.path, p); }
      }
    } else {
      var s, p := RangeDisagrees(lim, width, a);
      assert RangeIncludes(r, s, p, a.times.start) != AreaIncludes(a, s, p, a.times.start);
    }
  }

  // ---------------------------------------------------------------- ranges of areas for 32-byte ids

  /** What the loop of the 32-byte ids computes. */
  function Bumped(s: SubspaceId): (t: SubspaceId)
    ensures EveryByteBumped(s, t)
  {
    seq(|s|, i requires 0 <= i < |s| => if s[i] == 255 then 0 else s[i] + 1)
  }

  function Range25FromArea(lim: Limits, width: nat, a: Area): Range3d
    requires ValidArea(lim, width, a)
  {
    var r := RangeFromArea(lim, width, a);
    if a.subspace.Any? then r
    else r.(subspaces := Range(a.subspace.id, if AllMax(a.subspace.id) then Open else Closed(Bumped(a.subspace.id))))
  }

  predicate RestMax(s: SubspaceId) {
    forall i | 0 < i < |s| :: s[i] == 255
  }

  /** A subspace where the bumped end of the range is wrong. */
  lemma BumpedDisagrees(id: SubspaceId) returns (s: SubspaceId)
    requires !RestMax(id)
    ensures |s| == |id| && !(SubspacesInclude(Range(id, Closed(Bumped(id))), s) <==> s == id)
  {
    var t, least := Bumped(id), FixedWidthIncrement(id).value;
    var i :| 0 < i < |id| && id[i] != 255;
    assert id[1..][i - 1] != 255;
    Successor25Exact(id, t);
    SubspaceSuccessorMeaning(id, t);
    SubspaceSuccessorMeaning(id, least);
    if BytesLess(id, t) {
      LessTotal(least, t);
      s := least;
    } else {
      s := id;
    }
  }

  /** With the successor of the 32-byte ids, an area of one subspace needs in addition an id whose
      bytes but the first are all 255. */
  lemma Range25ExactIff(lim: Limits, width: nat, a: Area)
    requires ValidArea(lim, width, a)
    ensures (forall s, p, t: nat | ValidSubspace(width, s) && ValidPath(lim, p) ::
              RangeIncludes(Range25FromArea(lim, width, a), s, p, t) <==> AreaIncludes(a, s, p, t))
      <==> TimesEmpty(a.times) || (AreaRangeExact(lim, a) && (a.subspace.Id? ==> RestMax(a.subspace.id)))
  {
    var r := Range25FromArea(lim, width, a);
    if a.subspace.Any? || RestMax(a.subspace.id) {
      if a.subspace.Id? && !AllMax(a.subspace.id) { Successor25Exact(a.subspace.id, Bumped(a.subspace.id)); }
      assert r == RangeFromArea(lim, width, a);
      RangeFromAreaExactIff(lim, width, a);
    } else if !TimesEmpty(a.times) {
      var s := BumpedDisagrees(a.subspace.id);
      SuccessorMeaning(lim, a.path);
      assert RangeIncludes(r, s, a.path, a.times.start) != AreaIncludes(a, s, a.path, a.times.start);
    }
  }

  /** A path that uses up the component count and does not carry has a singleton range. */
  lemma FullPathRange(lim: Limits, path: Path, p: Path)
    requires ValidPath(lim, path) && ValidPath(lim, p)
    requires |path| == lim.mcc && !SuccessorCarries(lim, path)
    ensures PathsInclude(Range(path, SingletonEnd(SuccessorOf(lim, path))), p) <==> path <= p
  {
    SuccessorMeaning(lim, path);
    var r := SuccessorOf(lim, path);
    if path <= p {
      assert path == p;
    } else if PathLeq(path, p) {
      if r.None? {
        PathLessAsymmetric(path, p);
      } else if PathLess(p, r.value) {
        PathLessAsymmetric(p, r.value);
      }
    }
  }

  /** A place where range and area disagree, for every other area. */
  lemma RangeDisagrees(lim: Limits, width: nat, a: Area) returns (s: SubspaceId, p: Path)
    requires ValidArea(lim, width, a) && !AreaRangeExact(lim, a)
    ensures ValidSubspace(width, s) && ValidPath(lim, p)
    ensures var r := RangeFromArea(lim, width, a);
      RangeIncludes(r, s, p, a.times.start) != AreaIncludes(a, s, p, a.times.start)
  {
    s := match a.subspace case Any => Zeros(width) case Id(id) => id;
    SubspaceRangeMeaning(lim, width, a, s);
    SuccessorMeaning(lim, a.path);
    if |a.path| < lim.mcc {
      p := a.path + [[]];
      PathLengthConcat(a.path, [[]]);
      PathLessIrreflexive(p);
    } else {
      var next := SuccessorOf(lim, a.path).value;
      var q :| ValidPath(lim, q) && PathLess(a.path, q) && !PathLeq(next, q);
      p := q;
      PathLessTotal(next, q);
      PathLessAsymmetric(a.path, q);
    }
  }

  // ---------------------------------------------------------------- pruning into a range

  /** Whether an entry might prune something inside a range. */
  predicate CouldPruneIn(r: Range3d, s: SubspaceId, p: Path, t: nat) {
    && SubspacesInclude(r.subspaces, s)
    && r.times.start <= t
    && (PathsInclude(r.paths, p) || p <= r.paths.start || r.paths.start <= p)
  }

  /** The test never misses: an entry that reaches into the range from above passes it. */
  lemma CouldPruneSound(r: Range3d, s: SubspaceId, p: Path, t: nat, q: Path, u: nat)
    requires RangeIncludes(r, s, q, u) && p <= q && u <= t
    ensures CouldPruneIn(r, s, p, t)
  {
    if p != q { PathLessPrefix(p, q); }
    PathLessTotal(r.paths.start, p);
    if PathLeq(r.paths.start, p) {
      if r.paths.end.Closed? && p != q { PathLessTransitive(p, q, r.paths.end.end); }
    } else {
      BetweenPrefixAndExtension(p, r.paths.start, q);
    }
  }

  /** For a range that holds its first path at its first time, the test passes exactly if the entry could
      prune something inside, or the path begins with the first one and lies behind the end. */
  lemma CouldPruneIff(r: Range3d, s: SubspaceId, p: Path, t: nat)
    requires PathsInclude(r.paths, r.paths.start) && TimesInclude(r.times, r.times.start)
    ensures CouldPruneIn(r, s, p, t) <==>
      || (exists q, u: nat :: RangeIncludes(r, s, q, u) && p <= q && u <= t)
      || (SubspacesInclude(r.subspaces, s) && r.times.start <= t && r.paths.start <= p && !PathsInclude(r.paths, p))
  {
    if CouldPruneIn(r, s, p, t) {
      var q := if PathsInclude(r.paths, p) then p else r.paths.start;
      assert p <= q ==> RangeIncludes(r, s, q, r.times.start);
    }
    if q, u: nat :| RangeIncludes(r, s, q, u) && p <= q && u <= t { CouldPruneSound(r, s, p, t, q, u); }
  }

  /** The test does let entries pass that cannot prune anything inside. */
  lemma CouldPruneFalseAlarm(s: SubspaceId, t: nat)
    ensures var r := Range3d(Range(s, Open), Range([[1]], Closed([[1], [1]])), Range(t, Open));
      && CouldPruneIn(r, s, [[1], [2]], t)
      && forall q, u: nat | [[1], [2]] <= q :: !RangeIncludes(r, s, q, u)
  {
    var end, p: Path := [[1], [1]], [[1], [2]];
    var r := Range3d(Range(s, Open), Range([[1]], Closed(end)), Range(t, Open));
    forall q, u: nat | p <= q ensures !RangeIncludes(r, s, q, u) {
      assert q[..1] == p[..1] && q[0] == end[0] && q[1] == [2];
      LessFork([1], [2], 0);
      PathLessFork(end, q, 1);
      PathLessAsymmetric(end, q);
    }
  }
}
