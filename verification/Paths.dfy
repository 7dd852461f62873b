/** Willow paths: validity, order, prefixes, and the two successor functions.
    Both the simple path type of the fuzzing crate and the byte-buffer path type of the
    data model compute these. */
module Paths {
  import opened Wrappers
  import opened ByteStrings

  type Component = seq<byte>
  type Path = seq<Component>

  /** The three limits that parametrise every path type. */
  datatype Limits = Limits(mcl: nat, mcc: nat, mpl: nat)

  function PathLength(p: Path): nat {
    if p == [] then 0 else |p[0]| + PathLength(p[1..])
  }

  predicate ValidPath(lim: Limits, p: Path) {
    && |p| <= lim.mcc
    && PathLength(p) <= lim.mpl
    && forall i | 0 <= i < |p| :: |p[i]| <= lim.mcl
  }

  /** Componentwise lexicographic order. */
  predicate PathLess(p: Path, q: Path) {
    if q == [] then false
    else if p == [] then true
    else if p[0] == q[0] then PathLess(p[1..], q[1..])
    else BytesLess(p[0], q[0])
  }

  predicate PathLeq(p: Path, q: Path) {
    p == q || PathLess(p, q)
  }

  /** `p` and `q` agree before component `i`, where `p` has the smaller component. */
  predicate ForkBelow(p: Path, q: Path, i: nat) {
    i < |p| && i < |q| && p[..i] == q[..i] && BytesLess(p[i], q[i])
  }

  predicate Related(p: Path, q: Path) {
    p <= q || q <= p
  }

  // ---------------------------------------------------------------- order

  lemma {:induction false} PathLessIrreflexive(p: Path)
    ensures !PathLess(p, p)
  {
    if p != [] { PathLessIrreflexive(p[1..]); }
  }

  lemma {:induction false} PathLessTransitive(p: Path, q: Path, r: Path)
    requires PathLess(p, q) && PathLess(q, r)
    ensures PathLess(p, r)
  {
    if p != [] {
      if p[0] == q[0] == r[0] {
        PathLessTransitive(p[1..], q[1..], r[1..]);
      } else if p[0] != q[0] && q[0] != r[0] {
        LessTransitive(p[0], q[0], r[0]);
        LessIrreflexive(p[0]);
      }
    }
  }

  lemma {:induction false} PathLessTotal(p: Path, q: Path)
    ensures PathLess(p, q) || p == q || PathLess(q, p)
  {
    if p != [] && q != [] {
      if p[0] == q[0] {
        PathLessTotal(p[1..], q[1..]);
        assert p == [p[0]] + p[1..] && q == [q[0]] + q[1..];
      } else {
        LessTotal(p[0], q[0]);
      }
    }
  }

  lemma PathLessAsymmetric(p: Path, q: Path)
    requires PathLess(p, q)
    ensures !PathLess(q, p) && p != q
  {
    PathLessIrreflexive(p);
    if PathLess(q, p) { PathLessTransitive(p, q, p); }
  }

  lemma {:induction false} PathLessCommonPrefix(c: Path, p: Path, q: Path)
    ensures PathLess(c + p, c + q) == PathLess(p, q)
  {
    if c == [] {
      assert c + p == p && c + q == q;
    } else {
      assert (c + p)[1..] == c[1..] + p && (c + q)[1..] == c[1..] + q;
      PathLessCommonPrefix(c[1..], p, q);
    }
  }

  lemma PathLessPrefix(p: Path, q: Path)
    requires p <= q && p != q
    ensures PathLess(p, q)
  {
    assert q == p + q[|p|..] && p == p + [];
    PathLessCommonPrefix(p, [], q[|p|..]);
  }

  lemma PathLessFork(p: Path, q: Path, i: nat)
    requires ForkBelow(p, q, i)
    ensures PathLess(p, q) && !(p <= q) && !(q <= p)
  {
    LessAsymmetric(p[i], q[i]);
    assert p == p[..i] + p[i..] && q == p[..i] + q[i..];
    PathLessCommonPrefix(p[..i], p[i..], q[i..]);
  }

  /** A smaller path is a proper prefix or forks off below. */
  lemma {:induction false} PathLessCases(p: Path, q: Path) returns (i: nat)
    requires PathLess(p, q)
    ensures p <= q || ForkBelow(p, q, i)
  {
    i := 0;
    if p != [] && p[0] == q[0] {
      var j := PathLessCases(p[1..], q[1..]);
      if p[1..] <= q[1..] {
        assert p == [p[0]] + p[1..] && q == [p[0]] + q[1..];
      } else {
        i := j + 1;
        assert p[..i] == [p[0]] + p[1..][..j] && q[..i] == [q[0]] + q[1..][..j];
      }
    }
  }

  /** Of two paths forking off above `p`, the one forking off later is smaller. */
  lemma LaterForkIsSmaller(p: Path, q: Path, i: nat, r: Path, j: nat)
    requires ForkBelow(p, q, i) && ForkBelow(p, r, j) && j < i
    ensures PathLess(q, r)
  {
    assert q[..j] == q[..i][..j] == p[..i][..j] == p[..j] && q[j] == q[..i][j] == p[..i][j] == p[j];
    PathLessFork(q, r, j);
  }

  // ---------------------------------------------------------------- lengths

  lemma {:induction false} PathLengthConcat(p: Path, q: Path)
    ensures PathLength(p + q) == PathLength(p) + PathLength(q)
  {
    if p == [] {
      assert p + q == q;
    } else {
      assert (p + q)[1..] == p[1..] + q;
      PathLengthConcat(p[1..], q);
    }
  }

  /** The length of a path, read off its first `i` components, the next one, and the rest. */
  lemma PathLengthSplit(p: Path, i: nat)
    requires i < |p|
    ensures PathLength(p) == PathLength(p[..i]) + |p[i]| + PathLength(p[i + 1..])
    ensures PathLength(p[..i + 1]) == PathLength(p[..i]) + |p[i]|
  {
    assert p[..i + 1] == p[..i] + [p[i]] && p == p[..i + 1] + p[i + 1..];
    PathLengthConcat(p[..i], [p[i]]);
    PathLengthConcat(p[..i + 1], p[i + 1..]);
    assert PathLength([p[i]]) == |p[i]|;
  }

  lemma PrefixValid(lim: Limits, p: Path, i: nat)
    requires ValidPath(lim, p) && i <= |p|
    ensures ValidPath(lim, p[..i])
  {
    assert p == p[..i] + p[i..];
    PathLengthConcat(p[..i], p[i..]);
  }

  /** Whether `append` accepts a component, which it does within the count and length limits. */
  predicate Appendable(lim: Limits, p: Path, c: Component) {
    |p| + 1 <= lim.mcc && PathLength(p) + |c| <= lim.mpl
  }

  function Append(lim: Limits, p: Path, c: Component): (r: Option<Path>)
    requires ValidPath(lim, p) && |c| <= lim.mcl
    ensures r.Some? <==> ValidPath(lim, p + [c])
    ensures r.Some? ==> r.value == p + [c]
  {
    PathLengthConcat(p, [c]);
    assert PathLength([c]) == |c|;
    assert ValidPath(lim, p + [c]) ==> |p + [c]| <= lim.mcc;
    if Appendable(lim, p, c) then Some(p + [c]) else None
  }

  // ---------------------------------------------------------------- greater_but_not_prefixed

  /** Above `p`, but not an extension of it. */
  predicate Beyond(p: Path, q: Path) {
    PathLess(p, q) && !(p <= q)
  }

  lemma BeyondIsFork(p: Path, q: Path) returns (i: nat)
    requires Beyond(p, q)
    ensures ForkBelow(p, q, i)
  {
    i := PathLessCases(p, q);
  }

  /** The least component above `c` that `c` does not prefix: drop trailing 255 bytes, then add one. */
  method ComponentGreaterButNotPrefixed(c: Component) returns (r: Option<Component>)
    ensures r.Some? ==> |r.value| <= |c| && BytesLess(c, r.value) && !(c <= r.value)
    ensures r.Some? ==> forall d | BytesLess(c, d) && !(c <= d) :: BytesLeq(r.value, d)
    ensures r.None? ==> forall d | BytesLess(c, d) :: c <= d
  {
    var i := |c|;
    while i > 0
      invariant 0 <= i <= |c|
      invariant forall j | i <= j < |c| :: c[j] == 255
    {
      i := i - 1;
      if c[i] != 255 {
        var d := c[..i] + [c[i] + 1];
        LessFork(c, d, i);
        forall e | BytesLess(c, e) && !(c <= e) ensures BytesLeq(d, e) {
          LeastComponent(c, i, e);
        }
        return Some(d);
      }
    }
    forall d | BytesLess(c, d) ensures c <= d {
      var j := LessCases(c, d);
    }
    return None;
  }

  lemma LeastComponent(c: Component, i: nat, e: Component)
    requires i < |c| && c[i] < 255 && forall j | i < j < |c| :: c[j] == 255
    requires BytesLess(c, e) && !(c <= e)
    ensures BytesLeq(c[..i] + [c[i] + 1], e)
  {
    var d := c[..i] + [c[i] + 1];
    var j := LessCases(c, e);
    assert j <= i;
    if j < i {
      assert d[..j] == c[..j];
      LessFork(d, e, j);
    } else if e[i] > d[i] {
      assert d[..i] == c[..i];
      LessFork(d, e, i);
    } else {
      assert e == c[..i] + [c[i] + 1] + e[i + 1..];
      if d != e { LessPrefix(d, e); }
    }
  }

  /** A valid path forking off at component `i` gets there with a component within all limits. */
  lemma ForkRoom(lim: Limits, p: Path, q: Path, i: nat)
    requires ValidPath(lim, q) && ForkBelow(p, q, i)
    ensures |q[i]| <= lim.mcl && Appendable(lim, p[..i], q[i])
  {
    PathLengthSplit(q, i);
  }

  predicate ZeroByteFits(lim: Limits, p: Path, i: nat)
    requires i < |p|
  {
    |p[i]| < lim.mcl && Appendable(lim, p[..i], p[i] + [0])
  }

  /** If not even a zero byte fits behind component `i`, no valid fork there extends that component. */
  lemma NoRoomToExtend(lim: Limits, p: Path, i: nat)
    requires ValidPath(lim, p) && i < |p| && !ZeroByteFits(lim, p, i)
    ensures forall q | ValidPath(lim, q) && ForkBelow(p, q, i) :: !(p[i] <= q[i])
  {
    forall q | ValidPath(lim, q) && ForkBelow(p, q, i) ensures !(p[i] <= q[i]) {
      ForkRoom(lim, p, q, i);
      LessAsymmetric(p[i], q[i]);
    }
  }

  /** If a zero byte can be appended to component `i`, that gives the least path forking off there. */
  lemma ZeroByteIsLeastFork(p: Path, q: Path, i: nat, j: nat)
    requires i < |p| && ForkBelow(p, q, j) && j <= i
    ensures PathLeq(p[..i] + [p[i] + [0]], q)
  {
    var r := p[..i] + [p[i] + [0]];
    LessPrefix(p[i], p[i] + [0]);
    assert r[..i] == p[..i];
    if j < i {
      LaterForkIsSmaller(p, r, i, q, j);
    } else {
      ZeroByteIsLeastComponent(p[i], q[i]);
      ForkOrPrefix(r, q, i);
    }
  }

  lemma ZeroByteIsLeastComponent(c: Component, d: Component)
    requires BytesLess(c, d)
    ensures BytesLeq(c + [0], d)
  {
    var k := LessCases(c, d);
    var e := c + [0];
    if c <= d {
      if d == c { LessIrreflexive(c); }
      assert d == c + d[|c|..] && e == c + [0];
      if d[|c|] == 0 {
        assert e <= d;
        if e != d { LessPrefix(e, d); }
      } else {
        LessCommonPrefix(c, [0], d[|c|..]);
      }
    } else {
      assert e[..k] == c[..k] && e[k] == c[k];
      LessFork(e, d, k);
    }
  }

  /** `r` ends at component `i`; `q` agrees before it and is no smaller there. */
  lemma ForkOrPrefix(r: Path, q: Path, i: nat)
    requires |r| == i + 1 && i < |q| && r[..i] == q[..i] && BytesLeq(r[i], q[i])
    ensures PathLeq(r, q)
  {
    if r[i] == q[i] {
      assert r == r[..i] + [r[i]] && q == q[..i] + [q[i]] + q[i + 1..];
      if r != q { PathLessPrefix(r, q); }
    } else {
      PathLessFork(r, q, i);
    }
  }

  /** Replacing component `i` by its least non-extending successor gives the least fork
      when no extension of that component fits. */
  lemma ReplacedComponentIsLeastFork(p: Path, i: nat, d: Component, q: Path, j: nat)
    requires i < |p| && ForkBelow(p, q, j) && j <= i
    requires BytesLess(p[i], d)
    requires j == i ==> BytesLeq(d, q[i])
    ensures PathLeq(p[..i] + [d], q)
  {
    var r := p[..i] + [d];
    assert r[..i] == p[..i];
    if j < i {
      LaterForkIsSmaller(p, r, i, q, j);
    } else {
      ForkOrPrefix(r, q, i);
    }
  }

  /** The least valid path above `p` which `p` does not prefix, or `None` if there is none. */
  method GreaterButNotPrefixed(lim: Limits, p: Path) returns (r: Option<Path>)
    requires ValidPath(lim, p)
    ensures r.Some? ==> ValidPath(lim, r.value) && Beyond(p, r.value)
    ensures r.Some? ==> forall q | ValidPath(lim, q) && Beyond(p, q) :: PathLeq(r.value, q)
    ensures r.None? ==> forall q | ValidPath(lim, q) :: !Beyond(p, q)
  {
    var i := |p|;
    while i > 0
      invariant 0 <= i <= |p|
      invariant forall q, j: nat | ValidPath(lim, q) && ForkBelow(p, q, j) :: j < i
    {
      i := i - 1;
      var prefix := p[..i];
      PrefixValid(lim, p, i);
      PathLengthSplit(p, i);
      if |p[i]| < lim.mcl {
        var appended := Append(lim, prefix, p[i] + [0]);
        if appended.Some? {
          LessPrefix(p[i], p[i] + [0]);
          PathLessFork(p, appended.value, i);
          forall q | ValidPath(lim, q) && Beyond(p, q) ensures PathLeq(appended.value, q) {
            var j := BeyondIsFork(p, q);
            ZeroByteIsLeastFork(p, q, i, j);
          }
          return appended;
        }
      }
      NoRoomToExtend(lim, p, i);
      var replaced := ComponentGreaterButNotPrefixed(p[i]);
      if replaced.Some? {
        var appended := Append(lim, prefix, replaced.value);
        PathLengthConcat(prefix, [replaced.value]);
        PathLessFork(p, appended.value, i);
        forall q | ValidPath(lim, q) && Beyond(p, q) ensures PathLeq(appended.value, q) {
          var j := BeyondIsFork(p, q);
          ReplacedComponentIsLeastFork(p, i, replaced.value, q, j);
        }
        return appended;
      }
    }
    forall q | ValidPath(lim, q) ensures !Beyond(p, q) {
      if Beyond(p, q) { var j := BeyondIsFork(p, q); }
    }
    return None;
  }

  /** Everything between a path and one of its extensions extends that path. */
  lemma BetweenPrefixAndExtension(p: Path, q: Path, r: Path)
    requires p <= r && PathLeq(p, q) && PathLeq(q, r)
    ensures p <= q
  {
    if p != q {
      var i := PathLessCases(p, q);
      if !(p <= q) {
        assert r[..i] == p[..i] && r[i] == p[i];
        LessAsymmetric(p[i], q[i]);
        PathLessFork(r, q, i);
        PathLessAsymmetric(r, q);
      }
    }
  }

  /** "Prefixed by p" is a key interval: it starts at `p` and ends at the least path beyond it. */
  lemma PrefixIsInterval(lim: Limits, p: Path, bound: Option<Path>, q: Path)
    requires ValidPath(lim, p) && ValidPath(lim, q)
    requires bound.Some? ==>
      && ValidPath(lim, bound.value) && Beyond(p, bound.value)
      && forall b | ValidPath(lim, b) && Beyond(p, b) :: PathLeq(bound.value, b)
    requires bound.None? ==> forall b | ValidPath(lim, b) :: !Beyond(p, b)
    ensures p <= q <==> PathLeq(p, q) && (bound.Some? ==> PathLess(q, bound.value))
  {
    if p <= q {
      if p != q { PathLessPrefix(p, q); }
      if bound.Some? && !PathLess(q, bound.value) {
        PathLessTotal(q, bound.value);
        BetweenPrefixAndExtension(p, bound.value, q);
      }
    } else if PathLeq(p, q) && bound.Some? && PathLess(q, bound.value) {
      PathLessAsymmetric(q, bound.value);
    }
  }

  // ---------------------------------------------------------------- successor

  predicate AllMax(c: Component) {
    forall i | 0 <= i < |c| :: c[i] == 255
  }

  /** `d` is `c` plus one, where the carry runs down to byte `k`. */
  predicate IncrementedAt(c: Component, d: Component, k: nat) {
    && |d| == |c| && k < |c| && c[k] < 255
    && (forall j | k < j < |c| :: c[j] == 255 && d[j] == 0)
    && d[..k + 1] == c[..k] + [c[k] + 1]
  }

  /** One more than a component read as a fixed-width number; `None` on overflow. */
  function FixedWidthIncrement(c: Component): (r: Option<Component>)
    ensures r.None? <==> AllMax(c)
    ensures r.Some? ==> |r.value| == |c| && exists k: nat :: IncrementedAt(c, r.value, k)
  {
    if c == [] then None
    else
      var init, last := c[..|c| - 1], c[|c| - 1];
      assert c == init + [last];
      if last < 255 then
        var d := init + [last + 1];
        assert IncrementedAt(c, d, |c| - 1);
        Some(d)
      else
        match FixedWidthIncrement(init)
        case None => None
        case Some(d) =>
          var k: nat :| IncrementedAt(init, d, k);
          assert (d + [0])[..k + 1] == d[..k + 1] && c[..k] == init[..k];
          assert IncrementedAt(c, d + [0], k);
          Some(d + [0])
  }

  lemma IncrementUnique(c: Component, d: Component, k: nat, e: Component, l: nat)
    requires IncrementedAt(c, d, k) && IncrementedAt(c, e, l)
    ensures d == e
  {
    assert k == l;
    assert d == d[..k + 1] + d[k + 1..] && e == e[..k + 1] + e[k + 1..];
  }

  /** The loop that computes it: zero the trailing 255 bytes, then add one. */
  method TryIncrementFixedWidth(c: Component) returns (r: Option<Component>)
    ensures r == FixedWidthIncrement(c)
  {
    var new_component := c;
    var i := |c|;
    while i > 0
      invariant 0 <= i <= |c| == |new_component|
      invariant new_component[..i] == c[..i]
      invariant forall j | i <= j < |c| :: c[j] == 255 && new_component[j] == 0
    {
      i := i - 1;
      if c[i] == 255 {
        new_component := new_component[i := 0];
      } else {
        new_component := new_component[i := c[i] + 1];
        assert IncrementedAt(c, new_component, i);
        ghost var d := FixedWidthIncrement(c).value;
        ghost var k: nat :| IncrementedAt(c, d, k);
        IncrementUnique(c, new_component, i, d, k);
        return Some(new_component);
      }
    }
    return None;
  }

  /** Whether the fixed-width increment, if it comes to that within the first `n` components,
      has to carry past a final 255 byte. */
  predicate IncrementCarries(lim: Limits, p: Path, n: nat)
    requires n <= |p|
  {
    if n == 0 || ZeroByteFits(lim, p, n - 1) then false
    else if AllMax(p[n - 1]) then IncrementCarries(lim, p, n - 1)
    else p[n - 1][|p[n - 1]| - 1] == 255
  }

  /** The inputs on which the successor function overshoots. */
  predicate SuccessorCarries(lim: Limits, p: Path) {
    !Appendable(lim, p, []) && IncrementCarries(lim, p, |p|)
  }

  ghost predicate IsSuccessor(lim: Limits, p: Path, s: Path) {
    && ValidPath(lim, s) && PathLess(p, s)
    && forall q | ValidPath(lim, q) && PathLess(p, q) :: PathLeq(s, q)
  }

  lemma EmptyComponentIsSuccessor(lim: Limits, p: Path)
    requires ValidPath(lim, p + [[]])
    ensures IsSuccessor(lim, p, p + [[]])
  {
    var s := p + [[]];
    PathLessPrefix(p, s);
    forall q | ValidPath(lim, q) && PathLess(p, q) ensures PathLeq(s, q) {
      var i := PathLessCases(p, q);
      if p <= q {
        if p == q { PathLessIrreflexive(p); }
        assert s[..|p|] == q[..|p|];
        ForkOrPrefix(s, q, |p|);
      } else {
        assert s[..i] == p[..i];
        PathLessFork(s, q, i);
      }
    }
  }

  /** A path that has used up the component count has no valid proper extension. */
  lemma FullPathForks(lim: Limits, p: Path, q: Path) returns (i: nat)
    requires ValidPath(lim, p) && !Appendable(lim, p, []) && ValidPath(lim, q) && PathLess(p, q)
    ensures ForkBelow(p, q, i)
  {
    i := PathLessCases(p, q);
    assert |p| + 1 > lim.mcc by { assert PathLength(p) + 0 <= lim.mpl; }
    if p <= q {
      assert p == q;
      PathLessIrreflexive(p);
    }
  }

  /** The result of trying the first `n` components from the last to the first. */
  function IncrementFrom(lim: Limits, p: Path, n: nat): Option<Path>
    requires ValidPath(lim, p) && n <= |p|
  {
    if n == 0 then None
    else if ZeroByteFits(lim, p, n - 1) then Some(p[..n - 1] + [p[n - 1] + [0]])
    else
      match FixedWidthIncrement(p[n - 1])
      case None => IncrementFrom(lim, p, n - 1)
      case Some(c) => Some(p[..n - 1] + [c])
  }

  function SuccessorOf(lim: Limits, p: Path): Option<Path>
    requires ValidPath(lim, p)
  {
    if Appendable(lim, p, []) then Some(p + [[]]) else IncrementFrom(lim, p, |p|)
  }

  /** What the successor function returns: a greater valid path, or `None` exactly on the greatest
      one; and the least greater path exactly when its increment does not carry. */
  lemma SuccessorMeaning(lim: Limits, p: Path)
    requires ValidPath(lim, p)
    ensures var r := SuccessorOf(lim, p);
      && (r.None? <==> forall q | ValidPath(lim, q) :: PathLeq(q, p))
      && (r.Some? ==> ValidPath(lim, r.value) && PathLess(p, r.value))
      && (r.Some? ==> (IsSuccessor(lim, p, r.value) <==> !SuccessorCarries(lim, p)))
      && (r.None? ==> !SuccessorCarries(lim, p))
  {
    var r := SuccessorOf(lim, p);
    if Appendable(lim, p, []) {
      PathLengthConcat(p, [[]]);
      EmptyComponentIsSuccessor(lim, p);
    } else {
      forall q, j: nat | ValidPath(lim, q) && ForkBelow(p, q, j) ensures j < |p| {}
      IncrementMeaning(lim, p, |p|);
    }
    if r.Some? {
      PathLessAsymmetric(p, r.value);
    }
  }

  lemma {:induction false} IncrementMeaning(lim: Limits, p: Path, n: nat)
    requires ValidPath(lim, p) && !Appendable(lim, p, []) && n <= |p|
    requires forall q, j: nat | ValidPath(lim, q) && ForkBelow(p, q, j) :: j < n
    ensures var r := IncrementFrom(lim, p, n);
      && (r.None? ==> forall q | ValidPath(lim, q) :: PathLeq(q, p))
      && (r.Some? ==> ValidPath(lim, r.value) && PathLess(p, r.value))
      && (r.Some? ==> (IsSuccessor(lim, p, r.value) <==> !IncrementCarries(lim, p, n)))
      && (r.None? ==> !IncrementCarries(lim, p, n))
  {
    if n == 0 {
      NothingAbove(lim, p);
    } else {
      var i := n - 1;
      if ZeroByteFits(lim, p, i) {
        PrefixValid(lim, p, i);
        assert Append(lim, p[..i], p[i] + [0]).Some?;
        ZeroByteIsSuccessor(lim, p, i);
      } else {
        NoRoomToExtend(lim, p, i);
        if AllMax(p[i]) {
          NoForkAt(lim, p, i);
          IncrementMeaning(lim, p, i);
        } else {
          IncrementIsSuccessor(lim, p, i, FixedWidthIncrement(p[i]).value);
        }
      }
    }
  }

  lemma NothingAbove(lim: Limits, p: Path)
    requires ValidPath(lim, p) && !Appendable(lim, p, [])
    requires forall q, j: nat | ValidPath(lim, q) :: !ForkBelow(p, q, j)
    ensures forall q | ValidPath(lim, q) :: PathLeq(q, p)
  {
    forall q | ValidPath(lim, q) ensures PathLeq(q, p) {
      PathLessTotal(p, q);
      if PathLess(p, q) { var j := FullPathForks(lim, p, q); }
    }
  }

  lemma NoForkAt(lim: Limits, p: Path, i: nat)
    requires i < |p| && AllMax(p[i]) && forall q | ValidPath(lim, q) && ForkBelow(p, q, i) :: !(p[i] <= q[i])
    ensures forall q | ValidPath(lim, q) :: !ForkBelow(p, q, i)
  {
    forall q | ValidPath(lim, q) ensures !ForkBelow(p, q, i) {
      if ForkBelow(p, q, i) { var j := LessCases(p[i], q[i]); }
    }
  }

  /** The scan that computes the successor. */
  method Successor(lim: Limits, p: Path) returns (r: Option<Path>)
    requires ValidPath(lim, p)
    ensures r == SuccessorOf(lim, p)
  {
    var extended := Append(lim, p, []);
    if extended.Some? {
      PathLengthConcat(p, [[]]);
      return extended;
    }
    PathLengthConcat(p, [[]]);
    var i := |p|;
    while i > 0
      invariant 0 <= i <= |p|
      invariant IncrementFrom(lim, p, |p|) == IncrementFrom(lim, p, i)
    {
      i := i - 1;
      PrefixValid(lim, p, i);
      PathLengthSplit(p, i);
      if |p[i]| < lim.mcl {
        var appended := Append(lim, p[..i], p[i] + [0]);
        PathLengthConcat(p[..i], [p[i] + [0]]);
        if appended.Some? { return appended; }
      }
      var incremented := TryIncrementFixedWidth(p[i]);
      if incremented.Some? {
        ReplacedValid(lim, p, i, incremented.value);
        return Append(lim, p[..i], incremented.value);
      }
    }
    return None;
  }

  lemma ZeroByteIsSuccessor(lim: Limits, p: Path, i: nat)
    requires ValidPath(lim, p) && !Appendable(lim, p, [])
    requires i < |p| && ValidPath(lim, p[..i] + [p[i] + [0]])
    requires forall q, j: nat | ValidPath(lim, q) && ForkBelow(p, q, j) :: j <= i
    ensures IsSuccessor(lim, p, p[..i] + [p[i] + [0]])
  {
    var s := p[..i] + [p[i] + [0]];
    LessPrefix(p[i], p[i] + [0]);
    PathLessFork(p, s, i);
    forall q | ValidPath(lim, q) && PathLess(p, q) ensures PathLeq(s, q) {
      var j := FullPathForks(lim, p, q);
      ZeroByteIsLeastFork(p, q, i, j);
    }
  }

  /** The increment of component `i`: least if it only touches the last byte, too large if it carries. */
  lemma IncrementIsSuccessor(lim: Limits, p: Path, i: nat, d: Component)
    requires ValidPath(lim, p) && !Appendable(lim, p, []) && i < |p|
    requires exists k: nat :: IncrementedAt(p[i], d, k)
    requires forall q, j: nat | ValidPath(lim, q) && ForkBelow(p, q, j) :: j <= i
    requires forall q | ValidPath(lim, q) && ForkBelow(p, q, i) :: !(p[i] <= q[i])
    ensures ValidPath(lim, p[..i] + [d]) && PathLess(p, p[..i] + [d])
    ensures IsSuccessor(lim, p, p[..i] + [d]) <==> p[i][|d| - 1] != 255
  {
    var c := p[i];
    var k: nat :| IncrementedAt(c, d, k);
    assert d[..k] == d[..k + 1][..k] == c[..k] && d[k] == d[..k + 1][k] == c[k] + 1;
    LessFork(c, d, k);
    PathLessFork(p, p[..i] + [d], i);
    ReplacedValid(lim, p, i, d);
    if c[|d| - 1] != 255 {
      LastByteIncremented(c, d, k);
      UncarriedIncrementIsLeast(lim, p, i, k);
    } else {
      CarriedIncrementOvershoots(lim, p, i, d, k);
    }
  }

  lemma LastByteIncremented(c: Component, d: Component, k: nat)
    requires IncrementedAt(c, d, k) && c[|d| - 1] != 255
    ensures k == |d| - 1 && c[k] < 255 && d == c[..k] + [c[k] + 1]
  {
    assert d[..k] == d[..k + 1][..k] && d[k] == d[..k + 1][k];
  }

  lemma UncarriedIncrementIsLeast(lim: Limits, p: Path, i: nat, k: nat)
    requires ValidPath(lim, p) && !Appendable(lim, p, []) && i < |p|
    requires |p[i]| == k + 1 && p[i][k] < 255
    requires forall q, j: nat | ValidPath(lim, q) && ForkBelow(p, q, j) :: j <= i
    requires forall q | ValidPath(lim, q) && ForkBelow(p, q, i) :: !(p[i] <= q[i])
    ensures var s := p[..i] + [p[i][..k] + [p[i][k] + 1]];
      forall q | ValidPath(lim, q) && PathLess(p, q) :: PathLeq(s, q)
  {
    var d := p[i][..k] + [p[i][k] + 1];
    LessFork(p[i], d, k);
    forall q | ValidPath(lim, q) && PathLess(p, q) ensures PathLeq(p[..i] + [d], q) {
      var j := FullPathForks(lim, p, q);
      if j == i { LeastComponent(p[i], k, q[i]); }
      ReplacedComponentIsLeastFork(p, i, d, q, j);
    }
  }

  /** When the increment carries, dropping the zeroed bytes gives a smaller valid path above `p`. */
  lemma CarriedIncrementOvershoots(lim: Limits, p: Path, i: nat, d: Component, k: nat)
    requires ValidPath(lim, p) && i < |p| && IncrementedAt(p[i], d, k) && p[i][|d| - 1] == 255
    ensures !IsSuccessor(lim, p, p[..i] + [d])
  {
    var short := p[i][..k] + [p[i][k] + 1];
    var s, q := p[..i] + [d], p[..i] + [short];
    LessFork(p[i], short, k);
    PathLessFork(p, q, i);
    ReplacedValid(lim, p, i, short);
    assert short == d[..k + 1] && short != d;
    LessPrefix(short, d);
    assert q[..i] == s[..i];
    PathLessFork(q, s, i);
    PathLessAsymmetric(q, s);
    SmallerAbove(lim, p, q, s);
  }

  lemma SmallerAbove(lim: Limits, p: Path, q: Path, s: Path)
    requires ValidPath(lim, q) && PathLess(p, q) && !PathLeq(s, q)
    ensures !IsSuccessor(lim, p, s)
  {}

  lemma ReplacedValid(lim: Limits, p: Path, i: nat, d: Component)
    requires ValidPath(lim, p) && i < |p| && |d| <= |p[i]|
    ensures ValidPath(lim, p[..i] + [d])
  {
    PathLengthSplit(p, i);
    PathLengthConcat(p[..i], [d]);
    assert PathLength([d]) == |d|;
  }

  /** A path between another one and its carrying successor agrees with both up to the incremented component. */
  lemma CarryFork(lim: Limits, p: Path, q: Path) returns (i: nat)
    requires ValidPath(lim, p) && ValidPath(lim, q) && SuccessorCarries(lim, p) && SuccessorOf(lim, p).Some?
    requires PathLess(p, q) && PathLess(q, SuccessorOf(lim, p).value)
    ensures ForkBelow(p, q, i) && i == |SuccessorOf(lim, p).value| - 1
  {
    var next := SuccessorOf(lim, p).value;
    i := FullPathForks(lim, p, q);
    IncrementReach(lim, p, |p|);
    var n := |next| - 1;
    assert i <= n;
    if i < n {
      assert next[..i] == next[..n][..i] == p[..n][..i] == p[..i] && next[i] == next[..n][i] == p[..n][i] == p[i];
      PathLessFork(next, q, i);
      PathLessAsymmetric(next, q);
    }
  }

  /** The successor keeps all components before its last, and no greater path agrees beyond that one. */
  lemma {:induction false} IncrementReach(lim: Limits, p: Path, n: nat)
    requires ValidPath(lim, p) && !Appendable(lim, p, []) && n <= |p|
    requires forall q, j: nat | ValidPath(lim, q) && ForkBelow(p, q, j) :: j < n
    ensures var r := IncrementFrom(lim, p, n);
      && (r.Some? ==> 0 < |r.value| <= |p| && r.value[..|r.value| - 1] == p[..|r.value| - 1])
      && (r.Some? ==> forall q, j: nat | ValidPath(lim, q) && ForkBelow(p, q, j) :: j < |r.value|)
  {
    if n > 0 && !ZeroByteFits(lim, p, n - 1) && AllMax(p[n - 1]) {
      NoRoomToExtend(lim, p, n - 1);
      NoForkAt(lim, p, n - 1);
      IncrementReach(lim, p, n - 1);
    }
  }

  /** A concrete overshoot: with components of at most two bytes, the function maps
      the one-component path 00 FF to 01 00, skipping the path 01. */
  lemma SuccessorOvershoots()
    ensures var lim, p, s, between := Limits(2, 1, 2), [[0, 255]], [[1, 0]], [[1]];
      && ValidPath(lim, p) && SuccessorCarries(lim, p) && SuccessorOf(lim, p) == Some(s)
      && ValidPath(lim, between) && PathLess(p, between) && PathLess(between, s)
  {
    var lim, p := Limits(2, 1, 2), [[0, 255]];
    assert p[1..] == [] && PathLength(p) == 2;
    assert p[0][1] == 255 && !AllMax(p[0]) by { assert p[0][0] == 0; }
    assert IncrementCarries(lim, p, 1);
    var d := FixedWidthIncrement([0, 255]).value;
    var k: nat :| IncrementedAt([0, 255], d, k);
    assert IncrementedAt([0, 255], [1, 0], 0);
    IncrementUnique([0, 255], d, k, [1, 0], 0);
    assert p[..0] + [d] == [[1, 0]];
    assert BytesLess([0, 255], [1]);
    assert [1] <= [1, 0] && [1] != [1, 0];
    LessPrefix([1], [1, 0]);
  }

  // ---------------------------------------------------------------- the greatest path

  /** Components of maximal bytes until the budget is spent, then empty ones. */
  function MaxFrom(mcl: nat, count: nat, budget: nat): (p: Path)
    ensures |p| == count
  {
    if count == 0 then []
    else
      var n := if mcl < budget then mcl else budget;
      [seq(n, i => 255)] + MaxFrom(mcl, count - 1, budget - n)
  }

  lemma {:induction false} MaxFromValid(mcl: nat, count: nat, budget: nat)
    ensures PathLength(MaxFrom(mcl, count, budget)) <= budget
    ensures forall i | 0 <= i < count :: |MaxFrom(mcl, count, budget)[i]| <= mcl
    ensures PathLength(MaxFrom(mcl, count, budget)) == budget <==> budget <= mcl * count
  {
    if count > 0 {
      var n := if mcl < budget then mcl else budget;
      MaxFromValid(mcl, count - 1, budget - n);
      var rest := MaxFrom(mcl, count - 1, budget - n);
      assert MaxFrom(mcl, count, budget)[1..] == rest;
      assert mcl * count == mcl * (count - 1) + mcl;
    }
  }

  lemma {:induction false} AllMaxIsGreatest(c: Component, n: nat)
    requires |c| <= n
    ensures BytesLeq(c, seq(n, i => 255))
  {
    var top: Component := seq(n, i => 255);
    if c != [] {
      AllMaxIsGreatest(c[1..], n - 1);
      assert top[1..] == seq(n - 1, i => 255);
      assert c == [c[0]] + c[1..] && top == [top[0]] + top[1..];
    }
  }

  /** No path within the limits is greater. */
  lemma {:induction false} MaxFromIsGreatest(mcl: nat, count: nat, budget: nat, q: Path)
    requires |q| <= count && PathLength(q) <= budget && forall i | 0 <= i < |q| :: |q[i]| <= mcl
    ensures PathLeq(q, MaxFrom(mcl, count, budget))
  {
    if q != [] {
      var n := if mcl < budget then mcl else budget;
      var top, rest := seq(n, i => 255), MaxFrom(mcl, count - 1, budget - n);
      var max := MaxFrom(mcl, count, budget);
      assert |q[0]| <= n;
      AllMaxIsGreatest(q[0], n);
      assert max[0] == top && max[1..] == rest && max == [max[0]] + max[1..] && q == [q[0]] + q[1..];
      if q[0] == top {
        forall i | 0 <= i < |q[1..]| ensures |q[1..][i]| <= mcl { assert q[1..][i] == q[i + 1]; }
        MaxFromIsGreatest(mcl, count - 1, budget - n, q[1..]);
      }
    }
  }

  /** The limits for which the greatest path can be built; for others its construction fails. */
  predicate MaxPathExists(lim: Limits) {
    lim.mpl <= lim.mcl * lim.mcc
  }

  lemma MaxStep(path: Path, mcl: nat, count: nat, budget: nat, component: Component)
    requires count > 0
    requires var n := if mcl < budget then mcl else budget; component == seq(n, i => 255)
    ensures path + MaxFrom(mcl, count, budget) == (path + [component]) + MaxFrom(mcl, count - 1, budget - |component|)
    ensures PathLength(path + [component]) == PathLength(path) + |component|
  {
    PathLengthConcat(path, [component]);
    assert [component][1..] == [] && PathLength([component]) == |component|;
  }

  /** The greatest path, or none if the claimed total length cannot be reached. */
  method NewMaxPath(lim: Limits) returns (r: Option<Path>)
    ensures r.Some? <==> MaxPathExists(lim)
    ensures r.Some? ==> ValidPath(lim, r.value) && forall q | ValidPath(lim, q) :: PathLeq(q, r.value)
    ensures r.Some? ==> r.value == MaxFrom(lim.mcl, lim.mcc, lim.mpl)
  {
    var path: Path := [];
    var lenSoFar := 0;
    ghost var max := MaxFrom(lim.mcl, lim.mcc, lim.mpl);
    for i := 0 to lim.mcc
      invariant |path| == i && lenSoFar <= lim.mpl && PathLength(path) == lenSoFar
      invariant max == path + MaxFrom(lim.mcl, lim.mcc - i, lim.mpl - lenSoFar)
    {
      var compLen := if lim.mcl < lim.mpl - lenSoFar then lim.mcl else lim.mpl - lenSoFar;
      var component: Component := seq(compLen, i => 255);
      MaxStep(path, lim.mcl, lim.mcc - i, lim.mpl - lenSoFar, component);
      path := path + [component];
      lenSoFar := lenSoFar + compLen;
    }
    MaxFromValid(lim.mcl, lim.mcc, lim.mpl);
    assert path == max;
    if lenSoFar != lim.mpl { return None; }
    forall q | ValidPath(lim, q) ensures PathLeq(q, max) { MaxFromIsGreatest(lim.mcl, lim.mcc, lim.mpl, q); }
    return Some(path);
  }
}
