/** The keys of the sled trees: escaped paths framed by a subspace id and a big-endian timestamp. */
module KeyCodec {
  import opened Wrappers
  import opened ByteStrings
  import opened Paths
  import opened Grouping

  // ---------------------------------------------------------------- big-endian numbers

  function Pow256(n: nat): (r: nat)
    ensures r > 0
  {
    if n == 0 then 1 else 256 * Pow256(n - 1)
  }

  function BigEndian(v: nat, n: nat): (r: seq<byte>)
    ensures |r| == n
  {
    if n == 0 then [] else BigEndian(v / 256, n - 1) + [v % 256]
  }

  function FromBigEndian(b: seq<byte>): nat {
    if b == [] then 0 else 256 * FromBigEndian(b[..|b| - 1]) + b[|b| - 1]
  }

  lemma {:induction false} BigEndianRoundTrip(v: nat, n: nat)
    requires v < Pow256(n)
    ensures FromBigEndian(BigEndian(v, n)) == v
  {
    if n > 0 {
      BigEndianRoundTrip(v / 256, n - 1);
      assert BigEndian(v, n)[..n - 1] == BigEndian(v / 256, n - 1);
    }
  }

  lemma {:induction false} FromBigEndianBound(b: seq<byte>)
    ensures FromBigEndian(b) < Pow256(|b|)
  {
    if b != [] { FromBigEndianBound(b[..|b| - 1]); }
  }

  lemma U64Range(t: nat)
    ensures t < Pow256(8) <==> t < U64_LIMIT
  {
    assert Pow256(8) == 256 * 256 * 256 * 256 * 256 * 256 * 256 * 256;
  }

  lemma LessExtends(a: seq<byte>, b: seq<byte>, x: seq<byte>, y: seq<byte>)
    requires |a| == |b| && BytesLess(a, b)
    ensures BytesLess(a + x, b + y)
  {
    var i := LessCases(a, b);
    if a <= b {
      assert a == b;
      LessIrreflexive(a);
    } else {
      assert (a + x)[..i] == a[..i] && (b + y)[..i] == b[..i];
      LessFork(a + x, b + y, i);
    }
  }

  lemma {:induction false} BigEndianOrder(v: nat, w: nat, n: nat)
    requires v < w < Pow256(n)
    ensures BytesLess(BigEndian(v, n), BigEndian(w, n))
  {
    if v / 256 == w / 256 {
      LessCommonPrefix(BigEndian(v / 256, n - 1), [v % 256], [w % 256]);
    } else {
      BigEndianOrder(v / 256, w / 256, n - 1);
      LessExtends(BigEndian(v / 256, n - 1), BigEndian(w / 256, n - 1), [v % 256], [w % 256]);
    }
  }

  // ---------------------------------------------------------------- escaping

  function EscapedByte(b: byte): seq<byte> {
    if b == 0 then [0, 2] else [b]
  }

  function EscapedBytes(c: Component): seq<byte> {
    if c == [] then [] else EscapedByte(c[0]) + EscapedBytes(c[1..])
  }

  function EscapedComponent(c: Component): seq<byte> {
    EscapedBytes(c) + [0, 1]
  }

  function EscapedComponents(p: Path): seq<byte> {
    if p == [] then [] else EscapedComponent(p[0]) + EscapedComponents(p[1..])
  }

  function EscapedPath(p: Path): seq<byte> {
    EscapedComponents(p) + [0, 0]
  }

  lemma {:induction false} EscapedBytesConcat(c: Component, d: Component)
    ensures EscapedBytes(c + d) == EscapedBytes(c) + EscapedBytes(d)
  {
    if c == [] {
      assert c + d == d;
    } else {
      assert (c + d)[1..] == c[1..] + d;
      EscapedBytesConcat(c[1..], d);
    }
  }

  lemma {:induction false} EscapedComponentsConcat(p: Path, q: Path)
    ensures EscapedComponents(p + q) == EscapedComponents(p) + EscapedComponents(q)
  {
    if p == [] {
      assert p + q == q;
    } else {
      assert (p + q)[1..] == p[1..] + q;
      EscapedComponentsConcat(p[1..], q);
    }
  }

  /** Unfolding the first byte of an escaped component. */
  lemma EscapedComponentStep(c: Component, x: seq<byte>)
    ensures c == [] ==> EscapedComponent(c) + x == [0, 1] + x
    ensures c != [] ==> EscapedComponent(c) + x == EscapedByte(c[0]) + (EscapedComponent(c[1..]) + x)
  {}

  lemma EscapedPathStep(p: Path, x: seq<byte>)
    ensures p == [] ==> EscapedPath(p) + x == [0, 0] + x
    ensures p != [] ==> EscapedPath(p) + x == EscapedComponent(p[0]) + (EscapedPath(p[1..]) + x)
  {}

  /** Escaping keeps the order of components, whatever follows them. */
  lemma {:induction false} EscapedComponentOrder(c: Component, d: Component, x: seq<byte>, y: seq<byte>)
    requires BytesLess(c, d)
    ensures BytesLess(EscapedComponent(c) + x, EscapedComponent(d) + y)
  {
    EscapedComponentStep(c, x);
    EscapedComponentStep(d, y);
    var a, b := EscapedComponent(c) + x, EscapedComponent(d) + y;
    if c != [] && c[0] == d[0] {
      EscapedComponentOrder(c[1..], d[1..], x, y);
      LessCommonPrefix(EscapedByte(c[0]),
        EscapedComponent(c[1..]) + x, EscapedComponent(d[1..]) + y);
    } else if d[0] == 0 {
      assert a[..1] == b[..1];
      LessFork(a, b, 1);
    } else {
      LessFork(a, b, 0);
    }
  }

  /** Escaping keeps the order of paths, whatever follows them. */
  lemma {:induction false} EscapedPathOrder(p: Path, q: Path, x: seq<byte>, y: seq<byte>)
    requires PathLess(p, q)
    ensures BytesLess(EscapedPath(p) + x, EscapedPath(q) + y)
  {
    EscapedPathStep(p, x);
    EscapedPathStep(q, y);
    if p == [] {
      TerminatorIsLeast(q[0], x, EscapedPath(q[1..]) + y);
    } else if p[0] == q[0] {
      EscapedPathOrder(p[1..], q[1..], x, y);
      LessCommonPrefix(EscapedComponent(p[0]), EscapedPath(p[1..]) + x, EscapedPath(q[1..]) + y);
    } else {
      EscapedComponentOrder(p[0], q[0], EscapedPath(p[1..]) + x, EscapedPath(q[1..]) + y);
    }
  }

  lemma TerminatorIsLeast(c: Component, x: seq<byte>, y: seq<byte>)
    ensures BytesLess([0, 0] + x, EscapedComponent(c) + y)
    ensures !([0, 0] <= EscapedComponent(c) + y) && !(EscapedComponent(c) <= [0, 0] + x)
  {
    EscapedComponentStep(c, y);
    EscapedComponentStep(c, []);
    var a, b, e := [0, 0] + x, EscapedComponent(c) + y, EscapedComponent(c);
    assert e == e + [];
    if c == [] || c[0] == 0 {
      assert a[..1] == b[..1] && b[1] != 0 && e[1] != 0;
      LessFork(a, b, 1);
    } else {
      assert e[0] == c[0] && b[0] == c[0];
      LessFork(a, b, 0);
    }
  }

  /** No escaped component is a proper prefix of another. */
  lemma {:induction false} EscapedComponentPrefixFree(c: Component, d: Component, y: seq<byte>)
    requires EscapedComponent(c) <= EscapedComponent(d) + y
    ensures c == d
  {
    var a, b := EscapedComponent(c), EscapedComponent(d) + y;
    EscapedComponentStep(c, []);
    EscapedComponentStep(d, y);
    assert a + [] == a;
    assert a[0] == b[0] && a[1] == b[1];
    if c != [] && d != [] {
      assert c[0] == d[0];
      var head := EscapedByte(c[0]);
      var a', b' := EscapedComponent(c[1..]), EscapedComponent(d[1..]) + y;
      assert a == head + a' && b == head + b';
      assert a' == a[|head|..] && b' == b[|head|..];
      EscapedComponentPrefixFree(c[1..], d[1..], y);
      assert c == [c[0]] + c[1..] && d == [d[0]] + d[1..];
    }
  }

  /** An unterminated path key is a byte prefix exactly of the keys of the paths it prefixes. */
  lemma {:induction false} EscapedPrefixIff(p: Path, q: Path, y: seq<byte>)
    ensures EscapedComponents(p) <= EscapedPath(q) + y <==> p <= q
  {
    EscapedPathStep(q, y);
    if p == [] {
    } else if q == [] {
      TerminatorIsLeast(p[0], y, []);
      assert EscapedComponents(p)[..|EscapedComponent(p[0])|] == EscapedComponent(p[0]);
    } else {
      var head, rest := EscapedComponent(p[0]), EscapedComponents(p[1..]);
      EscapedPrefixIff(p[1..], q[1..], y);
      if p[0] == q[0] {
        PrefixCancel(head, rest, EscapedPath(q[1..]) + y);
        assert p == [p[0]] + p[1..] && q == [p[0]] + q[1..];
      } else if head + rest <= EscapedPath(q) + y {
        assert head <= head + rest;
        EscapedComponentPrefixFree(p[0], q[0], EscapedPath(q[1..]) + y);
      }
    }
  }

  lemma PrefixCancel(head: seq<byte>, a: seq<byte>, b: seq<byte>)
    ensures head + a <= head + b <==> a <= b
  {
    if head + a <= head + b {
      assert a == (head + a)[|head|..] && b == (head + b)[|head|..];
      assert (head + b)[..|head + a|] == head + b[..|a|];
    }
    if a <= b { assert head + b == head + a + b[|a|..]; }
  }

  /** A terminated path key is a byte prefix only of keys of the same path. */
  lemma {:induction false} TerminatedPrefixIff(p: Path, q: Path, y: seq<byte>)
    ensures EscapedPath(p) <= EscapedPath(q) + y <==> p == q
  {
    EscapedPathStep(q, y);
    EscapedPathStep(p, []);
    assert EscapedPath(p) + [] == EscapedPath(p);
    if p == [] || q == [] {
      if p != [] {
        TerminatorIsLeast(p[0], y, []);
        assert EscapedPath(p)[..|EscapedComponent(p[0])|] == EscapedComponent(p[0]);
      }
      if q != [] { TerminatorIsLeast(q[0], [], EscapedPath(q[1..]) + y); }
    } else {
      var head, rest := EscapedComponent(p[0]), EscapedPath(p[1..]);
      assert EscapedPath(p) == head + rest;
      TerminatedPrefixIff(p[1..], q[1..], y);
      if p[0] == q[0] {
        PrefixCancel(head, rest, EscapedPath(q[1..]) + y);
        assert p == [p[0]] + p[1..] && q == [p[0]] + q[1..];
      } else if head + rest <= EscapedPath(q) + y {
        assert head <= head + rest;
        EscapedComponentPrefixFree(p[0], q[0], EscapedPath(q[1..]) + y);
      }
    }
  }

  // ---------------------------------------------------------------- keys

  function SubspacePathKey(s: SubspaceId, p: Path, withPathEnd: bool): seq<byte> {
    s + if withPathEnd then EscapedPath(p) else EscapedComponents(p)
  }

  function SptKey(s: SubspaceId, p: Path, t: nat): seq<byte> {
    s + EscapedPath(p) + BigEndian(t, 8)
  }

  function TspKey(s: SubspaceId, p: Path, t: nat): seq<byte> {
    BigEndian(t, 8) + s + EscapedPath(p)
  }

  predicate TripleLess(s: SubspaceId, p: Path, t: nat, s': SubspaceId, p': Path, t': nat) {
    BytesLess(s, s') || (s == s' && (PathLess(p, p') || (p == p' && t < t')))
  }

  /** Sled walks its subspace-path-timestamp tree in the order of (subspace, path, timestamp). */
  lemma SptKeyOrder(s: SubspaceId, p: Path, t: nat, s': SubspaceId, p': Path, t': nat)
    requires |s| == |s'| && t < U64_LIMIT && t' < U64_LIMIT
    ensures BytesLess(SptKey(s, p, t), SptKey(s', p', t')) <==> TripleLess(s, p, t, s', p', t')
  {
    if TripleLess(s, p, t, s', p', t') {
      SptKeyLess(s, p, t, s', p', t');
    } else {
      LessTotal(s, s');
      PathLessTotal(p, p');
      if (s, p, t) == (s', p', t') {
        LessIrreflexive(SptKey(s, p, t));
      } else {
        SptKeyLess(s', p', t', s, p, t);
        LessAsymmetric(SptKey(s', p', t'), SptKey(s, p, t));
      }
    }
  }

  lemma SptKeyLess(s: SubspaceId, p: Path, t: nat, s': SubspaceId, p': Path, t': nat)
    requires |s| == |s'| && t < U64_LIMIT && t' < U64_LIMIT && TripleLess(s, p, t, s', p', t')
    ensures BytesLess(SptKey(s, p, t), SptKey(s', p', t'))
  {
    var x, y := BigEndian(t, 8), BigEndian(t', 8);
    assert SptKey(s, p, t) == s + (EscapedPath(p) + x) && SptKey(s', p', t') == s' + (EscapedPath(p') + y);
    if BytesLess(s, s') {
      LessExtends(s, s', EscapedPath(p) + x, EscapedPath(p') + y);
    } else {
      LessCommonPrefix(s, EscapedPath(p) + x, EscapedPath(p') + y);
      if PathLess(p, p') {
        EscapedPathOrder(p, p', x, y);
      } else {
        U64Range(t');
        BigEndianOrder(t, t', 8);
        LessCommonPrefix(EscapedPath(p), x, y);
      }
    }
  }

  /** The timestamp-first tree is ordered by (timestamp, subspace, path). */
  lemma TspKeyOrder(s: SubspaceId, p: Path, t: nat, s': SubspaceId, p': Path, t': nat)
    requires |s| == |s'| && t < U64_LIMIT && t' < U64_LIMIT
    ensures BytesLess(TspKey(s, p, t), TspKey(s', p', t')) <==>
      t < t' || (t == t' && (BytesLess(s, s') || (s == s' && PathLess(p, p'))))
  {
    if t < t' || (t == t' && (BytesLess(s, s') || (s == s' && PathLess(p, p')))) {
      TspKeyLess(s, p, t, s', p', t');
    } else {
      LessTotal(s, s');
      PathLessTotal(p, p');
      if (s, p, t) == (s', p', t') {
        LessIrreflexive(TspKey(s, p, t));
      } else {
        TspKeyLess(s', p', t', s, p, t);
        LessAsymmetric(TspKey(s', p', t'), TspKey(s, p, t));
      }
    }
  }

  lemma TspKeyLess(s: SubspaceId, p: Path, t: nat, s': SubspaceId, p': Path, t': nat)
    requires |s| == |s'| && t < U64_LIMIT && t' < U64_LIMIT
    requires t < t' || (t == t' && (BytesLess(s, s') || (s == s' && PathLess(p, p'))))
    ensures BytesLess(TspKey(s, p, t), TspKey(s', p', t'))
  {
    var x, y := BigEndian(t, 8), BigEndian(t', 8);
    assert TspKey(s, p, t) == x + (s + EscapedPath(p)) && TspKey(s', p', t') == y + (s' + EscapedPath(p'));
    if t < t' {
      U64Range(t');
      BigEndianOrder(t, t', 8);
      LessExtends(x, y, s + EscapedPath(p), s' + EscapedPath(p'));
    } else {
      LessCommonPrefix(x, s + EscapedPath(p), s' + EscapedPath(p'));
      if BytesLess(s, s') {
        LessExtends(s, s', EscapedPath(p), EscapedPath(p'));
      } else {
        LessCommonPrefix(s, EscapedPath(p), EscapedPath(p'));
        EscapedPathOrder(p, p', [], []);
        assert EscapedPath(p) + [] == EscapedPath(p) && EscapedPath(p') + [] == EscapedPath(p');
      }
    }
  }

  /** Scanning for an unterminated key finds exactly the entries of that subspace below that path;
      scanning for a terminated one, exactly those at that path. */
  lemma ScanPrefixIff(s: SubspaceId, p: Path, withPathEnd: bool, s': SubspaceId, q: Path, t: nat)
    requires |s| == |s'|
    ensures SubspacePathKey(s, p, withPathEnd) <= SptKey(s', q, t) <==>
      s == s' && if withPathEnd then p == q else p <= q
  {
    var body := if withPathEnd then EscapedPath(p) else EscapedComponents(p);
    var rest := EscapedPath(q) + BigEndian(t, 8);
    assert SptKey(s', q, t) == s' + rest;
    EscapedPrefixIff(p, q, BigEndian(t, 8));
    TerminatedPrefixIff(p, q, BigEndian(t, 8));
    assert (s + body)[..|s|] == s && (s' + rest)[..|s|] == s';
    if s == s' { PrefixCancel(s, body, rest); }
  }

  /** Scanning for a subspace id finds exactly the entries of that subspace. */
  lemma ScanSubspaceIff(s: SubspaceId, s': SubspaceId, q: Path, t: nat)
    requires |s| == |s'|
    ensures s <= SptKey(s', q, t) <==> s == s'
  {
    ScanPrefixIff(s, [], false, s', q, t);
    assert SubspacePathKey(s, [], false) == s;
  }

  lemma SptKeyInjective(s: SubspaceId, p: Path, t: nat, s': SubspaceId, p': Path, t': nat)
    requires |s| == |s'| && t < U64_LIMIT && t' < U64_LIMIT
    requires SptKey(s, p, t) == SptKey(s', p', t')
    ensures (s, p, t) == (s', p', t')
  {
    LessTotal(s, s');
    PathLessTotal(p, p');
    LessIrreflexive(SptKey(s, p, t));
    SptKeyOrder(s, p, t, s', p', t');
    SptKeyOrder(s', p', t', s, p, t);
  }

  lemma TspKeyInjective(s: SubspaceId, p: Path, t: nat, s': SubspaceId, p': Path, t': nat)
    requires |s| == |s'| && t < U64_LIMIT && t' < U64_LIMIT
    requires TspKey(s, p, t) == TspKey(s', p', t')
    ensures (s, p, t) == (s', p', t')
  {
    LessTotal(s, s');
    PathLessTotal(p, p');
    LessIrreflexive(TspKey(s, p, t));
    TspKeyOrder(s, p, t, s', p', t');
    TspKeyOrder(s', p', t', s, p, t);
  }

  // ---------------------------------------------------------------- encoders

  method ConsumeComponent(consumer: seq<byte>, c: Component) returns (out: seq<byte>)
    ensures out == consumer + EscapedComponent(c)
  {
    out := consumer;
    for j := 0 to |c|
      invariant out == consumer + EscapedBytes(c[..j])
    {
      EscapedOneMore(consumer, c, j);
      if c[j] == 0 {
        out := out + [0, 2];
      } else {
        out := out + [c[j]];
      }
    }
    assert c[..|c|] == c;
    out := out + [0, 1];
  }

  lemma EscapedOneMore(consumer: seq<byte>, c: Component, j: nat)
    requires j < |c|
    ensures consumer + EscapedBytes(c[..j + 1]) == (consumer + EscapedBytes(c[..j])) + EscapedByte(c[j])
  {
    assert c[..j + 1] == c[..j] + [c[j]];
    EscapedBytesConcat(c[..j], [c[j]]);
    assert EscapedBytes([c[j]]) == EscapedByte(c[j]) + [];
  }

  method ConsumePath(consumer: seq<byte>, p: Path) returns (out: seq<byte>)
    ensures out == consumer + EscapedComponents(p)
  {
    out := consumer;
    for i := 0 to |p|
      invariant out == consumer + EscapedComponents(p[..i])
    {
      out := ConsumeComponent(out, p[i]);
      assert p[..i + 1] == p[..i] + [p[i]];
      EscapedComponentsConcat(p[..i], [p[i]]);
      assert EscapedComponents([p[i]]) == EscapedComponent(p[i]);
    }
    assert p[..|p|] == p;
  }

  method EncodeSubspacePathKey(s: SubspaceId, p: Path, withPathEnd: bool) returns (key: seq<byte>)
    ensures key == SubspacePathKey(s, p, withPathEnd)
  {
    key := ConsumePath(s, p);
    if withPathEnd { key := key + [0, 0]; }
  }

  method EncodeSptEntryKey(s: SubspaceId, p: Path, t: nat) returns (key: seq<byte>)
    requires t < U64_LIMIT
    ensures key == SptKey(s, p, t)
  {
    key := ConsumePath(s, p);
    key := key + [0, 0] + BigEndian(t, 8);
  }

  method EncodeTspEntryKey(s: SubspaceId, p: Path, t: nat) returns (key: seq<byte>)
    requires t < U64_LIMIT
    ensures key == TspKey(s, p, t)
  {
    key := ConsumePath(BigEndian(t, 8) + s, p);
    key := key + [0, 0];
  }

  // ---------------------------------------------------------------- decoders

  /** The outcome of reading one component; `Unterminated` is where the reader panics. */
  datatype Parsed = Component(bytes: Component, rest: seq<byte>) | PathEnd(rest: seq<byte>) | Unterminated

  function ParseComponent(input: seq<byte>, acc: Component, previousWasZero: bool): Parsed {
    if input == [] then (if previousWasZero then Unterminated else PathEnd([]))
    else if !previousWasZero && input[0] == 0 then ParseComponent(input[1..], acc, true)
    else if previousWasZero && input[0] == 2 then ParseComponent(input[1..], acc + [0], false)
    else if previousWasZero && input[0] == 1 then Component(acc, input[1..])
    else if previousWasZero && input[0] == 0 then PathEnd(input[1..])
    else ParseComponent(input[1..], acc + [input[0]], false)
  }

  lemma {:induction false} ParseEscaped(c: Component, rest: seq<byte>, acc: Component)
    ensures ParseComponent(EscapedComponent(c) + rest, acc, false) == Component(acc + c, rest)
  {
    EscapedComponentStep(c, rest);
    var input := EscapedComponent(c) + rest;
    if c == [] {
      assert input[1..] == [1] + rest && input[1..][1..] == rest;
      assert acc + c == acc;
    } else {
      var tail := EscapedComponent(c[1..]) + rest;
      ParseEscaped(c[1..], rest, acc + [c[0]]);
      assert acc + [c[0]] + c[1..] == acc + c;
      if c[0] == 0 {
        assert input[1..] == [2] + tail && input[1..][1..] == tail;
      } else {
        assert input[1..] == tail;
      }
    }
  }

  lemma ParseTerminator(rest: seq<byte>)
    ensures ParseComponent([0, 0] + rest, [], false) == PathEnd(rest)
  {
    assert ([0, 0] + rest)[1..] == [0] + rest;
    assert ([0] + rest)[1..] == rest;
  }

  /** The byte loop of the component reader. */
  method ComponentBytes(input: seq<byte>) returns (r: Option<Component>, rest: seq<byte>)
    requires !ParseComponent(input, [], false).Unterminated?
    ensures match ParseComponent(input, [], false)
            case Component(bytes, tail) => r == Some(bytes) && rest == tail
            case PathEnd(tail) => r == None && rest == tail
  {
    rest := input;
    var vec: Component := [];
    var previousWasZero := false;
    while rest != []
      invariant ParseComponent(input, [], false) == ParseComponent(rest, vec, previousWasZero)
      decreases |rest|
    {
      var b := rest[0];
      rest := rest[1..];
      if !previousWasZero && b == 0 {
        previousWasZero := true;
      } else if previousWasZero && b == 2 {
        vec := vec + [0];
        previousWasZero := false;
      } else if previousWasZero && b == 1 {
        return Some(vec), rest;
      } else if previousWasZero && b == 0 {
        return None, rest;
      } else {
        vec := vec + [b];
        previousWasZero := false;
      }
    }
    return None, rest;
  }

  /** Reading components until the path ends recovers the escaped path and what follows it. */
  method DecodePath(input: seq<byte>, ghost q: Path, ghost tail: seq<byte>) returns (p: Path, rest: seq<byte>)
    requires input == EscapedPath(q) + tail
    ensures p == q && rest == tail
  {
    p := [];
    rest := input;
    while true
      invariant |p| <= |q| && p == q[..|p|]
      invariant rest == EscapedPath(q[|p|..]) + tail
      decreases |q| - |p|
    {
      EscapedPathStep(q[|p|..], tail);
      if |p| == |q| {
        ParseTerminator(tail);
      } else {
        assert q[|p|..][1..] == q[|p| + 1..];
        ParseEscaped(q[|p|], EscapedPath(q[|p| + 1..]) + tail, []);
        assert [] + q[|p|] == q[|p|];
      }
      var component, after := ComponentBytes(rest);
      rest := after;
      match component
      case None => return;
      case Some(bytes) => p := p + [bytes];
    }
  }

  /** Decoding a key of the first tree inverts its encoding. */
  method DecodeSptEntryKey(width: nat, key: seq<byte>, ghost s: SubspaceId, ghost p: Path, ghost t: nat)
      returns (subspace: SubspaceId, path: Path, timestamp: nat)
    requires |s| == width && t < U64_LIMIT && key == SptKey(s, p, t)
    ensures (subspace, path, timestamp) == (s, p, t)
  {
    var be := BigEndian(t, 8);
    assert key == s + (EscapedPath(p) + be);
    assert key[..width] == s && key[width..] == EscapedPath(p) + be;
    subspace := key[..width];
    var rest;
    path, rest := DecodePath(key[width..], p, be);
    U64Range(t);
    BigEndianRoundTrip(t, 8);
    timestamp := FromBigEndian(rest);
  }

  /** Decoding a key of the second tree inverts its encoding. */
  method DecodeTspEntryKey(width: nat, key: seq<byte>, ghost s: SubspaceId, ghost p: Path, ghost t: nat)
      returns (timestamp: nat, subspace: SubspaceId, path: Path)
    requires |s| == width && t < U64_LIMIT && key == TspKey(s, p, t)
    ensures (subspace, path, timestamp) == (s, p, t)
  {
    var be := BigEndian(t, 8);
    assert key == be + (s + EscapedPath(p));
    assert key[..8] == be && key[8..] == s + EscapedPath(p);
    U64Range(t);
    BigEndianRoundTrip(t, 8);
    timestamp := FromBigEndian(key[..8]);
    var body := key[8..];
    assert body[..width] == s && body[width..] == EscapedPath(p) + [];
    subspace := body[..width];
    var rest;
    path, rest := DecodePath(body[width..], p, []);
  }

  /** Keys byte by byte: zero bytes are escaped, components and paths are ended. */
  lemma EncodedSptKeyExample()
    ensures SptKey([7], [[5, 0], []], 258) == [7, 5, 0, 2, 0, 1, 0, 1, 0, 0, 0, 0, 0, 0, 0, 0, 1, 2]
  {
    var p: Path, q: Path, none: Path := [[5, 0], []], [[]], [];
    assert p[1..] == q && q[1..] == none;
    var c: Component, z: Component, e: Component := [5, 0], [0], [];
    assert c[1..] == z && z[1..] == e && EscapedBytes(z) == [0, 2] && EscapedBytes(c) == [5, 0, 2];
    assert EscapedComponents(q) == [0, 1] && EscapedPath(p) == [5, 0, 2, 0, 1, 0, 1, 0, 0];
    EncodedTime();
  }

  lemma EncodedTspKeyExample()
    ensures TspKey([7], [[5]], 258) == [0, 0, 0, 0, 0, 0, 1, 2, 7, 5, 0, 1, 0, 0]
  {
    var r: Path, none: Path, f: Component, e: Component := [[5]], [], [5], [];
    assert r[1..] == none && f[1..] == e && EscapedBytes(f) == [5] && EscapedPath(r) == [5, 0, 1, 0, 0];
    EncodedTime();
  }

  lemma EncodedTime()
    ensures BigEndian(258, 8) == [0, 0, 0, 0, 0, 0, 1, 2]
  {
    assert BigEndian(0, 6) == [0, 0, 0, 0, 0, 0] by { assert BigEndian(0, 3) == [0, 0, 0]; }
    assert BigEndian(1, 7) == BigEndian(0, 6) + [1] && BigEndian(258, 8) == BigEndian(1, 7) + [2];
  }
}
