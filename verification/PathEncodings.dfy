/** Compact integers, and the encoding of paths as lists of components. */
module PathEncodings {
  import opened Wrappers
  import opened ByteStrings
  import opened Paths
  import opened KeyCodec

  /** Decoding yields a value and the bytes after it, or fails. */
  type Decoded<T> = Option<(T, seq<byte>)>

  // ---------------------------------------------------------------- compact integers

  /** Bytes that a number takes beside its tag, if it does not fit into the tag. */
  function ByteWidth(n: nat): nat {
    if n < 256 then 1 else if n < 65536 then 2 else if n < 0x1_0000_0000 then 4 else 8
  }

  /** Tags below this number stand for themselves; the four above it announce 1, 2, 4 or 8 bytes. */
  function FirstWidthTag(tagBits: nat): nat
    requires 2 <= tagBits <= 8
  {
    match tagBits case 2 => 0 case 3 => 4 case 4 => 12 case 5 => 28 case 6 => 60 case 7 => 124 case _ => 252
  }

  function MinTag(n: nat, tagBits: nat): (tag: nat)
    requires 2 <= tagBits <= 8
    ensures tag < FirstWidthTag(tagBits) + 4
  {
    var first := FirstWidthTag(tagBits);
    if n < first then n
    else match ByteWidth(n) case 1 => first case 2 => first + 1 case 4 => first + 2 case _ => first + 3
  }

  function EncodeCompact(n: nat, tagBits: nat): seq<byte>
    requires 2 <= tagBits <= 8
  {
    if n < FirstWidthTag(tagBits) then [] else BigEndian(n, ByteWidth(n))
  }

  function TagBytes(tag: nat, tagBits: nat): nat
    requires 2 <= tagBits <= 8
  {
    var first := FirstWidthTag(tagBits);
    if tag < first then 0 else match tag - first case 0 => 1 case 1 => 2 case 2 => 4 case _ => 8
  }

  function DecodeCompact(tag: nat, tagBits: nat, input: seq<byte>): Decoded<nat>
    requires 2 <= tagBits <= 8
  {
    if tag < FirstWidthTag(tagBits) then Some((tag, input))
    else
      var width := TagBytes(tag, tagBits);
      if |input| < width then None else Some((FromBigEndian(input[..width]), input[width..]))
  }

  lemma ByteWidthFits(n: nat)
    requires n < U64_LIMIT
    ensures n < Pow256(ByteWidth(n))
  {
    assert Pow256(1) == 256;
    assert Pow256(2) == 256 * Pow256(1);
    assert Pow256(4) == 256 * (256 * Pow256(2));
    U64Range(n);
  }

  lemma CompactRoundTrip(n: nat, tagBits: nat, rest: seq<byte>)
    requires n < U64_LIMIT && 2 <= tagBits <= 8
    ensures DecodeCompact(MinTag(n, tagBits), tagBits, EncodeCompact(n, tagBits) + rest) == Some((n, rest))
  {
    if n < FirstWidthTag(tagBits) {
      assert [] + rest == rest;
    } else {
      var w := ByteWidth(n);
      ByteWidthFits(n);
      BigEndianRoundTrip(n, w);
      assert TagBytes(MinTag(n, tagBits), tagBits) == w;
      assert (BigEndian(n, w) + rest)[..w] == BigEndian(n, w) && (BigEndian(n, w) + rest)[w..] == rest;
    }
  }

  /** What the tag and the bytes after it say: a number below the last four tags is the tag itself. The last
      four tags announce 1, 2, 4 or 8 bytes, the fewest that hold the number, with the greatest digit first. */
  lemma CompactMeaning(n: nat, tagBits: nat)
    requires n < U64_LIMIT && 2 <= tagBits <= 8
    ensures var top := [4, 8, 16, 32, 64, 128, 256][tagBits - 2];
      var tag, bytes := MinTag(n, tagBits), EncodeCompact(n, tagBits);
      && (n < top - 4 ==> tag == n && bytes == [])
      && (n >= top - 4 ==> FromBigEndian(bytes) == n)
      && (n >= top - 4 && n < 0x100 ==> tag == top - 4 && |bytes| == 1)
      && (n >= top - 4 && 0x100 <= n < 0x1_0000 ==> tag == top - 3 && |bytes| == 2)
      && (0x1_0000 <= n < 0x1_0000_0000 ==> tag == top - 2 && |bytes| == 4)
      && (0x1_0000_0000 <= n ==> tag == top - 1 && |bytes| == 8)
  {
    ByteWidthFits(n);
    BigEndianRoundTrip(n, ByteWidth(n));
  }

  /** Each of the last four tags is decoded from the bytes it announces, also where fewer would hold the
      number; and where bytes are missing, nothing is. */
  lemma DecodedFromAnyWidth(n: nat, tagBits: nat, i: nat, input: seq<byte>, rest: seq<byte>)
    requires 2 <= tagBits <= 8 && i < 4 && n < Pow256([1, 2, 4, 8][i])
    ensures var tag, width := [4, 8, 16, 32, 64, 128, 256][tagBits - 2] - 4 + i, [1, 2, 4, 8][i];
      && DecodeCompact(tag, tagBits, BigEndian(n, width) + rest) == Some((n, rest))
      && (DecodeCompact(tag, tagBits, input).None? <==> |input| < width)
  {
    var width := [1, 2, 4, 8][i];
    BigEndianRoundTrip(n, width);
    Split(BigEndian(n, width), rest);
  }

  /** The digits of a number: the last byte is the lowest one. */
  lemma BigEndianDigits(n: nat)
    requires n < 0x1_0000
    ensures BigEndian(n, 2) == [n / 256, n % 256]
  {
    assert BigEndian(n / 256, 1) == BigEndian(n / 256 / 256, 0) + [n / 256 % 256];
  }

  /** Whatever is decoded fits into a machine word. */
  lemma DecodedCompactFits(tag: nat, tagBits: nat, input: seq<byte>)
    requires 2 <= tagBits <= 8 && tag < 256
    ensures DecodeCompact(tag, tagBits, input).Some? ==> DecodeCompact(tag, tagBits, input).value.0 < U64_LIMIT
  {
    var width := TagBytes(tag, tagBits);
    if tag >= FirstWidthTag(tagBits) && |input| >= width {
      FromBigEndianBound(input[..width]);
      U64Range(FromBigEndian(input[..width]));
      assert Pow256(1) == 256 && Pow256(2) == 256 * Pow256(1) && Pow256(4) == 256 * (256 * Pow256(2));
    }
  }

  /** A number with an eight-bit tag in front. */
  function EncodeU64(n: nat): seq<byte> {
    [MinTag(n, 8)] + EncodeCompact(n, 8)
  }

  function DecodeU64(input: seq<byte>): Decoded<nat> {
    if input == [] then None else DecodeCompact(input[0], 8, input[1..])
  }

  lemma U64RoundTrip(n: nat, rest: seq<byte>)
    requires n < U64_LIMIT
    ensures DecodeU64(EncodeU64(n) + rest) == Some((n, rest))
  {
    CompactRoundTrip(n, 8, rest);
    assert (EncodeU64(n) + rest)[1..] == EncodeCompact(n, 8) + rest;
  }

  lemma Split(a: seq<byte>, b: seq<byte>)
    ensures (a + b)[..|a|] == a && (a + b)[|a|..] == b
  {}

  // ---------------------------------------------------------------- components

  /** Every component but the last is preceded by its length. */
  function EncodeComponents(cs: Path): seq<byte> {
    if cs == [] then []
    else if |cs| == 1 then cs[0]
    else EncodeU64(|cs[0]|) + (cs[0] + EncodeComponents(cs[1..]))
  }

  /** `count` components of `length` bytes in all. */
  function DecodeComponents(mcl: nat, count: nat, length: nat, input: seq<byte>): Decoded<Path> {
    if count == 0 then
      if length > 0 then None else Some(([], input))
    else if count == 1 then
      if length > mcl || |input| < length then None else Some(([input[..length]], input[length..]))
    else
      var len := DecodeU64(input);
      if len.None? || len.value.0 > mcl || len.value.0 > length || |len.value.1| < len.value.0 then None
      else
        var (n, after) := len.value;
        var tail := DecodeComponents(mcl, count - 1, length - n, after[n..]);
        if tail.None? then None else Some(([after[..n]] + tail.value.0, tail.value.1))
  }

  lemma {:induction false} ComponentsRoundTrip(mcl: nat, cs: Path, rest: seq<byte>)
    requires mcl < U64_LIMIT && forall i | 0 <= i < |cs| :: |cs[i]| <= mcl
    ensures DecodeComponents(mcl, |cs|, PathLength(cs), EncodeComponents(cs) + rest) == Some((cs, rest))
  {
    if cs == [] {
      assert [] + rest == rest;
    } else if |cs| == 1 {
      LastComponent(mcl, cs, rest);
    } else {
      ComponentsRoundTrip(mcl, cs[1..], rest);
      MoreComponents(mcl, cs, EncodeComponents(cs[1..]), rest);
    }
  }

  lemma LastComponent(mcl: nat, cs: Path, rest: seq<byte>)
    requires |cs| == 1 && |cs[0]| <= mcl
    ensures DecodeComponents(mcl, 1, PathLength(cs), cs[0] + rest) == Some((cs, rest))
  {
    assert cs[1..] == [] && PathLength(cs) == |cs[0]| && cs == [cs[0]];
    Split(cs[0], rest);
  }

  lemma MoreComponents(mcl: nat, cs: Path, more: seq<byte>, rest: seq<byte>)
    requires |cs| > 1 && |cs[0]| <= mcl < U64_LIMIT
    requires DecodeComponents(mcl, |cs| - 1, PathLength(cs[1..]), more + rest) == Some((cs[1..], rest))
    ensures DecodeComponents(mcl, |cs|, PathLength(cs), (EncodeU64(|cs[0]|) + (cs[0] + more)) + rest) == Some((cs, rest))
  {
    var c := cs[0];
    Regroup(EncodeU64(|c|), c + more, rest);
    Regroup(c, more, rest);
    U64RoundTrip(|c|, c + (more + rest));
    Split(c, more + rest);
    assert cs == [c] + cs[1..];
  }

  // ---------------------------------------------------------------- paths

  /** Total length and number of components, behind a byte with both tags. */
  function EncodeCounts(length: nat, count: nat): seq<byte> {
    [16 * MinTag(length, 4) + MinTag(count, 4)] + (EncodeCompact(length, 4) + EncodeCompact(count, 4))
  }

  function DecodeCounts(input: seq<byte>): Decoded<(nat, nat)> {
    if input == [] then None
    else
      var length := DecodeCompact(input[0] / 16, 4, input[1..]);
      if length.None? then None
      else
        var count := DecodeCompact(input[0] % 16, 4, length.value.1);
        if count.None? then None else Some(((length.value.0, count.value.0), count.value.1))
  }

  lemma CountsRoundTrip(length: nat, count: nat, rest: seq<byte>)
    requires length < U64_LIMIT && count < U64_LIMIT
    ensures DecodeCounts(EncodeCounts(length, count) + rest) == Some(((length, count), rest))
  {
    var t, u := MinTag(length, 4), MinTag(count, 4);
    var h, l, n := 16 * t + u, EncodeCompact(length, 4), EncodeCompact(count, 4);
    assert h / 16 == t && h % 16 == u;
    Regroup([h], l + n, rest);
    Regroup(l, n, rest);
    Split([h], l + (n + rest));
    CompactRoundTrip(length, 4, n + rest);
    CompactRoundTrip(count, 4, rest);
  }

  function EncodePath(p: Path): seq<byte> {
    EncodeCounts(PathLength(p), |p|) + EncodeComponents(p)
  }

  function DecodePath(lim: Limits, input: seq<byte>): Decoded<Path> {
    var counts := DecodeCounts(input);
    if counts.None? then None
    else
      var (length, count) := counts.value.0;
      if length > lim.mpl || count > lim.mcc then None
      else DecodeComponents(lim.mcl, count, length, counts.value.1)
  }

  /** The limits of any path fit into machine words. */
  predicate SmallLimits(lim: Limits) {
    lim.mcl < U64_LIMIT && lim.mcc < U64_LIMIT && lim.mpl < U64_LIMIT
  }

  lemma PathRoundTrip(lim: Limits, p: Path, rest: seq<byte>)
    requires SmallLimits(lim) && ValidPath(lim, p)
    ensures DecodePath(lim, EncodePath(p) + rest) == Some((p, rest))
  {
    var cs := EncodeComponents(p);
    Regroup(EncodeCounts(PathLength(p), |p|), cs, rest);
    CountsRoundTrip(PathLength(p), |p|, cs + rest);
    ComponentsRoundTrip(lim.mcl, p, rest);
  }

  /** A path that extends another one is encoded by what it adds. */
  function EncodeExtension(path: Path, base: Path): Option<seq<byte>> {
    if base <= path then Some(EncodePath(path[|base|..])) else None
  }

  function DecodeExtension(lim: Limits, base: Path, input: seq<byte>): Decoded<Path> {
    var suffix := DecodePath(lim, input);
    if suffix.None? then None
    else
      var path := base + suffix.value.0;
      if |path| > lim.mcc || PathLength(path) > lim.mpl then None else Some((path, suffix.value.1))
  }

  lemma ExtensionRoundTrip(lim: Limits, path: Path, base: Path, rest: seq<byte>)
    requires SmallLimits(lim) && ValidPath(lim, path) && base <= path
    ensures DecodeExtension(lim, base, EncodeExtension(path, base).value + rest) == Some((path, rest))
  {
    var suffix := path[|base|..];
    PathLengthConcat(base, suffix);
    assert path == base + suffix;
    PathRoundTrip(lim, suffix, rest);
  }

  // ---------------------------------------------------------------- paths relative to paths

  function {:tailrecursion false} CommonPrefixLength<T(==)>(p: seq<T>, q: seq<T>): (n: nat)
    ensures n <= |p| && n <= |q| && p[..n] == q[..n]
    ensures n < |p| && n < |q| ==> p[n] != q[n]
  {
    if p == [] || q == [] || p[0] != q[0] then 0
    else
      var n := CommonPrefixLength(p[1..], q[1..]);
      assert p[..n + 1] == [p[0]] + p[1..][..n] && q[..n + 1] == [q[0]] + q[1..][..n];
      n + 1
  }

  /** The length of the longest common prefix, and the components after it. */
  function EncodeRelativePath(p: Path, reference: Path): seq<byte> {
    var common := CommonPrefixLength(p, reference);
    EncodeU64(common) + EncodePath(p[common..])
  }

  function DecodeRelativePath(lim: Limits, reference: Path, input: seq<byte>): Decoded<Path> {
    var common := DecodeU64(input);
    if common.None? then None
    else
      var counts := DecodeCounts(common.value.1);
      if counts.None? || common.value.0 > |reference| then None
      else
        var prefix := reference[..common.value.0];
        var (length, count) := counts.value.0;
        if PathLength(prefix) + length > lim.mpl || |prefix| + count > lim.mcc then None
        else
          var suffix := DecodeComponents(lim.mcl, count, length, counts.value.1);
          if suffix.None? then None else Some((prefix + suffix.value.0, suffix.value.1))
  }

  lemma RelativePathRoundTrip(lim: Limits, p: Path, reference: Path, rest: seq<byte>)
    requires SmallLimits(lim) && ValidPath(lim, p)
    ensures DecodeRelativePath(lim, reference, EncodeRelativePath(p, reference) + rest) == Some((p, rest))
  {
    var common := CommonPrefixLength(p, reference);
    var suffix := p[common..];
    var counts, cs := EncodeCounts(PathLength(suffix), |suffix|), EncodeComponents(suffix);
    PathLengthConcat(p[..common], suffix);
    assert p == p[..common] + suffix;
    Regroup(EncodeU64(common), counts + cs, rest);
    Regroup(counts, cs, rest);
    U64RoundTrip(common, counts + (cs + rest));
    CountsRoundTrip(PathLength(suffix), |suffix|, cs + rest);
    ComponentsRoundTrip(lim.mcl, suffix, rest);
  }

  // ---------------------------------------------------------------- whatever is decoded is valid

  /** So many components, none too long, of so many bytes in all. */
  predicate FitsCounts(mcl: nat, p: Path, count: nat, length: nat) {
    match count
    case 0 => p == [] && length == 0
    case _ => |p| == count && PathLength(p) == length && forall i | 0 <= i < |p| :: |p[i]| <= mcl
  }

  lemma ConsFits(mcl: nat, c: Component, tail: Path, count: nat, length: nat)
    requires FitsCounts(mcl, tail, count, length) && |c| <= mcl
    ensures FitsCounts(mcl, [c] + tail, count + 1, |c| + length)
  {
    assert ([c] + tail)[1..] == tail;
  }

  /** The first component of a decoded path, and how the others were decoded. */
  lemma FirstDecoded(mcl: nat, count: nat, length: nat, input: seq<byte>) returns (c: Component, rest: seq<byte>)
    requires count > 0 && DecodeComponents(mcl, count, length, input).Some?
    ensures |c| <= mcl && |c| <= length
    ensures DecodeComponents(mcl, count - 1, length - |c|, rest).Some?
    ensures DecodeComponents(mcl, count, length, input).value.0 == [c] + DecodeComponents(mcl, count - 1, length - |c|, rest).value.0
  {
    if count == 1 {
      c, rest := input[..length], [];
    } else {
      var (n, after) := DecodeU64(input).value;
      c, rest := after[..n], after[n..];
    }
  }

  lemma {:induction false} DecodedComponentsValid(mcl: nat, count: nat, length: nat, input: seq<byte>)
    requires DecodeComponents(mcl, count, length, input).Some?
    ensures FitsCounts(mcl, DecodeComponents(mcl, count, length, input).value.0, count, length)
    decreases count
  {
    if count > 0 {
      var c, rest := FirstDecoded(mcl, count, length, input);
      DecodedComponentsValid(mcl, count - 1, length - |c|, rest);
      ConsFits(mcl, c, DecodeComponents(mcl, count - 1, length - |c|, rest).value.0, count - 1, length - |c|);
    }
  }

  lemma DecodedRelativePathValid(lim: Limits, reference: Path, input: seq<byte>)
    requires ValidPath(lim, reference) && DecodeRelativePath(lim, reference, input).Some?
    ensures ValidPath(lim, DecodeRelativePath(lim, reference, input).value.0)
  {
    var common := DecodeU64(input).value;
    var counts := DecodeCounts(common.1).value;
    var prefix := reference[..common.0];
    var suffix := DecodeComponents(lim.mcl, counts.0.1, counts.0.0, counts.1);
    DecodedComponentsValid(lim.mcl, counts.0.1, counts.0.0, counts.1);
    PathLengthConcat(prefix, suffix.value.0);
    ConcatValid(lim, reference, common.0, suffix.value.0, counts.0.1, counts.0.0);
  }

  lemma DecodedExtensionValid(lim: Limits, base: Path, input: seq<byte>)
    requires ValidPath(lim, base) && DecodeExtension(lim, base, input).Some?
    ensures ValidPath(lim, DecodeExtension(lim, base, input).value.0) && base <= DecodeExtension(lim, base, input).value.0
  {
    var counts := DecodeCounts(input).value;
    DecodedComponentsValid(lim.mcl, counts.0.1, counts.0.0, counts.1);
  }

  lemma ConcatValid(lim: Limits, reference: Path, n: nat, suffix: Path, count: nat, length: nat)
    requires ValidPath(lim, reference) && n <= |reference| && FitsCounts(lim.mcl, suffix, count, length)
    requires PathLength(reference[..n]) + length <= lim.mpl && n + count <= lim.mcc
    ensures ValidPath(lim, reference[..n] + suffix)
  {
    PathLengthConcat(reference[..n], suffix);
  }

  // ---------------------------------------------------------------- examples

  /** Some numbers, a path, and a path relative to another one, byte by byte. */
  lemma EncodedExamples()
    ensures EncodeU64(0) == [0] && EncodeU64(251) == [251] && EncodeU64(252) == [252, 252]
    ensures EncodeU64(256) == [253, 1, 0]
    ensures EncodePath([]) == [0]
    ensures EncodePath([[1, 2], [3]]) == [50, 2, 1, 2, 3]
    ensures EncodeRelativePath([[1], [2]], [[1], [9]]) == [1, 17, 2]
  {
    BigEndianDigits(256);
    assert BigEndian(252, 1) == [252];
    var p, last: Path := [[1, 2], [3]], [[3]];
    assert p[1..] == last && last[1..] == [] && PathLength(last) == 1;
    assert EncodeComponents(p) == EncodeU64(2) + ([1, 2] + [3]);
    var q: Path, r: Path, two: Path, nine: Path := [[1], [2]], [[1], [9]], [[2]], [[9]];
    assert q[1..] == two && r[1..] == nine && two[1..] == [] && PathLength(two) == 1;
    assert CommonPrefixLength(two, nine) == 0 && CommonPrefixLength(q, r) == 1;
  }
}
