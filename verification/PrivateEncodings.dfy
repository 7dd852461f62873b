/** The encodings of paths and areas relative to an interest that is to stay private. */
module PrivateEncodings {
  import opened Wrappers
  import opened ByteStrings
  import opened Paths
  import opened Grouping
  import opened KeyCodec
  import opened PathEncodings

  // ---------------------------------------------------------------- paths

  datatype PathContext = PathContext(private_: Path, rel: Path)

  /** Nothing is encoded of a path that the private path and the reference do not determine together. */
  function EncodePrivatePath(path: Path, ctx: PathContext): Option<seq<byte>> {
    if !(ctx.rel <= path) || !Related(path, ctx.private_) then None
    else if |ctx.private_| <= |ctx.rel| then EncodeExtension(path, ctx.rel)
    else
      var common := CommonPrefixLength(path, ctx.private_);
      if common < |ctx.private_| then Some(EncodeU64(common))
      else
        var extension := EncodeExtension(path, ctx.private_);
        if extension.None? then None else Some(EncodeU64(common) + extension.value)
  }

  function DecodePrivatePath(lim: Limits, ctx: PathContext, input: seq<byte>): Decoded<Path> {
    if |ctx.private_| <= |ctx.rel| then DecodeExtension(lim, ctx.rel, input)
    else
      var common := DecodeU64(input);
      if common.None? then None
      else if common.value.0 >= |ctx.private_| then DecodeExtension(lim, ctx.private_, common.value.1)
      else Some((ctx.private_[..common.value.0], common.value.1))
  }

  /** Encoding succeeds exactly on paths that extend the reference and are related to the private
      path, and decoding inverts it on all of them. */
  lemma PrivatePathRoundTrip(lim: Limits, path: Path, ctx: PathContext, rest: seq<byte>)
    requires SmallLimits(lim) && ValidPath(lim, path)
    ensures var e := EncodePrivatePath(path, ctx);
      && (e.Some? <==> ctx.rel <= path && Related(path, ctx.private_))
      && (e.Some? ==> DecodePrivatePath(lim, ctx, e.value + rest) == Some((path, rest)))
  {
    if ctx.rel <= path && Related(path, ctx.private_) {
      if |ctx.private_| <= |ctx.rel| {
        ExtensionRoundTrip(lim, path, ctx.rel, rest);
      } else {
        var common := CommonPrefixLength(path, ctx.private_);
        if common < |ctx.private_| {
          U64RoundTrip(common, rest);
          assert forall i | 0 <= i < |path| && i < |ctx.private_| :: path[i] == ctx.private_[i];
          assert path == ctx.private_[..common];
        } else {
          var extension := EncodeExtension(path, ctx.private_).value;
          U64RoundTrip(common, extension + rest);
          assert (EncodeU64(common) + extension) + rest == EncodeU64(common) + (extension + rest);
          ExtensionRoundTrip(lim, path, ctx.private_, rest);
        }
      }
    }
  }

  // ---------------------------------------------------------------- areas

  datatype PrivateInterest = PrivateInterest(subspace: AreaSubspace, path: Path)

  datatype AreaContext = AreaContext(private_: PrivateInterest, rel: Area)

  predicate InterestAlmostIncludes(i: PrivateInterest, a: Area) {
    (i.subspace.Id? && a.subspace.Id? ==> i.subspace == a.subspace) && Related(i.path, a.path)
  }

  predicate Encodable(a: Area, ctx: AreaContext) {
    AlmostIncludesArea(ctx.rel, a) && InterestAlmostIncludes(ctx.private_, a)
  }

  /** A time as the smaller of its distances from both ends of the reference. */
  datatype TimeDiff = TimeDiff(fromStart: bool, diff: nat)

  function Nearest(t: nat, start: nat, end: nat): TimeDiff
    requires start <= t <= end
  {
    if t - start <= end - t then TimeDiff(true, t - start) else TimeDiff(false, end - t)
  }

  /** Fails where the arithmetic of the encoder underflows: for a start after the end of the reference. */
  function StartDiff(rel: Range<nat>, times: Range<nat>): Option<TimeDiff>
    requires TimesIncludeRange(rel, times)
  {
    match rel.end
    case Open => Some(TimeDiff(true, times.start - rel.start))
    case Closed(end) => if times.start > end then None else Some(Nearest(times.start, rel.start, end))
  }

  /** Fails where the arithmetic of the encoder underflows: for an end before the start of the reference. */
  function EndDiff(rel: Range<nat>, times: Range<nat>): Option<TimeDiff>
    requires TimesIncludeRange(rel, times)
  {
    match times.end
    case Open => Some(TimeDiff(false, 0))
    case Closed(t) =>
      if t < rel.start then None
      else match rel.end
        case Open => Some(TimeDiff(true, t - rel.start))
        case Closed(end) => Some(Nearest(t, rel.start, end))
  }

  function Bit(b: bool): nat {
    if b then 1 else 0
  }

  function EndTag(a: Area, endDiff: TimeDiff): (tag: nat)
    ensures tag < 4
  {
    if a.times.end.Open? then 0 else MinTag(endDiff.diff, 2)
  }

  /** Four flags, from the left, and two two-bit tags. */
  function HeaderByte(b0: bool, b1: bool, b2: bool, b3: bool, t0: nat, t1: nat): (h: byte)
    requires t0 < 4 && t1 < 4
  {
    128 * Bit(b0) + 64 * Bit(b1) + 32 * Bit(b2) + 16 * Bit(b3) + 4 * t0 + t1
  }

  function AreaHeader(a: Area, rel: Area, startDiff: TimeDiff, endDiff: TimeDiff): byte {
    HeaderByte(a.subspace != rel.subspace, a.subspace.Any?, startDiff.fromStart, endDiff.fromStart,
      MinTag(startDiff.diff, 2), EndTag(a, endDiff))
  }

  function EncodeSubspace(a: Area, rel: Area): seq<byte> {
    if a.subspace.Id? && rel.subspace != a.subspace then a.subspace.id else []
  }

  function EncodeEnd(a: Area, endDiff: TimeDiff): seq<byte> {
    if a.times.end.Open? then [] else EncodeCompact(endDiff.diff, 2)
  }

  function EncodePrivateArea(a: Area, ctx: AreaContext): Option<seq<byte>> {
    if !Encodable(a, ctx) then None
    else
      var startDiff, endDiff := StartDiff(ctx.rel.times, a.times), EndDiff(ctx.rel.times, a.times);
      var path := EncodePrivatePath(a.path, PathContext(ctx.private_.path, ctx.rel.path));
      if startDiff.None? || endDiff.None? || path.None? then None
      else Some(
        [AreaHeader(a, ctx.rel, startDiff.value, endDiff.value)] + (EncodeSubspace(a, ctx.rel)
        + (EncodeCompact(startDiff.value.diff, 2) + (EncodeEnd(a, endDiff.value) + path.value))))
  }

  /** A time from its distance; `None` where the checked arithmetic fails. */
  function ApplyDiff(rel: Range<nat>, fromStart: bool, diff: nat): Option<nat> {
    if fromStart then (if rel.start + diff < U64_LIMIT then Some(rel.start + diff) else None)
    else if rel.end.Open? || rel.end.end < diff then None
    else Some(rel.end.end - diff)
  }

  function DecodeSubspace(width: nat, header: byte, rel: Area, input: seq<byte>): Decoded<AreaSubspace> {
    var notEqual, isAny := header / 128 % 2 == 1, header / 64 % 2 == 1;
    if !isAny && notEqual then (if |input| < width then None else Some((Id(input[..width]), input[width..])))
    else if isAny then Some((Any, input))
    else Some((rel.subspace, input))
  }

  function DecodeStart(header: byte, rel: Range<nat>, input: seq<byte>): Decoded<nat> {
    var diff := DecodeCompact(header / 4 % 4, 2, input);
    if diff.None? then None
    else
      var start := ApplyDiff(rel, header / 32 % 2 == 1, diff.value.0);
      if start.None? then None else Some((start.value, diff.value.1))
  }

  function DecodeEnd(header: byte, rel: Range<nat>, input: seq<byte>): Decoded<RangeEnd<nat>> {
    var fromStart := header / 16 % 2 == 1;
    if rel.end.Open? && !fromStart then Some((Open, input))
    else
      var diff := DecodeCompact(header % 4, 2, input);
      if diff.None? then None
      else
        var end := ApplyDiff(rel, fromStart, diff.value.0);
        if end.None? then None else Some((Closed(end.value), diff.value.1))
  }

  function DecodePrivateArea(lim: Limits, width: nat, ctx: AreaContext, input: seq<byte>): Decoded<Area> {
    if input == [] then None
    else
      var header := input[0];
      var subspace := DecodeSubspace(width, header, ctx.rel, input[1..]);
      if subspace.None? then None
      else
        var start := DecodeStart(header, ctx.rel.times, subspace.value.1);
        if start.None? then None
        else
          var end := DecodeEnd(header, ctx.rel.times, start.value.1);
          if end.None? then None
          else
            var path := DecodePrivatePath(lim, PathContext(ctx.private_.path, ctx.rel.path), end.value.1);
            if path.None? || (end.value.0.Closed? && start.value.0 > end.value.0.end) then None
            else Some((Area(subspace.value.0, path.value.0, Range(start.value.0, end.value.0)), path.value.1))
  }

  // ---------------------------------------------------------------- round trip

  /** What the decoder finds in the header. */
  lemma HeaderFields(a: Area, rel: Area, startDiff: TimeDiff, endDiff: TimeDiff)
    ensures var h := AreaHeader(a, rel, startDiff, endDiff);
      && (h / 128 % 2 == 1 <==> a.subspace != rel.subspace) && (h / 64 % 2 == 1 <==> a.subspace.Any?)
      && (h / 32 % 2 == 1 <==> startDiff.fromStart) && (h / 16 % 2 == 1 <==> endDiff.fromStart)
      && h / 4 % 4 == MinTag(startDiff.diff, 2) && h % 4 == EndTag(a, endDiff)
  {
    HeaderBits(a.subspace != rel.subspace, a.subspace.Any?, startDiff.fromStart, endDiff.fromStart,
      MinTag(startDiff.diff, 2), EndTag(a, endDiff));
  }

  lemma HeaderBits(b0: bool, b1: bool, b2: bool, b3: bool, t0: nat, t1: nat)
    requires t0 < 4 && t1 < 4
    ensures var h := HeaderByte(b0, b1, b2, b3, t0, t1);
      && (h / 128 % 2 == 1 <==> b0) && (h / 64 % 2 == 1 <==> b1) && (h / 32 % 2 == 1 <==> b2)
      && (h / 16 % 2 == 1 <==> b3) && h / 4 % 4 == t0 && h % 4 == t1
  {
    var h, high := HeaderByte(b0, b1, b2, b3, t0, t1), 8 * Bit(b0) + 4 * Bit(b1) + 2 * Bit(b2) + Bit(b3);
    assert h == 16 * high + (4 * t0 + t1);
    assert h / 4 == 4 * high + t0;
    assert h / 16 == high && h / 32 == 4 * Bit(b0) + 2 * Bit(b1) + Bit(b2);
    assert h / 64 == 2 * Bit(b0) + Bit(b1) && h / 128 == Bit(b0);
  }

  /** A range of times that ends before it starts. */
  predicate Inverted(times: Range<nat>) {
    times.end.Closed? && times.end.end < times.start
  }

  lemma StartRoundTrip(a: Area, ctx: AreaContext, h: byte, rest: seq<byte>)
    requires TimesIncludeRange(ctx.rel.times, a.times) && ValidTimes(ctx.rel.times) && ValidTimes(a.times)
    requires StartDiff(ctx.rel.times, a.times).Some?
    requires var d := StartDiff(ctx.rel.times, a.times).value;
      (h / 32 % 2 == 1 <==> d.fromStart) && h / 4 % 4 == MinTag(d.diff, 2)
    ensures DecodeStart(h, ctx.rel.times, EncodeCompact(StartDiff(ctx.rel.times, a.times).value.diff, 2) + rest)
      == Some((a.times.start, rest))
  {
    CompactRoundTrip(StartDiff(ctx.rel.times, a.times).value.diff, 2, rest);
  }

  lemma EndDiffApplies(rel: Range<nat>, times: Range<nat>)
    requires TimesIncludeRange(rel, times) && ValidTimes(rel) && ValidTimes(times) && times.end.Closed?
    requires EndDiff(rel, times).Some?
    ensures var d := EndDiff(rel, times).value;
      d.diff < U64_LIMIT && ApplyDiff(rel, d.fromStart, d.diff) == Some(times.end.end) && (rel.end.Open? ==> d.fromStart)
  {}

  lemma EndRoundTrip(a: Area, ctx: AreaContext, h: byte, rest: seq<byte>)
    requires TimesIncludeRange(ctx.rel.times, a.times) && ValidTimes(ctx.rel.times) && ValidTimes(a.times)
    requires EndDiff(ctx.rel.times, a.times).Some?
    requires var d := EndDiff(ctx.rel.times, a.times).value;
      (h / 16 % 2 == 1 <==> d.fromStart) && h % 4 == EndTag(a, d)
    ensures var d := EndDiff(ctx.rel.times, a.times).value;
      DecodeEnd(h, ctx.rel.times, EncodeEnd(a, d) + rest) == Some((a.times.end, rest))
  {
    var d := EndDiff(ctx.rel.times, a.times).value;
    if a.times.end.Open? {
      assert [] + rest == rest;
    } else {
      EndDiffApplies(ctx.rel.times, a.times);
      CompactRoundTrip(d.diff, 2, rest);
    }
  }

  lemma SubspaceRoundTrip(a: Area, ctx: AreaContext, width: nat, h: byte, rest: seq<byte>)
    requires a.subspace.Id? ==> |a.subspace.id| == width
    requires (h / 128 % 2 == 1 <==> a.subspace != ctx.rel.subspace) && (h / 64 % 2 == 1 <==> a.subspace.Any?)
    ensures DecodeSubspace(width, h, ctx.rel, EncodeSubspace(a, ctx.rel) + rest) == Some((a.subspace, rest))
  {
    var input := EncodeSubspace(a, ctx.rel) + rest;
    if a.subspace.Id? && ctx.rel.subspace != a.subspace {
      assert input[..width] == a.subspace.id && input[width..] == rest;
    } else {
      assert input == rest;
    }
  }

  /** An area is encoded if and only if it lies within the reference and meets the interest, subspaces aside
      that are not given, and neither of its times lies beyond the other end of the reference. */
  lemma PrivateAreaEncodedIff(a: Area, ctx: AreaContext)
    ensures EncodePrivateArea(a, ctx).Some? <==>
      var rel, interest := ctx.rel, ctx.private_;
      && (a.subspace.Id? && rel.subspace.Id? ==> a.subspace.id == rel.subspace.id)
      && (a.subspace.Id? && interest.subspace.Id? ==> a.subspace.id == interest.subspace.id)
      && rel.path <= a.path && (a.path <= interest.path || interest.path <= a.path)
      && rel.times.start <= a.times.start
      && (rel.times.end.Closed? ==> a.times.end.Closed? && a.times.end.end <= rel.times.end.end)
      && (rel.times.end.Closed? ==> a.times.start <= rel.times.end.end)
      && (a.times.end.Closed? ==> rel.times.start <= a.times.end.end)
  {}

  /** An area that its context almost includes survives encoding and decoding if and only if its
      times do not end before they start. */
  lemma PrivateAreaRoundTripIff(lim: Limits, width: nat, a: Area, ctx: AreaContext, rest: seq<byte>)
    requires SmallLimits(lim) && ValidArea(lim, width, a) && ValidTimes(a.times) && ValidTimes(ctx.rel.times)
    requires Encodable(a, ctx)
    ensures var e := EncodePrivateArea(a, ctx);
      e.Some? && DecodePrivateArea(lim, width, ctx, e.value + rest) == Some((a, rest)) <==> !Inverted(a.times)
  {
    var pctx := PathContext(ctx.private_.path, ctx.rel.path);
    PrivatePathRoundTrip(lim, a.path, pctx, rest);
    var start, end := StartDiff(ctx.rel.times, a.times), EndDiff(ctx.rel.times, a.times);
    if start.Some? && end.Some? {
      var h := AreaHeader(a, ctx.rel, start.value, end.value);
      HeaderFields(a, ctx.rel, start.value, end.value);
      var p := EncodePrivatePath(a.path, pctx).value;
      var e, s := EncodeEnd(a, end.value), EncodeCompact(start.value.diff, 2);
      var id := EncodeSubspace(a, ctx.rel);
      Regroup([h], id + (s + (e + p)), rest);
      Regroup(id, s + (e + p), rest);
      Regroup(s, e + p, rest);
      Regroup(e, p, rest);
      Split([h], id + (s + (e + (p + rest))));
      SubspaceRoundTrip(a, ctx, width, h, s + (e + (p + rest)));
      StartRoundTrip(a, ctx, h, e + (p + rest));
      EndRoundTrip(a, ctx, h, p + rest);
    }
  }

  // ---------------------------------------------------------------- what is decoded

  /** A decoded path fits the limits. It extends the reference if the private path is no longer than that,
      and is related to the private path otherwise. */
  lemma DecodedPrivatePathValid(lim: Limits, ctx: PathContext, input: seq<byte>)
    requires ValidPath(lim, ctx.private_) && ValidPath(lim, ctx.rel) && DecodePrivatePath(lim, ctx, input).Some?
    ensures var p := DecodePrivatePath(lim, ctx, input).value.0;
      ValidPath(lim, p) && if |ctx.private_| <= |ctx.rel| then ctx.rel <= p else Related(p, ctx.private_)
  {
    if |ctx.private_| <= |ctx.rel| {
      DecodedExtensionValid(lim, ctx.rel, input);
    } else {
      var (n, after) := DecodeU64(input).value;
      if n >= |ctx.private_| {
        DecodedExtensionValid(lim, ctx.private_, after);
      } else {
        PathLengthConcat(ctx.private_[..n], ctx.private_[n..]);
        assert ctx.private_ == ctx.private_[..n] + ctx.private_[n..];
      }
    }
  }

  /** Of a private path beyond the reference, a decoded path keeps the reference exactly if the number in front
      says so. Nothing else is checked. */
  lemma DecodedPathExtendsIff(lim: Limits, ctx: PathContext, input: seq<byte>)
    requires ctx.rel <= ctx.private_ && |ctx.rel| < |ctx.private_| && DecodePrivatePath(lim, ctx, input).Some?
    ensures ctx.rel <= DecodePrivatePath(lim, ctx, input).value.0 <==> |ctx.rel| <= DecodeU64(input).value.0
  {
    var n := DecodeU64(input).value.0;
    if n < |ctx.private_| { assert |ctx.rel| <= n ==> ctx.private_[..n][..|ctx.rel|] == ctx.rel; }
  }

  /** A decoded area is valid, and does not end before it starts. */
  lemma DecodedPrivateAreaValid(lim: Limits, width: nat, ctx: AreaContext, input: seq<byte>)
    requires ValidArea(lim, width, ctx.rel) && ValidTimes(ctx.rel.times) && ValidPath(lim, ctx.private_.path)
    requires DecodePrivateArea(lim, width, ctx, input).Some?
    ensures var a := DecodePrivateArea(lim, width, ctx, input).value.0;
      ValidArea(lim, width, a) && ValidTimes(a.times) && !Inverted(a.times)
  {
    var header := input[0];
    var subspace := DecodeSubspace(width, header, ctx.rel, input[1..]).value;
    var start := DecodeStart(header, ctx.rel.times, subspace.1).value;
    var end := DecodeEnd(header, ctx.rel.times, start.1).value;
    DecodedPrivatePathValid(lim, PathContext(ctx.private_.path, ctx.rel.path), end.1);
  }

  // ---------------------------------------------------------------- examples

  /** A path and an area, byte by byte. */
  lemma EncodedPrivateExamples()
    ensures EncodePrivatePath([[1]], PathContext([[1], [2]], [])) == Some([1])
    ensures var a := Area(Id([7]), [], Range(3, Closed(9)));
      var ctx := AreaContext(PrivateInterest(Id([7]), []), Area(Any, [], Range(0, Closed(10))));
      EncodePrivateArea(a, ctx) == Some([160, 7, 3, 1, 0])
    ensures var a := Area(Any, [], Range(3, Open));
      var ctx := AreaContext(PrivateInterest(Any, []), Area(Any, [], Range(0, Open)));
      EncodePrivateArea(a, ctx) == Some([96, 3, 0])
  {
    var one: Path, both: Path, none: Path := [[1]], [[1], [2]], [];
    assert one[1..] == none && CommonPrefixLength(none, both[1..]) == 0 && CommonPrefixLength(one, both) == 1;
    assert none <= one && one <= both && Related(one, both) && EncodeU64(1) == [1];
    assert BigEndian(3, 1) == [3] && BigEndian(1, 1) == [1];
    assert none[0..] == none && EncodePath(none) == [0];
    assert [160] + ([7] + ([3] + ([1] + [0]))) == [160, 7, 3, 1, 0];
    assert [96] + ([] + ([3] + ([] + [0]))) == [96, 3, 0];
  }

  /** Of two equal distances, that from the start is encoded. */
  lemma EncodedMiddle()
    ensures var a := Area(Any, [], Range(5, Closed(5)));
      var ctx := AreaContext(PrivateInterest(Any, []), Area(Any, [], Range(0, Closed(10))));
      EncodePrivateArea(a, ctx) == Some([112, 5, 5, 0])
  {
    var none: Path := [];
    assert none <= none && none[0..] == none && EncodePath(none) == [0];
    assert BigEndian(5, 1) == [5] && [112] + ([] + ([5] + ([5] + [0]))) == [112, 5, 5, 0];
  }
}
