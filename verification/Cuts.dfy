/** Cutting a range of times into slices, along a walk over entries by their times. */
module Cuts {
  import opened Wrappers
  import opened Grouping

  /** Before its end, or not. */
  predicate Before(t: nat, end: RangeEnd<nat>) {
    end.Closed? ==> t < end.end
  }

  /** The times along a walk: they do not decrease, the first `total` of them lie before the end, and
      none lies behind it. */
  predicate WalkTimes(times: Range<nat>, stamps: seq<nat>, total: nat) {
    && total <= |stamps| && (forall i, j | 0 <= i < j < |stamps| :: stamps[i] <= stamps[j])
    && (forall j | 0 <= j < |stamps| :: times.start <= stamps[j])
    && (forall j | 0 <= j < total :: Before(stamps[j], times.end))
    && (times.end.Closed? ==> forall j | 0 <= j < |stamps| :: stamps[j] <= times.end.end)
  }

  /** What was cut off so far, how many entries were visited since, and where the next slice starts. */
  datatype Cut = Cut(slices: seq<Range<nat>>, size: nat, lower: nat)

  /** End the current slice, unless no time has passed. Without an end, the next slice starts where this one did. */
  function CutOff(c: Cut, upper: RangeEnd<nat>): Cut {
    match upper
    case Closed(t) => if c.lower < t then Cut(c.slices + [Range(c.lower, upper)], 0, t) else c
    case Open => c.(slices := c.slices + [Range(c.lower, upper)])
  }

  /** Where the visit of entry number `i` of a walk cuts: the last counted one at the end of the range,
      another one where it is itself, if enough entries were visited. */
  function CutWhere(times: Range<nat>, total: nat, target: nat, size: nat, i: nat, t: nat): Option<RangeEnd<nat>> {
    if i == total - 1 then Some(times.end) else if size > target then Some(Closed(t)) else None
  }

  /** Count an entry, and cut where it is due. */
  function Moved(c: Cut, upper: Option<RangeEnd<nat>>): Cut {
    var visited := c.(size := c.size + 1);
    if upper.None? then visited else CutOff(visited, upper.value)
  }

  function Visit(times: Range<nat>, total: nat, target: nat, c: Cut, i: nat, t: nat): Cut {
    Moved(c, CutWhere(times, total, target, c.size + 1, i, t))
  }

  function CutAll(times: Range<nat>, total: nat, target: nat, stamps: seq<nat>): Cut {
    if stamps == [] then Cut([], 0, times.start)
    else Visit(times, total, target, CutAll(times, total, target, stamps[..|stamps| - 1]), |stamps| - 1, stamps[|stamps| - 1])
  }

  /** Slices without gaps. */
  predicate Contiguous(slices: seq<Range<nat>>, from: nat, to: nat) {
    if slices == [] then from == to
    else
      var last := slices[|slices| - 1];
      last.end == Closed(to) && last.start < to && Contiguous(slices[..|slices| - 1], from, last.start)
  }

  /** Slices without gaps that reach to the end of some times. */
  predicate CoversTimes(slices: seq<Range<nat>>, times: Range<nat>) {
    slices != [] &&
    var last := slices[|slices| - 1];
    last.end == times.end && Before(last.start, times.end) && Contiguous(slices[..|slices| - 1], times.start, last.start)
  }

  lemma CutSnoc(times: Range<nat>, total: nat, target: nat, stamps: seq<nat>, t: nat)
    ensures CutAll(times, total, target, stamps + [t]) ==
      Visit(times, total, target, CutAll(times, total, target, stamps), |stamps|, t)
  {
    assert (stamps + [t])[..|stamps|] == stamps;
  }

  /** The same for the first `n` entries of a walk. */
  function CutUpTo(times: Range<nat>, total: nat, target: nat, stamps: seq<nat>, n: nat): Cut
    requires n <= |stamps|
    decreases n
  {
    if n == 0 then Cut([], 0, times.start)
    else Visit(times, total, target, CutUpTo(times, total, target, stamps, n - 1), n - 1, stamps[n - 1])
  }

  lemma {:induction false} CutUpToIsCutAll(times: Range<nat>, total: nat, target: nat, stamps: seq<nat>, n: nat)
    requires n <= |stamps|
    ensures CutUpTo(times, total, target, stamps, n) == CutAll(times, total, target, stamps[..n])
    decreases n
  {
    if n > 0 {
      CutUpToIsCutAll(times, total, target, stamps, n - 1);
      assert stamps[..n] == stamps[..n - 1] + [stamps[n - 1]];
      CutSnoc(times, total, target, stamps[..n - 1], stamps[n - 1]);
    }
  }

  lemma ContiguousSnoc(slices: seq<Range<nat>>, from: nat, to: nat, next: nat)
    requires Contiguous(slices, from, to) && to < next
    ensures Contiguous(slices + [Range(to, Closed(next))], from, next)
  {
    assert (slices + [Range(to, Closed(next))])[..|slices|] == slices;
  }

  /** Before the last counted entry, the slices reach from the start to some time before the end. */
  lemma {:induction false} CutsBefore(times: Range<nat>, total: nat, target: nat, stamps: seq<nat>)
    requires WalkTimes(times, stamps, |stamps|) && |stamps| < total && Before(times.start, times.end)
    ensures var c := CutAll(times, total, target, stamps);
      Contiguous(c.slices, times.start, c.lower) && Before(c.lower, times.end)
    decreases |stamps|
  {
    if stamps != [] {
      var init, t := stamps[..|stamps| - 1], stamps[|stamps| - 1];
      CutsBefore(times, total, target, init);
      var c := CutAll(times, total, target, init);
      if c.size + 1 > target && c.lower < t { ContiguousSnoc(c.slices, times.start, c.lower, t); }
    }
  }

  /** The cut at the last counted entry completes a cover. */
  function CoverOf(times: Range<nat>, total: nat, target: nat, stamps: seq<nat>): Cut
    requires 0 < total <= |stamps|
  {
    CutAll(times, total, target, stamps[..total])
  }

  /** Where the last slice of that cover starts, and how many entries were visited since the last cut. */
  function LastCut(times: Range<nat>, total: nat, target: nat, stamps: seq<nat>): Cut
    requires 0 < total <= |stamps|
  {
    CutAll(times, total, target, stamps[..total - 1])
  }

  lemma CoverCovers(times: Range<nat>, total: nat, target: nat, stamps: seq<nat>)
    requires WalkTimes(times, stamps, total) && 0 < total <= |stamps|
    ensures var before, c := LastCut(times, total, target, stamps), CoverOf(times, total, target, stamps);
      && c.slices == before.slices + [Range(before.lower, times.end)] && CoversTimes(c.slices, times)
      && Before(before.lower, times.end) && times.start <= before.lower
      && (times.end.Closed? ==> c.lower == times.end.end)
      && (times.end.Open? ==> c.size == before.size + 1 && c.lower == before.lower)
  {
    var init, t := stamps[..total - 1], stamps[total - 1];
    assert stamps[..total] == init + [t];
    assert Before(stamps[0], times.end);
    CutsBefore(times, total, target, init);
    CutSnoc(times, total, target, init, t);
    var before := CutAll(times, total, target, init);
    ContiguousOrder(before.slices, times.start, before.lower);
    var last := Range(before.lower, times.end);
    assert (before.slices + [last])[..|before.slices|] == before.slices;
  }

  lemma {:induction false} ContiguousOrder(slices: seq<Range<nat>>, from: nat, to: nat)
    requires Contiguous(slices, from, to)
    ensures from <= to
  {
    if slices != [] { ContiguousOrder(slices[..|slices| - 1], from, slices[|slices| - 1].start); }
  }

  /** The walk goes on behind the last counted entry, long enough and late enough for another cut. */
  predicate Overruns(times: Range<nat>, total: nat, target: nat, stamps: seq<nat>)
    requires 0 < total <= |stamps|
  {
    var before := LastCut(times, total, target, stamps);
    && times.end.Open? && total < |stamps|
    && before.size + 1 + (|stamps| - total) > target && before.lower < stamps[|stamps| - 1]
  }

  /** The cover, and what is cut off behind it: slices of its last slice once more. */
  predicate Behind(times: Range<nat>, total: nat, target: nat, stamps: seq<nat>)
    requires 0 < total <= |stamps|
  {
    var cover, c := CoverOf(times, total, target, stamps), CutAll(times, total, target, stamps);
    && |cover.slices| <= |c.slices| && c.slices[..|cover.slices|] == cover.slices
    && (|c.slices| > |cover.slices| <==> Overruns(times, total, target, stamps))
    && match times.end
       case Closed(end) => c.lower == end
       case Open =>
         && Contiguous(c.slices[|cover.slices|..], cover.lower, c.lower)
         && (|c.slices| == |cover.slices| ==> c.size == cover.size + (|stamps| - total) && c.lower == cover.lower)
  }

  lemma {:induction false} CutsBehind(times: Range<nat>, total: nat, target: nat, stamps: seq<nat>)
    requires WalkTimes(times, stamps, total) && 0 < total <= |stamps|
    ensures Behind(times, total, target, stamps)
    decreases |stamps|
  {
    if |stamps| == total {
      CoverCovers(times, total, target, stamps);
      assert stamps[..total] == stamps;
    } else {
      var init, t := stamps[..|stamps| - 1], stamps[|stamps| - 1];
      assert stamps == init + [t];
      CutsBehind(times, total, target, init);
      if times.end.Closed? { NothingBehind(times, total, target, init, t); } else { OneMoreBehind(times, total, target, init, t); }
    }
  }

  lemma SameCover(times: Range<nat>, total: nat, target: nat, stamps: seq<nat>, t: nat)
    requires 0 < total <= |stamps|
    ensures CoverOf(times, total, target, stamps + [t]) == CoverOf(times, total, target, stamps)
    ensures LastCut(times, total, target, stamps + [t]) == LastCut(times, total, target, stamps)
  {
    assert (stamps + [t])[..total] == stamps[..total] && (stamps + [t])[..total - 1] == stamps[..total - 1];
  }

  lemma NothingBehind(times: Range<nat>, total: nat, target: nat, stamps: seq<nat>, t: nat)
    requires WalkTimes(times, stamps + [t], total) && 0 < total <= |stamps| && times.end.Closed? && Behind(times, total, target, stamps)
    ensures Behind(times, total, target, stamps + [t])
  {
    assert (stamps + [t])[|stamps|] == t;
    SameCover(times, total, target, stamps, t);
    CutSnoc(times, total, target, stamps, t);
  }

  lemma PartsSnoc(slices: seq<Range<nat>>, n: nat, next: Range<nat>)
    requires n <= |slices|
    ensures (slices + [next])[n..] == slices[n..] + [next] && (slices + [next])[..n] == slices[..n]
  {}

  lemma OneMoreBehind(times: Range<nat>, total: nat, target: nat, stamps: seq<nat>, t: nat)
    requires WalkTimes(times, stamps + [t], total) && 0 < total <= |stamps| && times.end.Open? && Behind(times, total, target, stamps)
    ensures Behind(times, total, target, stamps + [t])
  {
    var all := stamps + [t];
    assert all[|stamps|] == t && all[|stamps| - 1] == stamps[|stamps| - 1];
    SameCover(times, total, target, stamps, t);
    CutSnoc(times, total, target, stamps, t);
    CoverSize(times, total, target, stamps);
    var cover, c := CoverOf(times, total, target, stamps), CutAll(times, total, target, stamps);
    var before := LastCut(times, total, target, stamps);
    NextBehind(cover, c, before.size, |stamps| - total, target, stamps[|stamps| - 1], t);
  }

  /** Slices behind a cover, after some more entries: the first cut is due once there are enough of them,
      and once they are late enough. */
  predicate BehindCover(cover: Cut, c: Cut, size: nat, more: nat, target: nat, last: nat) {
    && |cover.slices| <= |c.slices| && c.slices[..|cover.slices|] == cover.slices
    && (|c.slices| > |cover.slices| <==> more > 0 && size + 1 + more > target && cover.lower < last)
    && Contiguous(c.slices[|cover.slices|..], cover.lower, c.lower)
    && (|c.slices| == |cover.slices| ==> c.size == cover.size + more && c.lower == cover.lower)
  }

  lemma NextBehind(cover: Cut, c: Cut, size: nat, more: nat, target: nat, last: nat, t: nat)
    requires BehindCover(cover, c, size, more, target, last) && cover.size == size + 1 && last <= t
    ensures var visited := c.(size := c.size + 1);
      var c' := if visited.size > target then CutOff(visited, Closed(t)) else visited;
      BehindCover(cover, c', size, more + 1, target, t)
  {
    var n := |cover.slices|;
    PartsSnoc(c.slices, n, Range(c.lower, Closed(t)));
    if c.lower < t { ContiguousSnoc(c.slices[n..], cover.lower, c.lower, t); }
    ContiguousOrder(c.slices[n..], cover.lower, c.lower);
  }

  lemma CoverSize(times: Range<nat>, total: nat, target: nat, stamps: seq<nat>)
    requires 0 < total <= |stamps| && times.end.Open?
    ensures var before, cover := LastCut(times, total, target, stamps), CoverOf(times, total, target, stamps);
      cover.size == before.size + 1 && cover.lower == before.lower
  {
    assert stamps[..total] == stamps[..total - 1] + [stamps[total - 1]];
    CutSnoc(times, total, target, stamps[..total - 1], stamps[total - 1]);
  }

  lemma {:induction false} FirstSlice(slices: seq<Range<nat>>, from: nat, to: nat)
    requires Contiguous(slices, from, to) && slices != []
    ensures slices[0].start == from && slices[0].end.Closed? && from < slices[0].end.end
  {
    var n := |slices| - 1;
    if n > 0 { FirstSlice(slices[..n], from, slices[n].start); }
  }

  // ---------------------------------------------------------------- how many slices there are

  /** Each slice before the last counted entry took more than the target number of entries. */
  lemma {:induction false} SlicesAreFull(times: Range<nat>, total: nat, target: nat, stamps: seq<nat>)
    requires |stamps| < total
    ensures var c := CutAll(times, total, target, stamps);
      |c.slices| * (target + 1) + c.size <= |stamps|
    decreases |stamps|
  {
    if stamps != [] {
      var init, t := stamps[..|stamps| - 1], stamps[|stamps| - 1];
      SlicesAreFull(times, total, target, init);
      var c, c' := CutAll(times, total, target, init), CutAll(times, total, target, stamps);
      if |c'.slices| > |c.slices| { OneMore(|c.slices|, target + 1); }
    }
  }

  lemma OneMore(n: nat, width: nat)
    ensures (n + 1) * width == n * width + width
  {}

  lemma AtLeast(n: nat, m: nat, width: nat)
    requires n >= m
    ensures n * width >= m * width
  {
    assert n * width == m * width + (n - m) * width;
  }

  lemma QuotientBelow(total: nat, parts: nat)
    requires parts > 0
    ensures total < parts * (total / parts + 1)
  {
    assert total == parts * (total / parts) + total % parts;
  }

  /** A range is split into no more slices than were asked for. */
  lemma CoverIsSmall(times: Range<nat>, total: nat, splitCount: nat, target: nat, stamps: seq<nat>)
    requires 0 < splitCount && 0 < total <= |stamps| && WalkTimes(times, stamps, total) && target == total / splitCount
    ensures |CoverOf(times, total, target, stamps).slices| <= splitCount
  {
    SlicesAreFull(times, total, target, stamps[..total - 1]);
    CoverCovers(times, total, target, stamps);
    QuotientBelow(total, splitCount);
    var n := |LastCut(times, total, target, stamps).slices|;
    if n >= splitCount { AtLeast(n, splitCount, target + 1); }
  }

  /** If no two entries have the same time, each slice takes just one entry more than the target. */
  lemma {:induction false} SlicesAreEven(times: Range<nat>, total: nat, target: nat, stamps: seq<nat>)
    requires |stamps| < total && (forall i, j | 0 <= i < j < |stamps| :: stamps[i] < stamps[j])
    requires forall i | 0 <= i < |stamps| :: times.start < stamps[i]
    ensures var c := CutAll(times, total, target, stamps);
      && |c.slices| * (target + 1) + c.size == |stamps| && c.size <= target
      && (c.lower == times.start || exists i :: 0 <= i < |stamps| && c.lower == stamps[i])
    decreases |stamps|
  {
    if stamps != [] {
      var n := |stamps| - 1;
      var init, t := stamps[..n], stamps[n];
      SlicesAreEven(times, total, target, init);
      var c, c' := CutAll(times, total, target, init), CutAll(times, total, target, stamps);
      OneMore(|c.slices|, target + 1);
      assert stamps[n] == t;
      if c.lower != times.start {
        var i :| 0 <= i < n && c.lower == init[i];
        assert init[i] == stamps[i];
      }
    }
  }
}
