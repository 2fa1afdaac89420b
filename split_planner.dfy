/**
 * Split-point planning inside `split_mp3`: fixed-interval mode places a
 * point at every multiple of the interval below the duration; custom mode
 * parses a comma-separated list of times and sorts it.
 */
module SplitPlanner {
  import opened Wrappers
  import opened Strings
  import opened TimeCodec

  /**
   * The two radio-button modes with the values their widgets hold. The
   * fixed-mode fields are integer variables behind spinboxes that accept
   * typed text, so they can be negative.
   */
  datatype SplitMode =
    | Fixed(hours: int, minutes: int, seconds: int)
    | Custom(text: string)

  /** Why planning stops before any file is read. */
  datatype PlanError =
    | ZeroInterval         // all of hours, minutes and seconds are 0
    | NonPositiveInterval  // not all 0, yet the interval is at most 0
    | EmptyTimes           // the custom text is empty once stripped
    | BadTimeFormat        // some comma-separated piece does not parse

  /** The interval in seconds. */
  function IntervalSeconds(hours: int, minutes: int, seconds: int): int {
    hours * 3600 + minutes * 60 + seconds
  }

  /** The largest integer strictly below `d`. */
  function LastBelow(d: real): (r: int)
    ensures (r as real) < d <= (r + 1) as real
  {
    if d.Floor as real == d then d.Floor - 1 else d.Floor
  }

  /** How many positive multiples of `interval` lie strictly below `d`. */
  function IntervalCount(interval: nat, d: real): (n: nat)
    requires interval > 0
    ensures forall k: nat :: 1 <= k ==> ((k * interval) as real < d <==> k <= n)
  {
    var last := LastBelow(d);
    if last < 0 then 0
    else
      var n := last / interval;
      MultiplesBelow(interval, d, last, n);
      n
  }

  /** `k * interval < d` exactly for `k <= last / interval`, where `last` is the largest integer below `d`. */
  lemma MultiplesBelow(interval: nat, d: real, last: int, n: nat)
    requires interval > 0 && last >= 0 && n == last / interval
    requires (last as real) < d <= (last + 1) as real
    ensures forall k: nat :: 1 <= k ==> ((k * interval) as real < d <==> k <= n)
  {
    forall k: nat | 1 <= k
      ensures (k * interval) as real < d <==> k <= n
    {
      if k <= n {
        MultiplyMonotone(k, n, interval);
        assert n * interval <= last;
      } else {
        MultiplyMonotone(n + 1, k, interval);
        assert (n + 1) * interval > last;
      }
    }
  }

  lemma MultiplyMonotone(a: nat, b: nat, c: nat)
    requires a <= b
    ensures a * c <= b * c
  {
  }

  /** The fixed-interval points: `interval, 2*interval, …` while below the duration. */
  function IntervalPoints(interval: nat, d: real): (points: seq<nat>)
    requires interval > 0
    ensures |points| == IntervalCount(interval, d)
  {
    seq(IntervalCount(interval, d), k requires 0 <= k => (k + 1) * interval)
  }

  /**
   * The loop `while current_time < total_duration`: append, then advance
   * by one interval.
   */
  method IntervalSplitPoints(interval: nat, duration: real) returns (points: seq<nat>)
    requires interval > 0
    ensures points == IntervalPoints(interval, duration)
  {
    points := [];
    var current := interval;
    ghost var n := IntervalCount(interval, duration);
    while (current as real) < duration
      invariant current == (|points| + 1) * interval
      invariant |points| <= n
      invariant forall k :: 0 <= k < |points| ==> points[k] == (k + 1) * interval
      decreases n - |points|
    {
      assert |points| + 1 <= n;
      points := points + [current];
      current := current + interval;
    }
    assert |points| == n;
  }

  /** `current_time` after `k` passes of the fixed-mode loop. */
  function LoopTime(interval: int, k: nat): int {
    (k + 1) * interval
  }

  /**
   * As written, the fixed-mode loop never ends when the fields are not all
   * 0 but their interval is at most 0 (`Fixed(0, 0, -5)`, say): after any
   * number of passes `current_time` is still below a positive duration, so
   * the loop keeps appending points.
   */
  lemma NonPositiveIntervalHangs(h: int, m: int, s: int, duration: real, k: nat)
    requires !(h == 0 && m == 0 && s == 0) && IntervalSeconds(h, m, s) <= 0
    requires duration > 0.0
    ensures (LoopTime(IntervalSeconds(h, m, s), k) as real) < duration
  {
    var interval := IntervalSeconds(h, m, s);
    MultiplyMonotone(0, k + 1, -interval);
    assert (k + 1) * -interval >= 0;
  }

  /**
   * The fixed-interval points are the multiples `k * interval`, k = 1, 2, …,
   * each below the duration, and the next multiple is not below it.
   */
  lemma IntervalPointsExact(interval: nat, d: real)
    requires interval > 0
    ensures var p := IntervalPoints(interval, d);
            && (forall i :: 0 <= i < |p| ==> p[i] == (i + 1) * interval && (p[i] as real) < d)
            && ((|p| + 1) * interval) as real >= d
  {
    var n := IntervalCount(interval, d);
    var p := IntervalPoints(interval, d);
    forall i | 0 <= i < |p|
      ensures (p[i] as real) < d
    {
      assert 1 <= i + 1 <= n;
    }
    assert !(n + 1 <= n);
  }

  /** The fixed-interval points are positive and strictly increasing. */
  lemma IntervalPointsIncreasing(interval: nat, d: real)
    requires interval > 0
    ensures var p := IntervalPoints(interval, d);
            && (forall i :: 0 <= i < |p| ==> p[i] > 0)
            && (forall i, j :: 0 <= i < j < |p| ==> p[i] < p[j])
  {
    var p := IntervalPoints(interval, d);
    forall i | 0 <= i < |p|
      ensures p[i] > 0
    {
      MultiplyStrict(0, i + 1, interval);
    }
    forall i, j | 0 <= i < j < |p|
      ensures p[i] < p[j]
    {
      MultiplyStrict(i + 1, j + 1, interval);
    }
  }

  lemma MultiplyStrict(a: nat, b: nat, c: nat)
    requires a < b && c > 0
    ensures a * c < b * c
  {
  }

  /** `sorted(xs)` order. */
  predicate Ascending(xs: seq<nat>) {
    forall i, j :: 0 <= i < j < |xs| ==> xs[i] <= xs[j]
  }

  /** Insert `x` into an ascending list. */
  function InsertSorted(xs: seq<nat>, x: nat): (r: seq<nat>)
    requires Ascending(xs)
    ensures Ascending(r) && multiset(r) == multiset(xs) + multiset{x}
    ensures |r| == |xs| + 1 && r[0] == if xs == [] || x <= xs[0] then x else xs[0]
  {
    if xs == [] || x <= xs[0] then [x] + xs
    else
      assert xs == [xs[0]] + xs[1..];
      [xs[0]] + InsertSorted(xs[1..], x)
  }

  /** `list.sort()`: an ascending permutation of its argument. */
  function Sorted(xs: seq<nat>): (r: seq<nat>)
    ensures Ascending(r) && multiset(r) == multiset(xs) && |r| == |xs|
  {
    if xs == [] then []
    else
      assert xs == xs[..|xs| - 1] + [xs[|xs| - 1]];
      InsertSorted(Sorted(xs[..|xs| - 1]), xs[|xs| - 1])
  }

  /** There is only one ascending permutation of a list, so `Sorted` is `sorted`. */
  lemma {:induction false} AscendingUnique(a: seq<nat>, b: seq<nat>)
    requires Ascending(a) && Ascending(b) && multiset(a) == multiset(b)
    ensures a == b
  {
    if a != [] {
      assert a[0] in multiset(b);
      assert b[0] in multiset(a);
      MinimumFirst(a, b[0]);
      MinimumFirst(b, a[0]);
      assert a[0] == b[0];
      assert a == [a[0]] + a[1..];
      assert b == [b[0]] + b[1..];
      assert multiset(a[1..]) == multiset(a) - multiset{a[0]};
      assert multiset(b[1..]) == multiset(b) - multiset{b[0]};
      AscendingUnique(a[1..], b[1..]);
    } else {
      assert |multiset(b)| == 0;
    }
  }

  /** The first element of an ascending list is at most any of its elements. */
  lemma MinimumFirst(a: seq<nat>, x: nat)
    requires Ascending(a) && x in multiset(a)
    ensures a[0] <= x
  {
    var k :| 0 <= k < |a| && a[k] == x;
  }

  /** Every value present, collected in order, or `None` as soon as one is missing. */
  function AllValues(opts: seq<Option<nat>>): (r: Option<seq<nat>>)
    ensures r.Some? <==> forall i :: 0 <= i < |opts| ==> opts[i].Some?
    ensures r.Some? ==> |r.value| == |opts|
    ensures r.Some? ==> forall i :: 0 <= i < |opts| ==> r.value[i] == opts[i].value
  {
    if opts == [] then Some([])
    else
      var init := AllValues(opts[..|opts| - 1]);
      var last := opts[|opts| - 1];
      if init.Some? && last.Some? then Some(init.value + [last.value]) else None
  }

  /** When every option holds the matching value, all values are collected. */
  lemma {:induction false} AllValuesOf(opts: seq<Option<nat>>, vals: seq<nat>)
    requires |opts| == |vals|
    requires forall k :: 0 <= k < |opts| ==> opts[k] == Some(vals[k])
    ensures AllValues(opts) == Some(vals)
  {
    if opts != [] {
      var n := |opts| - 1;
      AllValuesOf(opts[..n], vals[..n]);
      assert vals == vals[..n] + [vals[n]];
    }
  }

  /** Collecting one more option extends the values collected so far, or fails. */
  lemma AllValuesStep(opts: seq<Option<nat>>, i: nat)
    requires i < |opts|
    ensures var init := AllValues(opts[..i]);
            AllValues(opts[..i + 1]) == if init.Some? && opts[i].Some? then Some(init.value + [opts[i].value]) else None
  {
    assert opts[..i + 1][..i] == opts[..i];
  }

  /** Each comma-separated piece run through `parse_time_to_seconds`. */
  function ParseEach(pieces: seq<string>): (r: seq<Option<nat>>)
    ensures |r| == |pieces|
  {
    seq(|pieces|, i requires 0 <= i < |pieces| => ParseTimeToSeconds(pieces[i]))
  }

  /** The custom-mode plan: strip, reject empty text, parse every piece, sort. */
  function CustomPoints(text: string): Result<seq<nat>, PlanError> {
    var t := Strip(text);
    if t == [] then Failure(EmptyTimes)
    else
      var parsed := AllValues(ParseEach(Split(t, ',')));
      if parsed.None? then Failure(BadTimeFormat) else Success(Sorted(parsed.value))
  }

  /**
   * The loop over the comma-separated pieces: append the parse of each in
   * turn; the first malformed piece raises, which aborts the whole plan.
   */
  method ParseAll(pieces: seq<string>) returns (r: Option<seq<nat>>)
    ensures r == AllValues(ParseEach(pieces))
  {
    ghost var parsed := ParseEach(pieces);
    var points: seq<nat> := [];
    for i := 0 to |pieces|
      invariant AllValues(parsed[..i]) == Some(points)
    {
      var p := ParseTimeToSeconds(pieces[i]);
      assert p == parsed[i];
      if p.None? {
        return None;
      }
      AllValuesStep(parsed, i);
      points := points + [p.value];
    }
    assert parsed[..|pieces|] == parsed;
    return Some(points);
  }

  /** Custom mode: strip, reject empty text, parse every piece, then sort. */
  method CustomSplitPoints(text: string) returns (r: Result<seq<nat>, PlanError>)
    ensures r == CustomPoints(text)
  {
    var t := Strip(text);
    if t == [] {
      return Failure(EmptyTimes);
    }
    var points := ParseAll(Split(t, ','));
    if points.None? {
      return Failure(BadTimeFormat);
    }
    return Success(Sorted(points.value));
  }

  /** Custom mode fails with `EmptyTimes` exactly when the stripped text is empty. */
  lemma CustomPointsEmpty(text: string)
    ensures CustomPoints(text) == Failure(EmptyTimes) <==> Strip(text) == []
  {
  }

  /** A non-empty custom text is rejected as a whole as soon as one piece fails to parse. */
  lemma CustomPointsRejects(text: string, i: nat)
    requires Strip(text) != []
    requires i < |Split(Strip(text), ',')| && ParseTimeToSeconds(Split(Strip(text), ',')[i]).None?
    ensures CustomPoints(text) == Failure(BadTimeFormat)
  {
    var parsed := ParseEach(Split(Strip(text), ','));
    assert parsed[i].None?;
  }

  /**
   * When every piece parses, with `vals[i]` the value of piece `i`, the
   * plan holds one point per piece (duplicates kept), in ascending order,
   * as a permutation of `vals`.
   */
  lemma CustomPointsAccepts(text: string, vals: seq<nat>)
    requires Strip(text) != []
    requires |vals| == |Split(Strip(text), ',')|
    requires forall i :: 0 <= i < |vals| ==> ParseTimeToSeconds(Split(Strip(text), ',')[i]) == Some(vals[i])
    ensures var r := CustomPoints(text);
            && r.Success?
            && |r.value| == Count(Strip(text), ',') + 1
            && Ascending(r.value)
            && multiset(r.value) == multiset(vals)
  {
    var parsed := ParseEach(Split(Strip(text), ','));
    AllValuesOf(parsed, vals);
  }

  /** Planning as a whole: reject an all-zero interval, else compute the points of the chosen mode. */
  function PlanPoints(mode: SplitMode, duration: real): Result<seq<nat>, PlanError> {
    match mode
    case Fixed(h, m, s) =>
      var interval := IntervalSeconds(h, m, s);
      if h == 0 && m == 0 && s == 0 then Failure(ZeroInterval)
      else if interval <= 0 then Failure(NonPositiveInterval)
      else Success(IntervalPoints(interval, duration))
    case Custom(text) => CustomPoints(text)
  }

  /** The planning step of `split_mp3`, with the loops of the chosen mode. */
  method PlanSplitPoints(mode: SplitMode, duration: real) returns (r: Result<seq<nat>, PlanError>)
    ensures r == PlanPoints(mode, duration)
  {
    match mode
    case Fixed(h, m, s) =>
      var interval := IntervalSeconds(h, m, s);
      if h == 0 && m == 0 && s == 0 {
        return Failure(ZeroInterval);
      }
      if interval <= 0 {
        return Failure(NonPositiveInterval);
      }
      var points := IntervalSplitPoints(interval, duration);
      return Success(points);
    case Custom(text) =>
      r := CustomSplitPoints(text);
  }

  /**
   * Fixed mode reports all-zero fields as before, rejects any other
   * interval of at most 0 instead of looping, and plans exactly when the
   * interval is positive, with hours, minutes and seconds of either sign
   * (`Fixed(1, -30, 0)` plans at 1800 seconds).
   */
  lemma FixedPlanSpec(h: int, m: int, s: int, duration: real)
    ensures PlanPoints(Fixed(h, m, s), duration) == Failure(ZeroInterval) <==> h == 0 && m == 0 && s == 0
    ensures PlanPoints(Fixed(h, m, s), duration) == Failure(NonPositiveInterval)
            <==> !(h == 0 && m == 0 && s == 0) && IntervalSeconds(h, m, s) <= 0
    ensures PlanPoints(Fixed(h, m, s), duration).Success? <==> IntervalSeconds(h, m, s) > 0
  {
  }

  /** Every plan that succeeds lists its split points in ascending order. */
  lemma PlanAscending(mode: SplitMode, duration: real)
    requires PlanPoints(mode, duration).Success?
    ensures Ascending(PlanPoints(mode, duration).value)
  {
    if mode.Fixed? {
      IntervalPointsIncreasing(IntervalSeconds(mode.hours, mode.minutes, mode.seconds), duration);
    }
  }
}
