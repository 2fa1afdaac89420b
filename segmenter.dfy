/**
 * The byte segmenter of `split_mp3`: each split point becomes a byte offset
 * in proportion to time, consecutive offsets become `(start, end)` segments,
 * and each segment gets a file name built from the times it spans.
 */
module Segmenter {
  import opened Wrappers
  import opened Strings
  import opened TimeCodec
  import opened Paths
  import opened FileNames
  import opened SplitPlanner

  /** `int(split_point / total_duration * file_size)` for a non-negative point and a positive duration. */
  function ByteOffset(p: nat, duration: real, size: nat): nat
    requires duration > 0.0
  {
    NonNegativeScale(p as real, duration, size as real);
    ((p as real) / duration * (size as real)).Floor
  }

  lemma NonNegativeScale(x: real, d: real, c: real)
    requires x >= 0.0 && d > 0.0 && c >= 0.0
    ensures x / d * c >= 0.0
  {
  }

  /** `x / d * c` grows with `x`. */
  lemma ScaleMonotone(x: real, y: real, d: real, c: real)
    requires x <= y && d > 0.0 && c >= 0.0
    ensures x / d * c <= y / d * c
  {
    assert x / d <= y / d;
    assert (y / d - x / d) * c >= 0.0;
  }

  /** A later point never maps to an earlier byte. */
  lemma ByteOffsetMonotone(p: nat, q: nat, duration: real, size: nat)
    requires p <= q && duration > 0.0
    ensures ByteOffset(p, duration, size) <= ByteOffset(q, duration, size)
  {
    ScaleMonotone(p as real, q as real, duration, size as real);
  }

  /** A point within the duration maps into the file. */
  lemma ByteOffsetBounded(p: nat, duration: real, size: nat)
    requires duration > 0.0 && (p as real) <= duration
    ensures ByteOffset(p, duration, size) <= size
  {
    var q := (p as real) / duration;
    assert q * duration == p as real;
    assert q <= 1.0 by {
      if q > 1.0 {
        assert (q - 1.0) * duration > 0.0;
      }
    }
    assert q * (size as real) <= size as real by {
      assert (1.0 - q) * (size as real) >= 0.0;
    }
  }

  /** The offsets of all split points, in order. */
  function ByteOffsets(points: seq<nat>, duration: real, size: nat): (offsets: seq<nat>)
    requires duration > 0.0
    ensures |offsets| == |points|
    ensures forall i :: 0 <= i < |points| ==> offsets[i] == ByteOffset(points[i], duration, size)
  {
    seq(|points|, i requires 0 <= i < |points| => ByteOffset(points[i], duration, size))
  }

  /** Ascending points give ascending offsets, and points within the duration give offsets within the file. */
  lemma ByteOffsetsOrdered(points: seq<nat>, duration: real, size: nat)
    requires duration > 0.0 && Ascending(points)
    ensures Ascending(ByteOffsets(points, duration, size))
    ensures (forall i :: 0 <= i < |points| ==> (points[i] as real) <= duration) ==>
              forall i :: 0 <= i < |points| ==> ByteOffsets(points, duration, size)[i] <= size
  {
    var offsets := ByteOffsets(points, duration, size);
    forall i, j | 0 <= i < j < |points|
      ensures offsets[i] <= offsets[j]
    {
      ByteOffsetMonotone(points[i], points[j], duration, size);
    }
    if forall i :: 0 <= i < |points| ==> (points[i] as real) <= duration {
      forall i | 0 <= i < |points|
        ensures offsets[i] <= size
      {
        ByteOffsetBounded(points[i], duration, size);
      }
    }
  }

  /** One `(start, end)` pair of byte positions. */
  datatype Segment = Segment(start: nat, end: nat)

  /** Boundary `i` of the chain: 0 first, then the offsets, then the file size. */
  function Boundary(offsets: seq<nat>, size: nat, i: nat): nat
    requires i <= |offsets| + 1
  {
    if i == 0 then 0 else if i == |offsets| + 1 then size else offsets[i - 1]
  }

  /** The segments the loop builds: one per gap between consecutive boundaries. */
  function SegmentsOf(offsets: seq<nat>, size: nat): (segments: seq<Segment>)
    ensures |segments| == |offsets| + 1
  {
    seq(|offsets| + 1, i requires 0 <= i <= |offsets| => Segment(Boundary(offsets, size, i), Boundary(offsets, size, i + 1)))
  }

  /**
   * The loop over `byte_positions`: close the current segment at each
   * offset and start the next one there; the last segment runs to the end
   * of the file.
   */
  method BuildSegments(offsets: seq<nat>, size: nat) returns (segments: seq<Segment>)
    ensures segments == SegmentsOf(offsets, size)
  {
    segments := [];
    var startPos := 0;
    for i := 0 to |offsets|
      invariant |segments| == i
      invariant startPos == Boundary(offsets, size, i)
      invariant forall k :: 0 <= k < i ==> segments[k] == SegmentsOf(offsets, size)[k]
    {
      segments := segments + [Segment(startPos, offsets[i])];
      startPos := offsets[i];
    }
    segments := segments + [Segment(startPos, size)];
  }

  /**
   * There is one more segment than there are offsets; the first starts at
   * 0, the last ends at the file size, each ends where the next starts, and
   * segment `i` ends at offset `i`.
   */
  lemma SegmentsChain(offsets: seq<nat>, size: nat)
    ensures var s := SegmentsOf(offsets, size);
            && |s| == |offsets| + 1
            && s[0].start == 0
            && s[|s| - 1].end == size
            && (forall i :: 0 <= i < |s| - 1 ==> s[i].end == s[i + 1].start)
            && (forall i :: 0 <= i < |offsets| ==> s[i].end == offsets[i] && s[i + 1].start == offsets[i])
  {
  }

  /** `min(x, n)`: where a slice bound lands in a sequence of length `n`. */
  function Clamp(x: nat, n: nat): (r: nat)
    ensures r <= n && r <= x && (r == x || r == n)
  {
    if x <= n then x else n
  }

  /** `data[start:end]` with Python's clamping: out-of-range bounds stop at the end, and a reversed range is empty. */
  function PySlice(data: seq<bv8>, start: nat, end: nat): (r: seq<bv8>)
    ensures Clamp(start, |data|) <= Clamp(end, |data|) ==> r == data[Clamp(start, |data|)..Clamp(end, |data|)]
    ensures Clamp(start, |data|) > Clamp(end, |data|) ==> r == []
  {
    var s, e := Clamp(start, |data|), Clamp(end, |data|);
    if s <= e then data[s..e] else []
  }

  /** The bytes each segment writes. */
  function SegmentData(data: seq<bv8>, segments: seq<Segment>): (chunks: seq<seq<bv8>>)
    ensures |chunks| == |segments|
  {
    seq(|segments|, i requires 0 <= i < |segments| => PySlice(data, segments[i].start, segments[i].end))
  }

  /** The chunks written one after the other. */
  function Concat(chunks: seq<seq<bv8>>): seq<bv8> {
    if chunks == [] then [] else Concat(chunks[..|chunks| - 1]) + chunks[|chunks| - 1]
  }

  /**
   * With non-decreasing offsets, the segment files put back together are
   * the original bytes: clamping keeps the boundaries in order even where
   * an offset lies past the end of the file.
   */
  lemma Reassembly(data: seq<bv8>, offsets: seq<nat>)
    requires Ascending(offsets)
    ensures Concat(SegmentData(data, SegmentsOf(offsets, |data|))) == data
  {
    var n := |data|;
    var chunks := SegmentData(data, SegmentsOf(offsets, n));
    ConcatPrefix(data, offsets, |offsets| + 1);
    assert chunks[..|offsets| + 1] == chunks;
  }

  /** The first `k` segment chunks concatenate to the data up to boundary `k` (clamped). */
  lemma {:induction false} ConcatPrefix(data: seq<bv8>, offsets: seq<nat>, k: nat)
    requires Ascending(offsets) && k <= |offsets| + 1
    ensures var chunks := SegmentData(data, SegmentsOf(offsets, |data|));
            Concat(chunks[..k]) == data[..Clamp(Boundary(offsets, |data|, k), |data|)]
  {
    var n := |data|;
    var chunks := SegmentData(data, SegmentsOf(offsets, n));
    if k > 0 {
      ConcatPrefix(data, offsets, k - 1);
      ChunkAt(data, offsets, k - 1);
      ConcatStep(chunks, k);
      SliceJoin(data, Clamp(Boundary(offsets, n, k - 1), n), Clamp(Boundary(offsets, n, k), n));
    }
  }

  /** The last of the first `k` chunks comes after the first `k - 1`. */
  lemma ConcatStep(chunks: seq<seq<bv8>>, k: nat)
    requires 0 < k <= |chunks|
    ensures Concat(chunks[..k]) == Concat(chunks[..k - 1]) + chunks[k - 1]
  {
    assert chunks[..k][..k - 1] == chunks[..k - 1];
  }

  lemma SliceJoin(data: seq<bv8>, a: nat, b: nat)
    requires a <= b <= |data|
    ensures data[..a] + data[a..b] == data[..b]
  {
  }

  /** Chunk `i` is the data between the clamped boundaries `i` and `i + 1`. */
  lemma ChunkAt(data: seq<bv8>, offsets: seq<nat>, i: nat)
    requires Ascending(offsets) && i <= |offsets|
    ensures var n := |data|;
            var a := Clamp(Boundary(offsets, n, i), n);
            var b := Clamp(Boundary(offsets, n, i + 1), n);
            a <= b && SegmentData(data, SegmentsOf(offsets, n))[i] == data[a..b]
  {
    BoundariesOrdered(offsets, |data|, i);
  }

  /** Consecutive clamped boundaries are in order. */
  lemma BoundariesOrdered(offsets: seq<nat>, n: nat, i: nat)
    requires Ascending(offsets) && i <= |offsets|
    ensures Clamp(Boundary(offsets, n, i), n) <= Clamp(Boundary(offsets, n, i + 1), n)
  {
  }

  /** Label-like text: underscores and digits, ending in a digit. */
  predicate LabelText(r: string) {
    && r != []
    && IsDigit(r[|r| - 1])
    && forall k :: 0 <= k < |r| ==> r[k] == '_' || IsDigit(r[k])
  }

  /** A time as it appears in a segment name: `format_time(t).replace(":", "_")`. */
  function Label(t: real): (r: string)
    requires t >= 0.0
    ensures LabelText(r)
  {
    FormatTimeShape(t);
    ReplaceChar(FormatTime(t), ':', '_')
  }

  /** Putting the colons back into a label of a whole number of seconds and parsing it gives the seconds. */
  lemma LabelRoundTrip(n: nat)
    ensures ParseTimeToSeconds(ReplaceChar(Label(n as real), '_', ':')) == Some(n)
  {
    FormatTimeFloor(n as real);
    ReplaceCharBack(FormatTime(n as real), ':', '_');
    FormatTimeRoundTrip(n);
  }

  /** `f"{filename_without_ext}_{start_time}-{end_time}.mp3"`. */
  function NameFrom(stem: string, startTime: string, endTime: string): string {
    stem + "_" + startTime + "-" + endTime + ".mp3"
  }

  /** `start_time` of segment `i`: `00_00_00` for the first, else the label of the point before it. */
  function StartTime(points: seq<nat>, i: nat): (r: string)
    requires i <= |points|
    ensures LabelText(r)
    ensures i == 0 ==> r == "00_00_00"
    ensures i > 0 ==> ParseTimeToSeconds(ReplaceChar(r, '_', ':')) == Some(points[i - 1])
  {
    if i == 0 then
      assert IsDigit("00_00_00"[7]);
      "00_00_00"
    else
      LabelRoundTrip(points[i - 1]);
      Label(points[i - 1] as real)
  }

  /** `end_time` of segment `i`: the label of the point after it, or of the duration for the last. */
  function EndTime(points: seq<nat>, duration: real, i: nat): (r: string)
    requires duration >= 0.0 && i <= |points|
    ensures LabelText(r)
    ensures i < |points| ==> ParseTimeToSeconds(ReplaceChar(r, '_', ':')) == Some(points[i])
    ensures i == |points| ==> ParseTimeToSeconds(ReplaceChar(r, '_', ':')) == Some(duration.Floor)
  {
    if i < |points| then
      LabelRoundTrip(points[i]);
      Label(points[i] as real)
    else
      LabelOfFloor(duration);
      LabelRoundTrip(duration.Floor);
      Label(duration)
  }

  /** A label shows whole seconds: the label of a time is the label of its floor. */
  lemma LabelOfFloor(t: real)
    requires t >= 0.0
    ensures Label(t) == Label(t.Floor as real)
  {
    FormatTimeFloor(t);
    FormatTimeFloor(t.Floor as real);
    assert (t.Floor as real).Floor == t.Floor;
  }

  /**
   * The segments' times chain: the first starts at `00_00_00`, the last
   * ends at the duration's label, and each segment starts where the one
   * before it ends.
   */
  lemma SegmentTimesChain(points: seq<nat>, duration: real, i: nat)
    requires duration >= 0.0 && i < |points|
    ensures StartTime(points, 0) == "00_00_00"
    ensures EndTime(points, duration, |points|) == Label(duration)
    ensures StartTime(points, i + 1) == EndTime(points, duration, i)
  {
  }

  /**
   * The unsanitised name of segment `i`: the first runs from `00_00_00`,
   * the last to the duration, the others between neighbouring points.
   * With no split point at all, the first segment indexes `split_points[0]`
   * and fails (`None`).
   */
  function RawSegmentName(stem: string, points: seq<nat>, duration: real, i: nat): Option<string>
    requires duration >= 0.0 && i <= |points|
  {
    if points == [] then None
    else Some(NameFrom(stem, StartTime(points, i), EndTime(points, duration, i)))
  }

  /** The name a segment file gets: the raw name, sanitised. */
  function SegmentName(stem: string, points: seq<nat>, duration: real, i: nat): Option<string>
    requires duration >= 0.0 && i <= |points|
  {
    var raw := RawSegmentName(stem, points, duration, i);
    if raw.None? then None else Some(Sanitized(raw.value))
  }

  /** Naming fails exactly when there is no split point. */
  lemma SegmentNameDefined(stem: string, points: seq<nat>, duration: real, i: nat)
    requires duration >= 0.0 && i <= |points|
    ensures SegmentName(stem, points, duration, i).Some? <==> points != []
  {
  }

  /** The extension of a name built from labels is `.mp3`, even after replacement. */
  lemma NameExtension(stem: string, startTime: string, endTime: string)
    requires LabelText(endTime)
    ensures var g := ReplaceInvalid(NameFrom(stem, startTime, endTime));
            SplitExt(g) == (g[..|g| - 4], ".mp3")
  {
    var raw := NameFrom(stem, startTime, endTime);
    var g := ReplaceInvalid(raw);
    assert raw[|raw| - 5] == endTime[|endTime| - 1];
    assert g[|g| - 5] == raw[|raw| - 5];
    assert raw[|raw| - 4..] == ".mp3";
    assert g[|g| - 4..] == ".mp3";
    assert g == g[..|g| - 4] + ".mp3";
    SplitExtOf(g[..|g| - 4], ".mp3");
  }

  /** A sanitised name built from labels is short enough, ends in `.mp3`, and is clean. */
  lemma SanitizedNameValid(stem: string, startTime: string, endTime: string)
    requires LabelText(endTime)
    ensures var name := Sanitized(NameFrom(stem, startTime, endTime));
            && |name| <= MaxNameLength
            && |name| >= 4 && name[|name| - 4..] == ".mp3"
            && IsClean(name)
  {
    var raw := NameFrom(stem, startTime, endTime);
    NameExtension(stem, startTime, endTime);
    SanitizedIsClean(raw);
    SanitizedBounded(raw);
    var name := Sanitized(raw);
    if |raw| <= MaxNameLength {
      assert name[|name| - 4..] == ReplaceInvalid(raw)[|raw| - 4..];
      assert raw[|raw| - 4..] == ".mp3";
    } else {
      SanitizedLong(raw);
    }
  }

  /**
   * Every segment name is at most 240 characters long, ends in `.mp3` and
   * holds none of the characters Windows refuses.
   */
  lemma SegmentNameValid(stem: string, points: seq<nat>, duration: real, i: nat)
    requires duration >= 0.0 && i <= |points| && points != []
    ensures var name := SegmentName(stem, points, duration, i).value;
            && |name| <= MaxNameLength
            && |name| >= 4 && name[|name| - 4..] == ".mp3"
            && IsClean(name)
  {
    SanitizedNameValid(stem, StartTime(points, i), EndTime(points, duration, i));
  }

  /** Replacement works character by character, so it distributes over concatenation. */
  lemma ReplaceInvalidAppend(x: string, y: string)
    ensures ReplaceInvalid(x + y) == ReplaceInvalid(x) + ReplaceInvalid(y)
  {
  }

  /**
   * A name short enough to escape truncation is the stem with its invalid
   * characters replaced, then the two labels unchanged.
   */
  lemma SanitizedNameShort(stem: string, startTime: string, endTime: string)
    requires LabelText(startTime) && LabelText(endTime)
    requires |NameFrom(stem, startTime, endTime)| <= MaxNameLength
    ensures Sanitized(NameFrom(stem, startTime, endTime)) == ReplaceInvalid(stem) + "_" + startTime + "-" + endTime + ".mp3"
  {
    var tail := "_" + startTime + "-" + endTime + ".mp3";
    assert NameFrom(stem, startTime, endTime) == stem + tail;
    assert ReplaceInvalid(tail) == tail;
    ReplaceInvalidAppend(stem, tail);
  }

  /**
   * A segment name short enough to escape truncation is the stem with its
   * invalid characters replaced, then the start and end labels.
   */
  lemma SegmentNameShort(stem: string, points: seq<nat>, duration: real, i: nat)
    requires duration >= 0.0 && i <= |points| && points != []
    requires |NameFrom(stem, StartTime(points, i), EndTime(points, duration, i))| <= MaxNameLength
    ensures SegmentName(stem, points, duration, i).value
            == ReplaceInvalid(stem) + "_" + StartTime(points, i) + "-" + EndTime(points, duration, i) + ".mp3"
  {
    SanitizedNameShort(stem, StartTime(points, i), EndTime(points, duration, i));
  }
}
