/**
 * `split_mp3` as a whole: the input checks, planning, the byte mapping, and
 * the loop that writes one file per segment. The output folder is a map
 * from path to bytes; which writes fail is an input.
 */
module Mp3Split {
  import opened Wrappers
  import opened Paths
  import opened FileNames
  import opened SplitPlanner
  import opened Segmenter

  /** Why `split_mp3` stops without writing anything. */
  datatype SplitError =
    | NoInputFile               // no input file selected
    | NoOutputFolder            // no output folder selected
    | FolderNotCreated          // `os.makedirs` failed
    | BadPlan(reason: PlanError)
    | ZeroDuration              // `split_point / total_duration` with a zero duration
    | NoSplitPoint              // naming the first segment indexes an empty `split_points`

  /** One line of the result log: the file was created, or saving it failed. */
  datatype WriteOutcome = Created(name: string) | SaveError(name: string)

  /** The log lines and the count the completion message reports. */
  datatype SplitReport = SplitReport(log: seq<WriteOutcome>, fileCount: nat)

  /** What the user chose and what the MP3 file holds. */
  datatype SplitRequest = SplitRequest(
    inputFile: string,
    outputFolder: string,
    mode: SplitMode,
    data: seq<bv8>,
    duration: real)

  /** The output file system: path to contents. */
  type Files = map<string, seq<bv8>>

  /** `os.path.splitext(os.path.basename(input_file))[0]`. */
  function Stem(inputFile: string): string {
    SplitExt(BaseName(inputFile)).0
  }

  /** The writes in order: a failing path leaves the folder as it was, any other one (re)writes its file. */
  function Written(files: Files, paths: seq<string>, chunks: seq<seq<bv8>>, failing: set<string>): Files
    requires |paths| == |chunks|
  {
    if paths == [] then files
    else
      var n := |paths| - 1;
      var before := Written(files, paths[..n], chunks[..n], failing);
      if paths[n] in failing then before else before[paths[n] := chunks[n]]
  }

  /** The log line of each write. */
  function Outcomes(names: seq<string>, paths: seq<string>, failing: set<string>): (log: seq<WriteOutcome>)
    requires |names| == |paths|
    ensures |log| == |names|
  {
    seq(|names|, i requires 0 <= i < |names| => if paths[i] in failing then SaveError(names[i]) else Created(names[i]))
  }

  /** The names of all segments, once there is at least one split point. */
  function SegmentNames(stem: string, points: seq<nat>, duration: real): (names: seq<string>)
    requires duration >= 0.0 && points != []
    ensures |names| == |points| + 1
  {
    seq(|points| + 1, i requires 0 <= i <= |points| => SegmentName(stem, points, duration, i).value)
  }

  /** Each name placed in the output folder with `os.path.join`. */
  function OutputPaths(folder: string, names: seq<string>): (paths: seq<string>)
    ensures |paths| == |names|
  {
    seq(|names|, i requires 0 <= i < |names| => JoinPath(folder, names[i]))
  }

  /**
   * The checks and the plan that come before any write: the split points,
   * or why the run stops. Every error is raised here.
   */
  function SplitPlan(req: SplitRequest, folderExists: bool, mkdirFails: bool): (r: Result<seq<nat>, SplitError>)
    requires req.duration >= 0.0
    ensures r.Success? ==> r.value != [] && req.duration > 0.0
  {
    if req.inputFile == [] then Failure(NoInputFile)
    else if req.outputFolder == [] then Failure(NoOutputFolder)
    else if !folderExists && mkdirFails then Failure(FolderNotCreated)
    else
      var plan := PlanPoints(req.mode, req.duration);
      if plan.Failure? then Failure(BadPlan(plan.error))
      else if plan.value != [] && req.duration == 0.0 then Failure(ZeroDuration)
      else if plan.value == [] then Failure(NoSplitPoint)
      else Success(plan.value)
  }

  /** Where the segment files go: each sanitised name joined onto the output folder. */
  function SegmentPaths(req: SplitRequest, points: seq<nat>): (paths: seq<string>)
    requires req.duration >= 0.0 && points != []
    ensures |paths| == |points| + 1
  {
    OutputPaths(req.outputFolder, SegmentNames(Stem(req.inputFile), points, req.duration))
  }

  /** The writes of a run that passed its checks: the report and the folder afterwards. */
  function SplitWrites(req: SplitRequest, points: seq<nat>, files: Files, failing: set<string>): (SplitReport, Files)
    requires req.duration > 0.0 && points != []
  {
    var size := |req.data|;
    var segments := SegmentsOf(ByteOffsets(points, req.duration, size), size);
    var names := SegmentNames(Stem(req.inputFile), points, req.duration);
    var paths := SegmentPaths(req, points);
    (SplitReport(Outcomes(names, paths, failing), |segments|),
     Written(files, paths, SegmentData(req.data, segments), failing))
  }

  /** What `split_mp3` does: the result it reports and the output folder afterwards. */
  function SplitOutcome(req: SplitRequest, folderExists: bool, mkdirFails: bool, files: Files, failing: set<string>)
    : (Result<SplitReport, SplitError>, Files)
    requires req.duration >= 0.0
  {
    var plan := SplitPlan(req, folderExists, mkdirFails);
    if plan.Failure? then (Failure(plan.error), files)
    else
      var written := SplitWrites(req, plan.value, files, failing);
      (Success(written.0), written.1)
  }

  /** One more write extends the folder written so far. */
  lemma WrittenStep(files: Files, paths: seq<string>, chunks: seq<seq<bv8>>, failing: set<string>, i: nat)
    requires |paths| == |chunks| && i < |paths|
    ensures Written(files, paths[..i + 1], chunks[..i + 1], failing)
            == var before := Written(files, paths[..i], chunks[..i], failing);
               if paths[i] in failing then before else before[paths[i] := chunks[i]]
  {
    assert paths[..i + 1][..i] == paths[..i];
    assert chunks[..i + 1][..i] == chunks[..i];
  }

  /** One more write adds its line to the log. */
  lemma OutcomesStep(names: seq<string>, paths: seq<string>, failing: set<string>, i: nat)
    requires |names| == |paths| && i < |paths|
    ensures Outcomes(names[..i + 1], paths[..i + 1], failing)
            == Outcomes(names[..i], paths[..i], failing)
               + [if paths[i] in failing then SaveError(names[i]) else Created(names[i])]
  {
  }

  /** One pass of the segment loop extends the log and the folder written so far by segment `i`. */
  lemma LoopStep(folder: string, names: seq<string>, paths: seq<string>, data: seq<bv8>, segments: seq<Segment>,
                 chunks: seq<seq<bv8>>, files: Files, failing: set<string>, i: nat,
                 log: seq<WriteOutcome>, out: Files, outcome: WriteOutcome, next: Files)
    requires |names| == |segments| && i < |segments|
    requires paths == OutputPaths(folder, names) && chunks == SegmentData(data, segments)
    requires log == Outcomes(names[..i], paths[..i], failing)
    requires out == Written(files, paths[..i], chunks[..i], failing)
    requires var path := JoinPath(folder, names[i]);
             && outcome == (if path in failing then SaveError(names[i]) else Created(names[i]))
             && next == if path in failing then out else out[path := PySlice(data, segments[i].start, segments[i].end)]
    ensures log + [outcome] == Outcomes(names[..i + 1], paths[..i + 1], failing)
    ensures next == Written(files, paths[..i + 1], chunks[..i + 1], failing)
  {
    assert paths[i] == JoinPath(folder, names[i]);
    assert chunks[i] == PySlice(data, segments[i].start, segments[i].end);
    WrittenStep(files, paths, chunks, failing, i);
    OutcomesStep(names, paths, failing, i);
  }

  /** Segment `i` is named by sanitising its raw name, which exists once there is a split point. */
  lemma NameAt(stem: string, points: seq<nat>, duration: real, i: nat)
    requires duration >= 0.0 && points != [] && i <= |points|
    ensures RawSegmentName(stem, points, duration, i).Some?
    ensures SegmentNames(stem, points, duration)[i] == Sanitized(RawSegmentName(stem, points, duration, i).value)
  {
  }

  /**
   * One pass of the loop over `segments`: slice the bytes, name the
   * segment, sanitise the name and write the file; a failing write is
   * logged as a save error and leaves the folder as it was.
   */
  method WriteSegment(folder: string, stem: string, points: seq<nat>, duration: real,
                      data: seq<bv8>, segment: Segment, i: nat, files: Files, failing: set<string>)
    returns (outcome: WriteOutcome, out: Files)
    requires duration >= 0.0 && points != [] && i <= |points|
    ensures var name := SegmentNames(stem, points, duration)[i];
            var path := JoinPath(folder, name);
            && outcome == (if path in failing then SaveError(name) else Created(name))
            && out == if path in failing then files else files[path := PySlice(data, segment.start, segment.end)]
  {
    var chunk := PySlice(data, segment.start, segment.end);
    var raw := RawSegmentName(stem, points, duration, i);
    NameAt(stem, points, duration, i);
    var name := SanitizeFilename(raw.value);
    var path := JoinPath(folder, name);
    if path in failing {
      outcome, out := SaveError(name), files;
    } else {
      outcome, out := Created(name), files[path := chunk];
    }
  }

  /** The loop over `segments`, one write per segment, carrying on past failed writes. */
  method WriteSegments(folder: string, stem: string, points: seq<nat>, duration: real,
                       data: seq<bv8>, segments: seq<Segment>, files: Files, failing: set<string>)
    returns (log: seq<WriteOutcome>, out: Files)
    requires duration >= 0.0 && points != [] && |segments| == |points| + 1
    ensures var names := SegmentNames(stem, points, duration);
            var paths := OutputPaths(folder, names);
            && log == Outcomes(names, paths, failing)
            && out == Written(files, paths, SegmentData(data, segments), failing)
  {
    ghost var names := SegmentNames(stem, points, duration);
    ghost var paths := OutputPaths(folder, names);
    ghost var chunks := SegmentData(data, segments);
    out := files;
    log := [];
    for i := 0 to |segments|
      invariant log == Outcomes(names[..i], paths[..i], failing)
      invariant out == Written(files, paths[..i], chunks[..i], failing)
    {
      var outcome, next := WriteSegment(folder, stem, points, duration, data, segments[i], i, out, failing);
      LoopStep(folder, names, paths, data, segments, chunks, files, failing, i, log, out, outcome, next);
      log, out := log + [outcome], next;
    }
    assert names[..|segments|] == names && paths[..|segments|] == paths && chunks[..|segments|] == chunks;
  }

  /**
   * `split_mp3`: validate, plan, map points to bytes, build the segments,
   * then write them. With no split point, naming the first segment fails
   * before anything is written, so that check comes before the loop here.
   */
  method SplitMp3(req: SplitRequest, folderExists: bool, mkdirFails: bool, files: Files, failing: set<string>)
    returns (r: Result<SplitReport, SplitError>, out: Files)
    requires req.duration >= 0.0
    ensures (r, out) == SplitOutcome(req, folderExists, mkdirFails, files, failing)
  {
    out := files;
    if req.inputFile == [] {
      return Failure(NoInputFile), out;
    }
    if req.outputFolder == [] {
      return Failure(NoOutputFolder), out;
    }
    if !folderExists && mkdirFails {
      return Failure(FolderNotCreated), out;
    }
    var plan := PlanSplitPoints(req.mode, req.duration);
    if plan.Failure? {
      return Failure(BadPlan(plan.error)), out;
    }
    var points := plan.value;
    if points != [] && req.duration == 0.0 {
      return Failure(ZeroDuration), out;
    }
    if points == [] {
      return Failure(NoSplitPoint), out;
    }
    var size := |req.data|;
    var offsets := ByteOffsets(points, req.duration, size);
    var segments := BuildSegments(offsets, size);
    var log;
    log, out := WriteSegments(req.outputFolder, Stem(req.inputFile), points, req.duration, req.data, segments, files, failing);
    return Success(SplitReport(log, |segments|)), out;
  }

  /** Every error is raised before the first write: a failed run leaves the folder as it was. */
  lemma FailureWritesNothing(req: SplitRequest, folderExists: bool, mkdirFails: bool, files: Files, failing: set<string>)
    requires req.duration >= 0.0
    ensures var (r, out) := SplitOutcome(req, folderExists, mkdirFails, files, failing);
            r.Failure? ==> out == files
  {
  }

  /**
   * The run gets as far as writing exactly when both paths are chosen, the
   * folder is there or can be made, the plan succeeds with at least one
   * point, and the duration is positive; the points are then the plan's,
   * in ascending order.
   */
  lemma PlanExactly(req: SplitRequest, folderExists: bool, mkdirFails: bool)
    requires req.duration >= 0.0
    ensures var plan := PlanPoints(req.mode, req.duration);
            SplitPlan(req, folderExists, mkdirFails).Success?
            <==> (&& req.inputFile != [] && req.outputFolder != []
                  && (folderExists || !mkdirFails)
                  && plan.Success? && plan.value != [] && req.duration > 0.0)
    ensures var r := SplitPlan(req, folderExists, mkdirFails);
            r.Success? ==> r.value == PlanPoints(req.mode, req.duration).value && Ascending(r.value)
  {
    if SplitPlan(req, folderExists, mkdirFails).Success? {
      PlanAscending(req.mode, req.duration);
    }
  }

  /**
   * A run that writes reports one file per segment, one more than the
   * split points, and logs every segment whether or not its write failed;
   * the line of segment `k` is a save error exactly when its path is failing.
   */
  lemma WritesReport(req: SplitRequest, points: seq<nat>, files: Files, failing: set<string>)
    requires req.duration > 0.0 && points != []
    ensures var report := SplitWrites(req, points, files, failing).0;
            && report.fileCount == |points| + 1 == |report.log|
            && LogMatches(report.log, SegmentPaths(req, points), failing)
  {
    var paths := SegmentPaths(req, points);
    OutcomesMatch(SegmentNames(Stem(req.inputFile), points, req.duration), paths, failing);
  }

  /** Line `k` of the log is a save error exactly when path `k` is failing. */
  predicate LogMatches(log: seq<WriteOutcome>, paths: seq<string>, failing: set<string>) {
    |log| == |paths| && forall k :: 0 <= k < |paths| ==> (log[k].SaveError? <==> paths[k] in failing)
  }

  /** The log of any run logs one line per path and flags exactly the failing ones. */
  lemma OutcomesMatch(names: seq<string>, paths: seq<string>, failing: set<string>)
    requires |names| == |paths|
    ensures LogMatches(Outcomes(names, paths, failing), paths, failing)
  {
  }

  /** No write fails and no path is written twice. */
  predicate CleanWrites(paths: seq<string>, failing: set<string>) {
    && (forall k :: 0 <= k < |paths| ==> paths[k] !in failing)
    && (forall j, k :: 0 <= j < k < |paths| ==> paths[j] != paths[k])
  }

  /** Every path is in `out`, and the files at `paths`, read in order and concatenated, give `data`. */
  predicate ReadsBack(out: Files, paths: seq<string>, data: seq<bv8>) {
    && (forall k :: 0 <= k < |paths| ==> paths[k] in out)
    && Concat(seq(|paths|, k requires 0 <= k < |paths| && paths[k] in out => out[paths[k]])) == data
  }

  /** With distinct paths and no failed write, each path holds its own chunk. */
  lemma WrittenAll(files: Files, paths: seq<string>, chunks: seq<seq<bv8>>, failing: set<string>)
    requires |paths| == |chunks|
    requires forall k :: 0 <= k < |paths| ==> paths[k] !in failing
    requires forall j, k :: 0 <= j < k < |paths| ==> paths[j] != paths[k]
    ensures var out := Written(files, paths, chunks, failing);
            && (forall k :: 0 <= k < |paths| ==> paths[k] in out)
            && seq(|paths|, k requires 0 <= k < |paths| && paths[k] in out => out[paths[k]]) == chunks
  {
    forall k | 0 <= k < |paths|
      ensures paths[k] in Written(files, paths, chunks, failing)
      ensures Written(files, paths, chunks, failing)[paths[k]] == chunks[k]
    {
      WrittenLast(files, paths, chunks, failing, k);
    }
  }

  /** The set of files afterwards: the ones there before and every path whose write succeeded. */
  lemma {:induction false} WrittenKeys(files: Files, paths: seq<string>, chunks: seq<seq<bv8>>, failing: set<string>)
    requires |paths| == |chunks|
    ensures Written(files, paths, chunks, failing).Keys
            == files.Keys + (set k | 0 <= k < |paths| && paths[k] !in failing :: paths[k])
  {
    if paths != [] {
      var n := |paths| - 1;
      WrittenKeys(files, paths[..n], chunks[..n], failing);
      var before := set k | 0 <= k < n && paths[..n][k] !in failing :: paths[..n][k];
      var after := set k | 0 <= k < |paths| && paths[k] !in failing :: paths[k];
      assert after == before + (if paths[n] in failing then {} else {paths[n]}) by {
        forall x | x in after
          ensures x in before + (if paths[n] in failing then {} else {paths[n]})
        {
          var k :| 0 <= k < |paths| && paths[k] !in failing && paths[k] == x;
          if k < n {
            assert paths[..n][k] == x;
          }
        }
        forall x | x in before
          ensures x in after
        {
          var k :| 0 <= k < n && paths[..n][k] !in failing && paths[..n][k] == x;
          assert paths[k] == x;
        }
      }
    }
  }

  /** A path the run never writes keeps what it held. */
  lemma {:induction false} WrittenElsewhere(files: Files, paths: seq<string>, chunks: seq<seq<bv8>>, failing: set<string>, p: string)
    requires |paths| == |chunks| && p !in paths
    ensures p in Written(files, paths, chunks, failing) <==> p in files
    ensures p in files ==> Written(files, paths, chunks, failing)[p] == files[p]
  {
    if paths != [] {
      var n := |paths| - 1;
      assert p !in paths[..n];
      WrittenElsewhere(files, paths[..n], chunks[..n], failing, p);
    }
  }

  /** A path whose write succeeds holds the chunk of its last write. */
  lemma {:induction false} WrittenLast(files: Files, paths: seq<string>, chunks: seq<seq<bv8>>, failing: set<string>, j: nat)
    requires |paths| == |chunks| && j < |paths| && paths[j] !in failing
    requires forall k :: j < k < |paths| ==> paths[k] != paths[j]
    ensures paths[j] in Written(files, paths, chunks, failing)
    ensures Written(files, paths, chunks, failing)[paths[j]] == chunks[j]
  {
    var n := |paths| - 1;
    if j < n {
      WrittenLast(files, paths[..n], chunks[..n], failing, j);
    }
  }

  /** The chunks of ascending split points are consecutive and together make up the whole file. */
  lemma ChunksReassemble(data: seq<bv8>, points: seq<nat>, duration: real)
    requires duration > 0.0 && Ascending(points)
    ensures var size := |data|;
            Concat(SegmentData(data, SegmentsOf(ByteOffsets(points, duration, size), size))) == data
  {
    ByteOffsetsOrdered(points, duration, |data|);
    Reassembly(data, ByteOffsets(points, duration, |data|));
  }

  /**
   * When the split points ascend, the segment paths are distinct and every
   * write succeeds, reading the segment files back in order gives the
   * original bytes.
   */
  lemma FilesReassemble(req: SplitRequest, points: seq<nat>, files: Files, failing: set<string>)
    requires req.duration > 0.0 && points != [] && Ascending(points)
    requires CleanWrites(SegmentPaths(req, points), failing)
    ensures ReadsBack(SplitWrites(req, points, files, failing).1, SegmentPaths(req, points), req.data)
  {
    var size := |req.data|;
    var paths := SegmentPaths(req, points);
    var chunks := SegmentData(req.data, SegmentsOf(ByteOffsets(points, req.duration, size), size));
    WrittenAll(files, paths, chunks, failing);
    ChunksReassemble(req.data, points, req.duration);
  }

  /**
   * A recording no longer than the fixed interval has no split point, so
   * naming its first segment fails and nothing is written.
   */
  lemma ShortRecordingFails(req: SplitRequest, folderExists: bool, mkdirFails: bool)
    requires req.duration >= 0.0 && req.mode.Fixed?
    requires req.inputFile != [] && req.outputFolder != [] && (folderExists || !mkdirFails)
    requires var interval := IntervalSeconds(req.mode.hours, req.mode.minutes, req.mode.seconds);
             interval > 0 && req.duration <= interval as real
    ensures SplitPlan(req, folderExists, mkdirFails) == Failure(NoSplitPoint)
  {
    var interval := IntervalSeconds(req.mode.hours, req.mode.minutes, req.mode.seconds);
    var n := IntervalCount(interval, req.duration);
    assert !((1 * interval) as real < req.duration);
    assert n == 0;
  }
}
