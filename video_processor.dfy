/**
 * `VideoProcessor` (watermark/video_processor.py): the frame loops that run the codec over a
 * whole video, the codec choice and the validity decision of the comprehensive validator.
 *
 * A video is the sequence of frames `cap.read()` returns, in order; whether the capture and the
 * writer open, the frame count the container reports and whether the output file has content
 * after release are observations passed in. The per-frame codec is a partial function: `None`
 * stands for a call that raises.
 */
module VideoProcessor {

  import opened Wrappers
  import opened PyText
  import Counting

  /** `self.supported_codecs`. */
  const SupportedCodecs: seq<string> := ["mp4v", "XVID", "MJPG", "X264"]

  /** `self.min_resolution` and `self.max_resolution`, as (width, height). */
  const MinWidth: int := 320
  const MinHeight: int := 240
  const MaxWidth: int := 3840
  const MaxHeight: int := 2160

  /** A capture: whether it opens, `CAP_PROP_FRAME_COUNT`, and the frames it yields. */
  datatype Source<F> = Source(opens: bool, reportedFrames: int, frames: seq<F>)

  /** One `progress_callback(frame_count, total_frames, "Processing")` call. */
  datatype Progress = Progress(frame: nat, total: int)

  // ---------------------------------------------------------------------------------------
  // embed_watermark_in_video

  /** What is written for a frame: the watermarked frame, or the original when embedding raised. */
  function Output<F>(frame: F, embed: F -> Option<F>): (r: F)
    ensures embed(frame).Some? ==> r == embed(frame).value
    ensures embed(frame).None? ==> r == frame
  {
    embed(frame).GetOr(frame)
  }

  /** The progress calls of a run over `n` frames. */
  function ProgressCalls(n: nat, total: int): (r: seq<Progress>)
    ensures |r| == n
    ensures forall i | 0 <= i < n :: r[i] == Progress(i + 1, total)
  {
    if n == 0 then [] else ProgressCalls(n - 1, total) + [Progress(n, total)]
  }

  /**
   * `embed_watermark_in_video`. Returns the verdict, the frames handed to `out.write` in order,
   * the progress calls, and whether the capture was released.
   */
  method EmbedWatermarkInVideo<F>(src: Source<F>, writerOpens: bool, embed: F -> Option<F>,
                                  hasCallback: bool, outputHasContent: bool)
    returns (ok: bool, written: seq<F>, progress: seq<Progress>, released: bool)
    ensures !src.opens ==> !ok && written == [] && progress == [] && !released
    ensures src.opens && (src.reportedFrames == 0 || !writerOpens) ==>
      !ok && written == [] && progress == [] && released
    ensures src.opens && src.reportedFrames != 0 && writerOpens ==>
      released && ok == outputHasContent &&
      |written| == |src.frames| &&
      (forall i | 0 <= i < |src.frames| :: written[i] == Output(src.frames[i], embed)) &&
      progress == (if hasCallback then ProgressCalls(|src.frames|, src.reportedFrames) else [])
  {
    written, progress, released := [], [], false;
    if !src.opens {
      return false, written, progress, released;
    }
    var totalFrames := src.reportedFrames;
    if totalFrames == 0 {
      released := true;
      return false, written, progress, released;
    }
    if !writerOpens {
      released := true;
      return false, written, progress, released;
    }
    var frameCount := 0;
    while frameCount < |src.frames|
      invariant 0 <= frameCount <= |src.frames|
      invariant |written| == frameCount
      invariant forall i | 0 <= i < frameCount :: written[i] == Output(src.frames[i], embed)
      invariant progress == (if hasCallback then ProgressCalls(frameCount, totalFrames) else [])
    {
      var frame := src.frames[frameCount];
      frameCount := frameCount + 1;
      var result := embed(frame);
      if result.Some? {
        written := written + [result.value];
      } else {
        written := written + [frame];
      }
      if hasCallback {
        progress := progress + [Progress(frameCount, totalFrames)];
      }
    }
    released := true;
    ok := outputHasContent;
  }

  // ---------------------------------------------------------------------------------------
  // extract_watermark_from_video

  /** The candidate filter: `extracted_text and "Error" not in extracted_text`. */
  predicate Acceptable(r: Option<string>) {
    r.Some? && r.value != [] && !Contains(r.value, "Error")
  }

  /** Whether frame `i` is sampled: `frame_count % frame_sample_rate == 0`. */
  predicate Sampled(i: nat, rate: int)
    requires rate != 0
  {
    i % rate == 0
  }

  /** The candidates the first `n` frames yield, in order, before the cap of ten. */
  function Candidates<F>(frames: seq<F>, extract: F -> Option<string>, rate: int, n: nat): (r: seq<string>)
    requires rate != 0 && n <= |frames|
    ensures |r| <= n
    ensures forall x | x in r :: x != [] && !Contains(x, "Error")
  {
    if n == 0 then []
    else
      var r := extract(frames[n - 1]);
      Candidates(frames, extract, rate, n - 1) + (if Sampled(n - 1, rate) && Acceptable(r) then [r.value] else [])
  }

  /** Candidates only grow as more frames are read. */
  lemma {:induction false} CandidatesPrefix<F>(frames: seq<F>, extract: F -> Option<string>, rate: int, m: nat, n: nat)
    requires rate != 0 && m <= n <= |frames|
    ensures Candidates(frames, extract, rate, m) <= Candidates(frames, extract, rate, n)
    decreases n - m
  {
    if m < n {
      CandidatesPrefix(frames, extract, rate, m, n - 1);
    }
  }

  /** The at most ten candidates the loop keeps. */
  function Kept<F>(frames: seq<F>, extract: F -> Option<string>, rate: int): (r: seq<string>)
    requires rate != 0
    ensures |r| <= 10
    ensures r <= Candidates(frames, extract, rate, |frames|)
  {
    var all := Candidates(frames, extract, rate, |frames|);
    if |all| <= 10 then all else all[..10]
  }

  /**
   * `extract_watermark_from_video`. Returns the result and the indices of the frames handed to
   * `extract_watermark`. A sample rate of 0 raises on the first frame and the method answers None.
   */
  method ExtractWatermarkFromVideo<F>(src: Source<F>, extract: F -> Option<string>, rate: int)
    returns (result: Option<string>, attempted: seq<nat>)
    ensures !src.opens || rate == 0 ==> result == None
    ensures src.opens && rate != 0 ==>
      var kept := Kept(src.frames, extract, rate);
      result == (if kept == [] then None else Some(Counting.MostCommon(kept)))
    ensures forall k | 0 <= k < |attempted| :: attempted[k] < |src.frames| && rate != 0 && Sampled(attempted[k], rate)
    ensures forall k, l | 0 <= k < l < |attempted| :: attempted[k] < attempted[l]
  {
    attempted := [];
    if !src.opens {
      return None, attempted;
    }
    if rate == 0 {
      // the modulo raises before anything is kept; the handler answers None
      return None, attempted;
    }
    var extracted;
    extracted, attempted := ReadSampledFrames(src.frames, extract, rate);
    if extracted != [] {
      result := Some(Counting.MostCommon(extracted));
    } else {
      result := None;
    }
  }

  /**
   * The frame loop of `extract_watermark_from_video`: every `rate`-th frame goes to `extract`,
   * acceptable answers are kept, and reading stops once ten are kept.
   */
  method ReadSampledFrames<F>(frames: seq<F>, extract: F -> Option<string>, rate: int)
    returns (extracted: seq<string>, attempted: seq<nat>)
    requires rate != 0
    ensures extracted == Kept(frames, extract, rate)
    ensures forall k | 0 <= k < |attempted| :: attempted[k] < |frames| && Sampled(attempted[k], rate)
    ensures forall k, l | 0 <= k < l < |attempted| :: attempted[k] < attempted[l]
  {
    attempted := [];
    var frameCount := 0;
    extracted := [];
    while frameCount < |frames|
      invariant 0 <= frameCount <= |frames|
      invariant extracted == Candidates(frames, extract, rate, frameCount)
      invariant |extracted| < 10
      invariant SampledAscending(attempted, frameCount, rate)
    {
      var frame := frames[frameCount];
      if frameCount % rate == 0 {
        RecordAttempt(attempted, frameCount, rate);
        attempted := attempted + [frameCount];
        var text := extract(frame);
        if Acceptable(text) {
          extracted := extracted + [text.value];
        }
      }
      frameCount := frameCount + 1;
      assert extracted == Candidates(frames, extract, rate, frameCount);
      if |extracted| >= 10 {
        break;
      }
    }
    KeptWhenStopped(frames, extract, rate, frameCount);
  }

  /** Frame indices below `n`, all sampled, in increasing order. */
  predicate SampledAscending(attempted: seq<nat>, n: nat, rate: int)
    requires rate != 0
  {
    (forall k | 0 <= k < |attempted| :: attempted[k] < n && Sampled(attempted[k], rate)) &&
    (forall k, l | 0 <= k < l < |attempted| :: attempted[k] < attempted[l])
  }

  /** Attempting frame `n` keeps the attempted indices sampled and increasing, now below `n + 1`. */
  lemma RecordAttempt(attempted: seq<nat>, n: nat, rate: int)
    requires rate != 0 && SampledAscending(attempted, n, rate) && Sampled(n, rate)
    ensures SampledAscending(attempted + [n], n + 1, rate)
  {
  }

  /** Stopping at ten candidates, or at the last frame, leaves exactly the kept candidates. */
  lemma KeptWhenStopped<F>(frames: seq<F>, extract: F -> Option<string>, rate: int, n: nat)
    requires rate != 0 && n <= |frames|
    requires |Candidates(frames, extract, rate, n)| <= 10
    requires n == |frames| || |Candidates(frames, extract, rate, n)| == 10
    ensures Candidates(frames, extract, rate, n) == Kept(frames, extract, rate)
  {
    var all := Candidates(frames, extract, rate, |frames|);
    var some := Candidates(frames, extract, rate, n);
    CandidatesPrefix(frames, extract, rate, n, |frames|);
    if n < |frames| {
      assert all[..10] == some;
    }
  }

  /** A watermark read correctly from more than half of the kept frames is the answer. */
  lemma MajorityOfFramesWins<F>(frames: seq<F>, extract: F -> Option<string>, rate: int, text: string)
    requires rate != 0
    requires 2 * Counting.Count(Kept(frames, extract, rate), text) > |Kept(frames, extract, rate)|
    ensures Kept(frames, extract, rate) != [] && Counting.MostCommon(Kept(frames, extract, rate)) == text
  {
    Counting.MajorityIsMostCommon(Kept(frames, extract, rate), text);
  }

  // ---------------------------------------------------------------------------------------
  // get_optimal_codec

  /** `get_optimal_codec`, given the (width, height) `get_video_info` reports, if any. */
  function GetOptimalCodec(info: Option<(int, int)>): (codec: string)
    ensures codec in SupportedCodecs
    ensures info.None? ==> codec == "mp4v"
    ensures info.Some? && info.value.0 >= 1920 && info.value.1 >= 1080 ==> codec == "X264"
    ensures info.Some? && !(info.value.0 >= 1920 && info.value.1 >= 1080) && info.value.0 >= 1280 && info.value.1 >= 720 ==> codec == "mp4v"
    ensures info.Some? && !(info.value.0 >= 1280 && info.value.1 >= 720) ==> codec == "XVID"
  {
    match info
    case None => "mp4v"
    case Some((width, height)) =>
      if width >= 1920 && height >= 1080 then "X264"
      else if width >= 1280 && height >= 720 then "mp4v"
      else "XVID"
  }

  /** A larger frame never gets a codec for a smaller class: X264 is kept as both sides grow. */
  lemma CodecMonotone(w: int, h: int, w': int, h': int)
    requires w <= w' && h <= h'
    ensures GetOptimalCodec(Some((w, h))) == "X264" ==> GetOptimalCodec(Some((w', h'))) == "X264"
    ensures GetOptimalCodec(Some((w', h'))) == "XVID" ==> GetOptimalCodec(Some((w, h))) == "XVID"
  {
  }

  // ---------------------------------------------------------------------------------------
  // validate_video_comprehensive

  /** What the validator observes of a file: existence, size, capture and first-frame read. */
  datatype Probe = Probe(exists_: bool, size: int, opens: bool, frameCount: int, fps: real,
                         width: int, height: int, firstFrameReads: bool)

  /** The entries of `errors`; the messages are left as their kinds. */
  datatype Problem = FileMissing | FileEmpty | CannotOpen | CannotReadFrames

  /** The entries of `warnings`. */
  datatype Warning = BelowMinimum(width: int, height: int) | AboveMaximum(width: int, height: int)
                   | UnusualFrameRate(fps: real) | VeryShort | VeryLong

  datatype Report = Report(valid: bool, fileExists: bool, fileSize: int, readable: bool,
                           hasVideoStream: bool, duration: real, frameCount: int, fps: real,
                           resolution: (int, int), errors: seq<Problem>, warnings: seq<Warning>)

  /** The report's initial value. */
  const EmptyReport := Report(false, false, 0, false, false, 0.0, 0, 0.0, (0, 0), [], [])

  /** `validate_video_comprehensive`. */
  method ValidateVideoComprehensive(p: Probe) returns (report: Report)
    ensures report.valid <==> report.readable && report.hasVideoStream && report.errors == []
    ensures !p.exists_ ==> report == EmptyReport.(errors := [FileMissing])
    ensures p.exists_ && p.size == 0 ==> report == EmptyReport.(fileExists := true, errors := [FileEmpty])
    ensures p.exists_ && p.size != 0 && !p.opens ==>
      report == EmptyReport.(fileExists := true, fileSize := p.size, errors := [CannotOpen])
    ensures report.readable <==> p.exists_ && p.size != 0 && p.opens
    ensures report.readable ==>
      report.hasVideoStream == p.firstFrameReads &&
      report.errors == (if p.firstFrameReads then [] else [CannotReadFrames]) &&
      report.resolution == (p.width, p.height) && report.frameCount == p.frameCount && report.fps == p.fps &&
      report.duration == (if p.fps > 0.0 then p.frameCount as real / p.fps else 0.0) &&
      report.warnings == Warnings(p, report.duration)
    ensures report.readable ==> report.valid == p.firstFrameReads
  {
    if !p.exists_ {
      report := EmptyReport.(errors := [FileMissing]);
      return;
    }
    if p.size == 0 {
      report := EmptyReport.(fileExists := true, errors := [FileEmpty]);
      return;
    }
    if !p.opens {
      report := EmptyReport.(fileExists := true, fileSize := p.size, errors := [CannotOpen]);
      return;
    }
    report := ReadableReport(p);
  }

  /** The report of a file that exists, is not empty and opens: the checks run on the open capture. */
  method ReadableReport(p: Probe) returns (report: Report)
    ensures report.readable && report.fileExists && report.fileSize == p.size
    ensures report.hasVideoStream == p.firstFrameReads
    ensures report.errors == (if p.firstFrameReads then [] else [CannotReadFrames])
    ensures report.resolution == (p.width, p.height) && report.frameCount == p.frameCount && report.fps == p.fps
    ensures report.duration == (if p.fps > 0.0 then p.frameCount as real / p.fps else 0.0)
    ensures report.warnings == Warnings(p, report.duration)
    ensures report.valid <==> report.hasVideoStream && report.errors == []
  {
    var duration := 0.0;
    if p.fps > 0.0 {
      duration := p.frameCount as real / p.fps;
    }
    var errors: seq<Problem> := [];
    if !p.firstFrameReads {
      errors := errors + [CannotReadFrames];
    }
    var warnings := CollectWarnings(p, duration);
    var valid := p.firstFrameReads && |errors| == 0;
    report := Report(valid, true, p.size, true, p.firstFrameReads, duration, p.frameCount, p.fps,
                     (p.width, p.height), errors, warnings);
  }

  /** The warning checks, appended one at a time. */
  method CollectWarnings(p: Probe, duration: real) returns (warnings: seq<Warning>)
    ensures warnings == Warnings(p, duration)
  {
    warnings := [];
    if p.width < MinWidth || p.height < MinHeight {
      warnings := warnings + [BelowMinimum(p.width, p.height)];
    }
    if p.width > MaxWidth || p.height > MaxHeight {
      warnings := warnings + [AboveMaximum(p.width, p.height)];
    }
    assert warnings == SizeWarnings(p);
    if p.fps < 1.0 || p.fps > 120.0 {
      warnings := warnings + [UnusualFrameRate(p.fps)];
    }
    assert warnings == SizeWarnings(p) + RateWarnings(p);
    if duration < 0.1 {
      warnings := warnings + [VeryShort];
    } else if duration > 7200.0 {
      warnings := warnings + [VeryLong];
    }
  }

  /** The warnings of a readable file, in the order the checks run. */
  function Warnings(p: Probe, duration: real): seq<Warning> {
    SizeWarnings(p) + RateWarnings(p) + DurationWarnings(duration)
  }

  function SizeWarnings(p: Probe): seq<Warning> {
    (if p.width < MinWidth || p.height < MinHeight then [BelowMinimum(p.width, p.height)] else []) +
    (if p.width > MaxWidth || p.height > MaxHeight then [AboveMaximum(p.width, p.height)] else [])
  }

  function RateWarnings(p: Probe): seq<Warning> {
    if p.fps < 1.0 || p.fps > 120.0 then [UnusualFrameRate(p.fps)] else []
  }

  function DurationWarnings(duration: real): seq<Warning> {
    if duration < 0.1 then [VeryShort] else if duration > 7200.0 then [VeryLong] else []
  }

  /** Membership in the concatenation of the three groups of checks. */
  lemma InPieces(w: Warning, size: seq<Warning>, rate: seq<Warning>, dur: seq<Warning>)
    ensures w in size + rate + dur <==> w in size || w in rate || w in dur
  {
  }

  /** Each warning is present iff its condition holds. */
  lemma WarningsMeans(p: Probe, duration: real)
    ensures BelowMinimum(p.width, p.height) in Warnings(p, duration) <==> p.width < MinWidth || p.height < MinHeight
    ensures AboveMaximum(p.width, p.height) in Warnings(p, duration) <==> p.width > MaxWidth || p.height > MaxHeight
    ensures UnusualFrameRate(p.fps) in Warnings(p, duration) <==> p.fps < 1.0 || p.fps > 120.0
    ensures VeryShort in Warnings(p, duration) <==> duration < 0.1
    ensures VeryLong in Warnings(p, duration) <==> duration >= 0.1 && duration > 7200.0
  {
    var size, rate, dur := SizeWarnings(p), RateWarnings(p), DurationWarnings(duration);
    InPieces(BelowMinimum(p.width, p.height), size, rate, dur);
    InPieces(AboveMaximum(p.width, p.height), size, rate, dur);
    InPieces(UnusualFrameRate(p.fps), size, rate, dur);
    InPieces(VeryShort, size, rate, dur);
    InPieces(VeryLong, size, rate, dur);
  }
}
