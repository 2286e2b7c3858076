/**
 * The fluency metrics of a take (`TranscriptionService._norm_conf_from_logprob` and
 * `_augment_segments_and_fluency` in `transcription_service.py`): each recognised
 * segment gains its duration, the pause before it and a confidence, and the take gets
 * an articulation rate, a pause ratio, a filled-pause count and a mean confidence.
 * Python floats are exact reals; the text normaliser `clean_text` is a parameter.
 */
module Fluency {
  import opened Wrappers
  import opened PyValues
  import Text
  import Transcript

  /** The smallest time, in seconds, the metrics treat as non-zero. */
  const Epsilon: real := 0.000001

  /** The words counted as filled pauses. */
  const FilledWords: set<string> := {"um", "uh", "erm", "er", "hmm"}

  /** `max(0.0, x)`. */
  function NonNeg(x: real): (y: real)
    ensures y >= 0.0 && y >= x
    ensures y == x || y == 0.0
  {
    if x > 0.0 then x else 0.0
  }

  /** Confidence from an average log-probability: `None` stays `None`; otherwise the
      value plus one, clamped to [0, 1]. `float()` of the value may raise. */
  function NormConf(lp: Value, parse: string -> Option<real>): (r: Result<Option<real>, PyError>)
    ensures lp.VNone? ==> r == Success(None)
    ensures !lp.VNone? ==> (r.Success? <==> ToFloat(lp, parse).Success?)
    ensures r.Success? && !lp.VNone? ==> r.value.Some?
    ensures r.Success? && r.value.Some? ==> 0.0 <= r.value.value <= 1.0
    ensures r.Success? && r.value.Some? && -1.0 <= ToFloat(lp, parse).value <= 0.0 ==>
      r.value.value == ToFloat(lp, parse).value + 1.0
  {
    if lp.VNone? then Success(None)
    else
      match ToFloat(lp, parse)
      case Failure(e) => Failure(e)
      case Success(x) =>
        var conf := (x + 1.0) / 1.0;
        var conf := if conf < 0.0 then 0.0 else conf;
        var conf := if conf > 1.0 then 1.0 else conf;
        Success(Some(conf))
  }

  /** A higher log-probability never gives a lower confidence. */
  lemma NormConfMonotone(lp1: Value, lp2: Value, parse: string -> Option<real>)
    requires NormConf(lp1, parse).Success? && NormConf(lp1, parse).value.Some?
    requires NormConf(lp2, parse).Success? && NormConf(lp2, parse).value.Some?
    requires ToFloat(lp1, parse).value <= ToFloat(lp2, parse).value
    ensures NormConf(lp1, parse).value.value <= NormConf(lp2, parse).value.value
  {
  }

  /** The copy of a segment with `duration`, `pause_before` and, when there is one,
      `conf` set. */
  function Annotated(seg: Dict, dur: real, pb: real, conf: Option<real>): Dict {
    var d := seg["duration" := VFloat(dur)]["pause_before" := VFloat(pb)];
    if conf.Some? then d["conf" := VFloat(conf.value)] else d
  }

  /** The loop's running state: the annotated segments so far, the end of the last
      segment, the speech and pause time, and the confidences seen. */
  datatype Acc = Acc(segs: seq<Dict>, prevEnd: Option<real>, speech: real, pause: real, confs: seq<real>)

  /** One iteration of the loop over the segments. */
  function Step(acc: Acc, seg: Dict, parse: string -> Option<real>): Result<Acc, PyError> {
    match Transcript.StartEnd(seg, parse)
    case Failure(e) => Failure(e)
    case Success(se) =>
      var (start, end) := se;
      var dur := NonNeg(end - start);
      var pb := if acc.prevEnd.Some? then NonNeg(start - acc.prevEnd.value) else 0.0;
      match NormConf(Get(seg, "avg_logprob", VNone), parse)
      case Failure(e) => Failure(e)
      case Success(conf) =>
        Success(Acc(acc.segs + [Annotated(seg, dur, pb, conf)], Some(end), acc.speech + dur, acc.pause + pb,
                    if conf.Some? then acc.confs + [conf.value] else acc.confs))
  }

  /** How the annotated copy relates to its segment: every other key is kept, the
      duration and the pause are non-negative, and `conf` is the confidence `NormConf`
      derives from the segment's log-probability when it has one (a value in [0, 1])
      and is left as it was otherwise. */
  ghost predicate AnnotatedFrom(out: Dict, seg: Dict, parse: string -> Option<real>) {
    && (forall key :: key in seg ==> key in out)
    && (forall key :: key in out && key != "duration" && key != "pause_before" && key != "conf" ==>
          key in seg && out[key] == seg[key])
    && "duration" in out && out["duration"].VFloat? && out["duration"].r >= 0.0
    && "pause_before" in out && out["pause_before"].VFloat? && out["pause_before"].r >= 0.0
    && (Get(seg, "avg_logprob", VNone).VNone? ==> Get(out, "conf", VNone) == Get(seg, "conf", VNone))
    && (!Get(seg, "avg_logprob", VNone).VNone? ==>
          && "conf" in out && out["conf"].VFloat? && 0.0 <= out["conf"].r <= 1.0
          && NormConf(Get(seg, "avg_logprob", VNone), parse) == Success(Some(out["conf"].r)))
  }

  /** Every confidence lies in [0, 1]. */
  ghost predicate UnitValues(confs: seq<real>) {
    forall k :: 0 <= k < |confs| ==> 0.0 <= confs[k] <= 1.0
  }

  /** The loop over `segments`, or the exception the first failing conversion raises. */
  function Accumulate(segments: seq<Dict>, parse: string -> Option<real>): (r: Result<Acc, PyError>)
    ensures r.Success? ==> |r.value.segs| == |segments|
  {
    if segments == [] then Success(Acc([], None, 0.0, 0.0, []))
    else
      match Accumulate(segments[..|segments| - 1], parse)
      case Failure(e) => Failure(e)
      case Success(acc) => Step(acc, segments[|segments| - 1], parse)
  }

  /** A successful step converted its segment, added non-negative time and kept the
      earlier copies and confidences. */
  lemma StepTimes(acc: Acc, seg: Dict, parse: string -> Option<real>)
    requires Step(acc, seg, parse).Success?
    ensures var acc' := Step(acc, seg, parse).value;
      && Transcript.StartEnd(seg, parse).Success?
      && acc'.speech >= acc.speech && acc'.pause >= acc.pause
      && acc'.prevEnd == Some(Transcript.StartEnd(seg, parse).value.1)
      && acc'.segs[..|acc.segs|] == acc.segs
      && acc'.confs[..|acc.confs|] == acc.confs
  {
  }

  /** The copy a successful step appends is annotated from its segment. */
  lemma StepCopy(acc: Acc, seg: Dict, parse: string -> Option<real>)
    requires Step(acc, seg, parse).Success?
    ensures AnnotatedFrom(Step(acc, seg, parse).value.segs[|acc.segs|], seg, parse)
  {
  }

  /** A successful step collects a confidence in [0, 1] exactly when its segment has a
      log-probability. */
  lemma StepConf(acc: Acc, seg: Dict, parse: string -> Option<real>)
    requires Step(acc, seg, parse).Success?
    ensures var acc' := Step(acc, seg, parse).value;
      && (Get(seg, "avg_logprob", VNone).VNone? ==> acc'.confs == acc.confs)
      && (!Get(seg, "avg_logprob", VNone).VNone? ==>
            |acc'.confs| == |acc.confs| + 1 && 0.0 <= acc'.confs[|acc.confs|] <= 1.0)
  {
  }

  /** A loop that ran to the end converted every segment and accumulated non-negative
      speech and pause times. */
  lemma {:induction false} AccumulateTimes(segments: seq<Dict>, parse: string -> Option<real>)
    requires Accumulate(segments, parse).Success?
    ensures var acc := Accumulate(segments, parse).value;
      && acc.speech >= 0.0 && acc.pause >= 0.0
      && (acc.prevEnd.None? <==> segments == [])
      && (forall k :: 0 <= k < |segments| ==> Transcript.StartEnd(segments[k], parse).Success?)
      && (segments != [] ==> acc.prevEnd == Some(Transcript.StartEnd(segments[|segments| - 1], parse).value.1))
  {
    if segments != [] {
      var pre := segments[..|segments| - 1];
      AccumulateTimes(pre, parse);
      StepTimes(Accumulate(pre, parse).value, segments[|segments| - 1], parse);
      assert forall k :: 0 <= k < |pre| ==> segments[k] == pre[k];
    }
  }

  /** A loop that ran to the end made one annotated copy per segment. */
  lemma {:induction false} AccumulateCopies(segments: seq<Dict>, parse: string -> Option<real>)
    requires Accumulate(segments, parse).Success?
    ensures forall k :: 0 <= k < |segments| ==> AnnotatedFrom(Accumulate(segments, parse).value.segs[k], segments[k], parse)
  {
    if segments != [] {
      var pre := segments[..|segments| - 1];
      var acc := Accumulate(pre, parse).value;
      AccumulateCopies(pre, parse);
      StepTimes(acc, segments[|segments| - 1], parse);
      StepCopy(acc, segments[|segments| - 1], parse);
      var last := segments[|segments| - 1];
      assert Accumulate(segments, parse) == Step(acc, last, parse);
      var acc' := Step(acc, last, parse).value;
      forall k | 0 <= k < |segments| ensures AnnotatedFrom(acc'.segs[k], segments[k], parse) {
        if k < |pre| {
          assert acc'.segs[k] == acc'.segs[..|acc.segs|][k] == acc.segs[k];
          assert segments[k] == pre[k];
        } else {
          assert k == |acc.segs| && segments[k] == last;
        }
      }
    }
  }

  /** The duration and pause recorded on the copy of segment `k`: the segment's end
      minus its start, and for every segment but the first the time since the previous
      segment's end, both clamped at 0. */
  ghost predicate Timed(segments: seq<Dict>, out: seq<Dict>, k: nat, parse: string -> Option<real>)
    requires k < |segments| && k < |out|
  {
    var se := Transcript.StartEnd(segments[k], parse);
    && se.Success?
    && "duration" in out[k] && out[k]["duration"] == VFloat(NonNeg(se.value.1 - se.value.0))
    && "pause_before" in out[k]
    && (k == 0 ==> out[k]["pause_before"] == VFloat(0.0))
    && (k > 0 ==>
          && Transcript.StartEnd(segments[k - 1], parse).Success?
          && out[k]["pause_before"] == VFloat(NonNeg(se.value.0 - Transcript.StartEnd(segments[k - 1], parse).value.1)))
  }

  /** The copy a successful step appends records the segment's duration and the pause
      since `prevEnd`. */
  lemma StepTimed(acc: Acc, seg: Dict, parse: string -> Option<real>)
    requires Step(acc, seg, parse).Success?
    ensures var out := Step(acc, seg, parse).value.segs[|acc.segs|];
      var se := Transcript.StartEnd(seg, parse).value;
      && "duration" in out && out["duration"] == VFloat(NonNeg(se.1 - se.0))
      && "pause_before" in out
      && out["pause_before"] == VFloat(if acc.prevEnd.Some? then NonNeg(se.0 - acc.prevEnd.value) else 0.0)
  {
  }

  /** Each copy records its segment's duration and the pause before it. */
  lemma {:induction false} AccumulateTimed(segments: seq<Dict>, parse: string -> Option<real>)
    requires Accumulate(segments, parse).Success?
    ensures forall k :: 0 <= k < |segments| ==> Timed(segments, Accumulate(segments, parse).value.segs, k, parse)
  {
    if segments != [] {
      var pre := segments[..|segments| - 1];
      var last := segments[|segments| - 1];
      var acc := Accumulate(pre, parse).value;
      AccumulateTimed(pre, parse);
      AccumulateTimes(pre, parse);
      StepTimes(acc, last, parse);
      StepTimed(acc, last, parse);
      assert Accumulate(segments, parse) == Step(acc, last, parse);
      var out := Step(acc, last, parse).value.segs;
      forall k | 0 <= k < |segments| ensures Timed(segments, out, k, parse) {
        if k < |pre| {
          assert out[k] == out[..|acc.segs|][k] == acc.segs[k];
          assert segments[k] == pre[k];
          assert k > 0 ==> segments[k - 1] == pre[k - 1];
          assert Timed(pre, acc.segs, k, parse);
        } else {
          assert k == |acc.segs| && segments[k] == last;
          assert k > 0 ==> segments[k - 1] == pre[|pre| - 1];
        }
      }
    }
  }

  /** A loop that ran to the end collected confidences in [0, 1], and collected some
      exactly when some segment has a log-probability. */
  lemma {:induction false} AccumulateConfs(segments: seq<Dict>, parse: string -> Option<real>)
    requires Accumulate(segments, parse).Success?
    ensures var acc := Accumulate(segments, parse).value;
      && UnitValues(acc.confs)
      && (acc.confs == [] <==> forall k :: 0 <= k < |segments| ==> Get(segments[k], "avg_logprob", VNone).VNone?)
  {
    if segments != [] {
      var pre := segments[..|segments| - 1];
      var acc := Accumulate(pre, parse).value;
      AccumulateConfs(pre, parse);
      StepTimes(acc, segments[|segments| - 1], parse);
      StepConf(acc, segments[|segments| - 1], parse);
      var acc' := Accumulate(segments, parse).value;
      assert forall k :: 0 <= k < |pre| ==> segments[k] == pre[k];
      assert forall k :: 0 <= k < |acc.confs| ==> acc'.confs[k] == acc'.confs[..|acc.confs|][k];
    }
  }

  /** The number a float value holds; any other value counts as 0. */
  function FloatValue(v: Value): real {
    if v.VFloat? then v.r else 0.0
  }

  /** The sum of field `key` over the copies, in order. */
  function FieldSum(segs: seq<Dict>, key: string): real {
    if segs == [] then 0.0 else FieldSum(segs[..|segs| - 1], key) + FloatValue(Get(segs[|segs| - 1], key, VNone))
  }

  /** The `conf` values of the copies whose segment has a log-probability, in order. */
  function CopyConfs(segs: seq<Dict>, segments: seq<Dict>): seq<real>
    requires |segs| == |segments|
  {
    if segments == [] then []
    else
      var earlier := CopyConfs(segs[..|segs| - 1], segments[..|segments| - 1]);
      if Get(segments[|segments| - 1], "avg_logprob", VNone).VNone? then earlier
      else earlier + [FloatValue(Get(segs[|segs| - 1], "conf", VNone))]
  }

  /** A successful step adds the duration and the pause recorded on the copy it appends
      to the totals, and collects that copy's `conf` when its segment has a
      log-probability. */
  lemma StepSums(acc: Acc, seg: Dict, parse: string -> Option<real>)
    requires Step(acc, seg, parse).Success?
    ensures var acc' := Step(acc, seg, parse).value;
      var out := acc'.segs[|acc.segs|];
      && acc'.speech == acc.speech + FloatValue(Get(out, "duration", VNone))
      && acc'.pause == acc.pause + FloatValue(Get(out, "pause_before", VNone))
      && acc'.confs == if Get(seg, "avg_logprob", VNone).VNone? then acc.confs
                       else acc.confs + [FloatValue(Get(out, "conf", VNone))]
  {
  }

  /** A loop that ran to the end holds as speech time the sum of the copies' durations,
      as pause time the sum of their pauses, and as confidences the `conf` values of the
      copies whose segment has a log-probability. */
  lemma {:induction false} AccumulateSums(segments: seq<Dict>, parse: string -> Option<real>)
    requires Accumulate(segments, parse).Success?
    ensures var acc := Accumulate(segments, parse).value;
      && acc.speech == FieldSum(acc.segs, "duration")
      && acc.pause == FieldSum(acc.segs, "pause_before")
      && acc.confs == CopyConfs(acc.segs, segments)
  {
    if segments != [] {
      var pre := segments[..|segments| - 1];
      var last := segments[|segments| - 1];
      var acc := Accumulate(pre, parse).value;
      AccumulateSums(pre, parse);
      StepTimes(acc, last, parse);
      StepSums(acc, last, parse);
      assert Accumulate(segments, parse) == Step(acc, last, parse);
      var acc' := Step(acc, last, parse).value;
      assert acc'.segs[..|acc'.segs| - 1] == acc.segs;
    }
  }

  /** An exception raised at some segment is the result of the whole loop. */
  lemma {:induction false} FailurePersists(segments: seq<Dict>, n: nat, parse: string -> Option<real>)
    requires n <= |segments|
    requires Accumulate(segments[..n], parse).Failure?
    ensures Accumulate(segments, parse) == Accumulate(segments[..n], parse)
    decreases |segments| - n
  {
    if n < |segments| {
      assert segments[..n + 1][..n] == segments[..n];
      FailurePersists(segments, n + 1, parse);
    } else {
      assert segments[..n] == segments;
    }
  }

  /** The result of the fluency analysis. */
  datatype Metrics = Metrics(segments: seq<Dict>, articRate: real, pauseRatio: real,
                             filledPauses: real, avgConf: Option<real>)

  /** The number of filled pauses among the words. */
  function FilledCount(words: seq<string>): (n: nat)
    ensures n <= |words|
    ensures n == 0 <==> forall k :: 0 <= k < |words| ==> words[k] !in FilledWords
  {
    if words == [] then 0
    else FilledCount(words[..|words| - 1]) + (if words[|words| - 1] in FilledWords then 1 else 0)
  }

  function Sum(xs: seq<real>): real {
    if xs == [] then 0.0 else Sum(xs[..|xs| - 1]) + xs[|xs| - 1]
  }

  /** The mean of values in [0, 1] lies in [0, 1]. */
  lemma {:induction false} SumBounds(xs: seq<real>)
    requires UnitValues(xs)
    ensures 0.0 <= Sum(xs) <= |xs| as real
  {
    if xs != [] {
      SumBounds(xs[..|xs| - 1]);
    }
  }

  lemma RatioBounds(x: real, y: real)
    requires 0.0 <= x <= y && y > 0.0
    ensures 0.0 <= x / y <= 1.0
  {
    assert x / y * y == x;
  }

  /** The mean of the values, or `None` when there are none. */
  function Mean(xs: seq<real>): Option<real> {
    if xs == [] then None else Some(Sum(xs) / |xs| as real)
  }

  /** `segments[-1].get("end", 0.0)` minus `segments[0].get("start", 0.0)`, clamped at
      zero, or the exception a conversion raises. */
  function TotalTime(segments: seq<Dict>, parse: string -> Option<real>): Result<real, PyError> {
    if segments == [] then Success(0.0)
    else
      match ToFloat(Get(segments[|segments| - 1], "end", VFloat(0.0)), parse)
      case Failure(e) => Failure(e)
      case Success(last) =>
        match ToFloat(Get(segments[0], "start", VFloat(0.0)), parse)
        case Failure(e) => Failure(e)
        case Success(first) => Success(NonNeg(last - first))
  }

  /** `n_words * (60 / speech_time)` when any speech was heard, 0 otherwise. */
  function ArticRate(nWords: nat, speech: real): real {
    if speech > Epsilon then nWords as real * (60.0 / speech) else 0.0
  }

  lemma ArticRateNonNeg(nWords: nat, speech: real)
    ensures ArticRate(nWords, speech) >= 0.0
  {
    if speech > Epsilon {
      var perMinute := 60.0 / speech;
      assert perMinute > 0.0;
      assert nWords as real * perMinute >= 0.0;
    }
  }

  /** The pause time over the total time, or over speech plus pauses when the total is
      too small; 0 when that is too small as well. */
  function PauseRatio(total: real, speech: real, pause: real): real {
    var denom := if total > Epsilon then total else speech + pause;
    if denom > Epsilon then pause / denom else 0.0
  }

  /** The metrics `_augment_segments_and_fluency` returns, or the exception it raises. */
  function FluencyOf(segments: seq<Dict>, hypText: string, clean: string -> string,
                     parse: string -> Option<real>): Result<Metrics, PyError>
  {
    match Accumulate(segments, parse)
    case Failure(e) => Failure(e)
    case Success(acc) =>
      match TotalTime(segments, parse)
      case Failure(e) => Failure(e)
      case Success(total) =>
        var words := Text.Split(clean(hypText));
        Success(Metrics(acc.segs, ArticRate(|words|, acc.speech), PauseRatio(total, acc.speech, acc.pause),
                        FilledCount(words) as real,
                        Mean(acc.confs)))
  }

  /** Once the loop has converted every segment, the total time cannot raise: the
      conversions it repeats already succeeded. */
  lemma TotalTimeConverts(segments: seq<Dict>, parse: string -> Option<real>)
    requires Accumulate(segments, parse).Success?
    ensures TotalTime(segments, parse).Success?
  {
    AccumulateTimes(segments, parse);
    if segments != [] {
      assert Transcript.StartEnd(segments[|segments| - 1], parse).Success?;
      assert Transcript.StartEnd(segments[0], parse).Success?;
    }
  }

  /**
   * The metrics are in range: the articulation rate, the pause ratio and the
   * filled-pause count are non-negative, the count is at most the number of words, and
   * the mean confidence lies in [0, 1] and is present exactly when some segment
   * carries a log-probability.
   */
  lemma MetricsBounds(segments: seq<Dict>, hypText: string, clean: string -> string, parse: string -> Option<real>)
    requires FluencyOf(segments, hypText, clean, parse).Success?
    ensures var m := FluencyOf(segments, hypText, clean, parse).value;
      && m.articRate >= 0.0
      && m.pauseRatio >= 0.0
      && 0.0 <= m.filledPauses <= |Text.Split(clean(hypText))| as real
      && (m.avgConf.Some? ==> 0.0 <= m.avgConf.value <= 1.0)
      && (m.avgConf.None? <==> forall k :: 0 <= k < |segments| ==> Get(segments[k], "avg_logprob", VNone).VNone?)
  {
    var acc := Accumulate(segments, parse).value;
    var total := TotalTime(segments, parse).value;
    AccumulateTimes(segments, parse);
    AccumulateConfs(segments, parse);
    if acc.confs != [] {
      SumBounds(acc.confs);
      RatioBounds(Sum(acc.confs), |acc.confs| as real);
    }
    ArticRateNonNeg(|Text.Split(clean(hypText))|, acc.speech);
    PauseRatioNonNeg(total, acc.speech, acc.pause);
  }

  /** Each segment comes back as its annotated copy, in order, recording its duration
      and the pause before it. */
  lemma MetricsSegments(segments: seq<Dict>, hypText: string, clean: string -> string, parse: string -> Option<real>)
    requires FluencyOf(segments, hypText, clean, parse).Success?
    ensures var m := FluencyOf(segments, hypText, clean, parse).value;
      && |m.segments| == |segments|
      && (forall k :: 0 <= k < |segments| ==> AnnotatedFrom(m.segments[k], segments[k], parse))
      && (forall k :: 0 <= k < |segments| ==> Timed(segments, m.segments, k, parse))
  {
    AccumulateCopies(segments, parse);
    AccumulateTimed(segments, parse);
  }

  lemma PauseRatioNonNeg(total: real, speech: real, pause: real)
    requires total >= 0.0 && speech >= 0.0 && pause >= 0.0
    ensures PauseRatio(total, speech, pause) >= 0.0
  {
    var denom := if total > Epsilon then total else speech + pause;
    if denom > Epsilon {
      assert pause / denom * denom == pause;
    }
  }

  /**
   * What the metrics are made of: the articulation rate and the pause ratio come from
   * the sums of the durations and the pauses recorded on the returned copies, the
   * filled pauses are counted among the cleaned hypothesis words, and the mean
   * confidence is the mean of the copies' `conf` values over the segments that carry a
   * log-probability.
   */
  lemma MetricsValues(segments: seq<Dict>, hypText: string, clean: string -> string, parse: string -> Option<real>)
    requires FluencyOf(segments, hypText, clean, parse).Success?
    ensures var m := FluencyOf(segments, hypText, clean, parse).value;
      var words := Text.Split(clean(hypText));
      var speech := FieldSum(m.segments, "duration");
      && TotalTime(segments, parse).Success?
      && m.articRate == ArticRate(|words|, speech)
      && m.pauseRatio == PauseRatio(TotalTime(segments, parse).value, speech, FieldSum(m.segments, "pause_before"))
      && m.filledPauses == FilledCount(words) as real
      && |m.segments| == |segments|
      && m.avgConf == Mean(CopyConfs(m.segments, segments))
  {
    AccumulateSums(segments, parse);
  }

  /** The words a rate in words per minute accounts for over `speech` seconds. */
  function WordsOver(rate: real, speech: real): real {
    rate * (speech / 60.0)
  }

  /** Over the minutes of speech the returned copies record, the articulation rate
      accounts for exactly the words of the cleaned hypothesis; with no speech above
      `Epsilon` the rate is 0. */
  lemma ArticRateMeaning(segments: seq<Dict>, hypText: string, clean: string -> string, parse: string -> Option<real>)
    requires FluencyOf(segments, hypText, clean, parse).Success?
    ensures var m := FluencyOf(segments, hypText, clean, parse).value;
      var speech := FieldSum(m.segments, "duration");
      && (speech > Epsilon ==> WordsOver(m.articRate, speech) == |Text.Split(clean(hypText))| as real)
      && (speech <= Epsilon ==> m.articRate == 0.0)
  {
    var m := FluencyOf(segments, hypText, clean, parse).value;
    MetricsValues(segments, hypText, clean, parse);
    RateTimesMinutes(m.articRate, |Text.Split(clean(hypText))|, FieldSum(m.segments, "duration"));
  }

  lemma RateTimesMinutes(rate: real, nWords: nat, speech: real)
    requires rate == ArticRate(nWords, speech)
    ensures speech > Epsilon ==> WordsOver(rate, speech) == nWords as real
    ensures speech <= Epsilon ==> rate == 0.0
  {
  }

  /** The recogniser's segments follow one another: each converts, starts at or after
      time 0 and after the previous one ends, and ends at or after its start. */
  ghost predicate Timeline(segments: seq<Dict>, parse: string -> Option<real>) {
    && (forall k :: 0 <= k < |segments| ==> Transcript.StartEnd(segments[k], parse).Success?)
    && (forall k :: 0 <= k < |segments| ==>
          0.0 <= Transcript.StartEnd(segments[k], parse).value.0 <= Transcript.StartEnd(segments[k], parse).value.1)
    && (forall k :: 0 < k < |segments| ==>
          Transcript.StartEnd(segments[k - 1], parse).value.1 <= Transcript.StartEnd(segments[k], parse).value.0)
  }

  /** On such a timeline the speech and the pauses add up to the time from the first
      start to the last end. */
  lemma {:induction false} TimelineAddsUp(segments: seq<Dict>, parse: string -> Option<real>)
    requires segments != [] && Timeline(segments, parse)
    requires Accumulate(segments, parse).Success?
    ensures var acc := Accumulate(segments, parse).value;
      && acc.prevEnd == Some(Transcript.StartEnd(segments[|segments| - 1], parse).value.1)
      && acc.speech + acc.pause
         == Transcript.StartEnd(segments[|segments| - 1], parse).value.1 - Transcript.StartEnd(segments[0], parse).value.0
  {
    var pre := segments[..|segments| - 1];
    var last := segments[|segments| - 1];
    var acc := Accumulate(pre, parse).value;
    StepTimes(acc, last, parse);
    if pre != [] {
      assert Timeline(pre, parse) by {
        assert forall k :: 0 <= k < |pre| ==> pre[k] == segments[k];
      }
      TimelineAddsUp(pre, parse);
      assert pre[|pre| - 1] == segments[|segments| - 2];
    }
  }

  /** On such a timeline the pause ratio is at most 1. */
  lemma PauseRatioAtMostOne(segments: seq<Dict>, hypText: string, clean: string -> string,
                            parse: string -> Option<real>)
    requires Timeline(segments, parse)
    requires FluencyOf(segments, hypText, clean, parse).Success?
    ensures FluencyOf(segments, hypText, clean, parse).value.pauseRatio <= 1.0
  {
    var acc := Accumulate(segments, parse).value;
    var total := TotalTime(segments, parse).value;
    AccumulateTimes(segments, parse);
    if segments != [] {
      TotalCoversPauses(segments, parse);
    }
    PauseRatioBounded(total, acc.speech, acc.pause);
  }

  /** On a timeline, a total time above `Epsilon` is at least the sum of the pauses. */
  lemma TotalCoversPauses(segments: seq<Dict>, parse: string -> Option<real>)
    requires segments != [] && Timeline(segments, parse)
    requires Accumulate(segments, parse).Success? && TotalTime(segments, parse).Success?
    ensures TotalTime(segments, parse).value > Epsilon ==>
      Accumulate(segments, parse).value.pause <= TotalTime(segments, parse).value
  {
    var acc := Accumulate(segments, parse).value;
    var total := TotalTime(segments, parse).value;
    AccumulateTimes(segments, parse);
    TimelineAddsUp(segments, parse);
    var first := Transcript.StartEnd(segments[0], parse).value;
    var last := segments[|segments| - 1];
    var lastEnd := Transcript.StartEnd(last, parse).value.1;
    if "end" in last {
      assert total == NonNeg(lastEnd - first.0);
    } else {
      assert total == NonNeg(0.0 - first.0);
    }
  }

  /** The pause ratio is at most one when the pauses fit in a total time above `Epsilon`. */
  lemma PauseRatioBounded(total: real, speech: real, pause: real)
    requires 0.0 <= speech && 0.0 <= pause && (total > Epsilon ==> pause <= total)
    ensures PauseRatio(total, speech, pause) <= 1.0
  {
    var denom := if total > Epsilon then total else speech + pause;
    if denom > Epsilon {
      RatioBounds(pause, denom);
    }
  }

  /**
   * The loop of `_augment_segments_and_fluency`: one pass over the segments
   * accumulating the annotated copies, the speech and pause times and the confidences.
   */
  method AccumulateSegments(segments: seq<Dict>, parse: string -> Option<real>) returns (r: Result<Acc, PyError>)
    ensures r == Accumulate(segments, parse)
  {
    var segs: seq<Dict> := [];
    var prevEnd: Option<real> := None;
    var speechTime := 0.0;
    var pauseTime := 0.0;
    var confVals: seq<real> := [];
    var n := 0;
    while n < |segments|
      invariant n <= |segments|
      invariant Accumulate(segments[..n], parse) == Success(Acc(segs, prevEnd, speechTime, pauseTime, confVals))
    {
      var seg := segments[n];
      assert segments[..n + 1][..n] == segments[..n] && segments[..n + 1][n] == seg;
      var next := AddSegment(Acc(segs, prevEnd, speechTime, pauseTime, confVals), seg, parse);
      if next.Failure? {
        FailurePersists(segments, n + 1, parse);
        return Failure(next.error);
      }
      segs, prevEnd, speechTime, pauseTime, confVals :=
        next.value.segs, next.value.prevEnd, next.value.speech, next.value.pause, next.value.confs;
      n := n + 1;
    }
    assert segments[..n] == segments;
    r := Success(Acc(segs, prevEnd, speechTime, pauseTime, confVals));
  }

  /** The body of the loop over the segments: annotate one segment and add its times and
      confidence to the totals, or the exception a conversion raises. */
  method AddSegment(acc: Acc, seg: Dict, parse: string -> Option<real>) returns (r: Result<Acc, PyError>)
    ensures r == Step(acc, seg, parse)
  {
    var startV := ToFloat(Get(seg, "start", VFloat(0.0)), parse);
    if startV.Failure? {
      return Failure(startV.error);
    }
    var start := startV.value;
    var endV := ToFloat(Get(seg, "end", VFloat(start)), parse);
    if endV.Failure? {
      return Failure(endV.error);
    }
    var end := endV.value;
    var dur := NonNeg(end - start);
    var pb := 0.0;
    var pauseTime := acc.pause;
    if acc.prevEnd.Some? {
      pb := NonNeg(start - acc.prevEnd.value);
      pauseTime := pauseTime + pb;
    }
    var speechTime := acc.speech + dur;
    var conf := NormConf(Get(seg, "avg_logprob", VNone), parse);
    if conf.Failure? {
      return Failure(conf.error);
    }
    var confVals := acc.confs;
    if conf.value.Some? {
      confVals := confVals + [conf.value.value];
    }
    r := Success(Acc(acc.segs + [Annotated(seg, dur, pb, conf.value)], Some(end), speechTime, pauseTime, confVals));
  }

  /**
   * `_augment_segments_and_fluency`: the annotated segments, the articulation rate in
   * words per minute of speech, the pause ratio, the filled-pause count and the mean
   * confidence, or the exception a conversion raises.
   */
  method AugmentSegmentsAndFluency(segments: seq<Dict>, hypText: string, clean: string -> string,
                                   parse: string -> Option<real>)
    returns (r: Result<Metrics, PyError>)
    ensures r == FluencyOf(segments, hypText, clean, parse)
    ensures r.Success? ==>
      var speech := FieldSum(r.value.segments, "duration");
      && r.value.articRate == ArticRate(|Text.Split(clean(hypText))|, speech)
      && r.value.pauseRatio == PauseRatio(TotalTime(segments, parse).value, speech, FieldSum(r.value.segments, "pause_before"))
      && |r.value.segments| == |segments|
      && r.value.avgConf == Mean(CopyConfs(r.value.segments, segments))
  {
    var acc := AccumulateSegments(segments, parse);
    if acc.Failure? {
      return Failure(acc.error);
    }
    var totalTime := TotalTime(segments, parse);
    if totalTime.Failure? {
      return Failure(totalTime.error);
    }
    var words := Text.Split(clean(hypText));
    r := Success(Metrics(acc.value.segs, ArticRate(|words|, acc.value.speech),
                         PauseRatio(totalTime.value, acc.value.speech, acc.value.pause),
                         FilledCount(words) as real, Mean(acc.value.confs)));
    MetricsValues(segments, hypText, clean, parse);
  }
}
