/**
 * The transcript view's data (`transcript_utils.py`): the text built from the
 * recogniser's segments with the character range and time window of each, and the
 * choice of the segment under the playhead.
 */
module Transcript {
  import opened Wrappers
  import opened PyValues

  /** `(start_char, end_char, t0, t1)`: where a segment sits in the text and when it is spoken. */
  datatype CharRange = CharRange(startChar: nat, endChar: nat, t0: real, t1: real)

  /** The four results of `build_transcript_from_segments`. */
  datatype Built = Built(text: string, segments: seq<Dict>, ranges: seq<CharRange>, activeIndex: int)

  /** `str(seg.get("text", ""))`; `render` stands for Python's `str()` of a non-string value. */
  function SegText(seg: Dict, render: Value -> string): string {
    match Get(seg, "text", VStr(""))
    case VStr(s) => s
    case v => render(v)
  }

  /** The segments the transcript keeps: dictionaries whose text is not empty, in order. */
  function KeptSegments(objs: seq<Value>, render: Value -> string): seq<Dict>
  {
    if objs == [] then []
    else
      var pre := KeptSegments(objs[..|objs| - 1], render);
      var last := objs[|objs| - 1];
      if last.VDict? && SegText(last.entries, render) != "" then pre + [last.entries] else pre
  }

  /** `float(seg.get("start", 0.0))` and then `float(seg.get("end", start))`, or the
      exception the first failing conversion raises. */
  function StartEnd(seg: Dict, parse: string -> Option<real>): (r: Result<(real, real), PyError>)
    ensures r.Success? <==> (
      && ToFloat(Get(seg, "start", VFloat(0.0)), parse).Success?
      && ToFloat(Get(seg, "end", VFloat(ToFloat(Get(seg, "start", VFloat(0.0)), parse).value)), parse).Success?)
    ensures r.Success? && "end" !in seg ==> r.value.1 == r.value.0
  {
    match ToFloat(Get(seg, "start", VFloat(0.0)), parse)
    case Failure(e) => Failure(e)
    case Success(start) =>
      match ToFloat(Get(seg, "end", VFloat(start)), parse)
      case Failure(e) => Failure(e)
      case Success(end) => Success((start, end))
  }

  /** `(t0, t1)` of a transcript range: the segment's start and end, or `(0, 0)` when
      either conversion raises. */
  function Times(seg: Dict, parse: string -> Option<real>): (real, real)
  {
    match StartEnd(seg, parse)
    case Success(se) => se
    case Failure(_) => (0.0, 0.0)
  }

  lemma KeptStep(objs: seq<Value>, n: nat, render: Value -> string)
    requires n < |objs|
    ensures KeptSegments(objs[..n + 1], render) ==
      if objs[n].VDict? && SegText(objs[n].entries, render) != "" then KeptSegments(objs[..n], render) + [objs[n].entries]
      else KeptSegments(objs[..n], render)
  {
    assert objs[..n + 1][..n] == objs[..n];
  }

  /** The texts of the kept segments, joined. */
  function JoinTexts(segs: seq<Dict>, render: Value -> string): string {
    if segs == [] then "" else JoinTexts(segs[..|segs| - 1], render) + SegText(segs[|segs| - 1], render)
  }

  /** A range holds exactly its segment's text, inside the text, together with the
      segment's time window. */
  predicate RangeHolds(text: string, r: CharRange, seg: Dict,
                       render: Value -> string, parse: string -> Option<real>)
  {
    && r.startChar < r.endChar <= |text|
    && text[r.startChar..r.endChar] == SegText(seg, render)
    && (r.t0, r.t1) == Times(seg, parse)
  }

  /** The ranges are contiguous: each starts where the previous one ends. */
  predicate Contiguous(ranges: seq<CharRange>) {
    forall k :: 0 <= k < |ranges| - 1 ==> ranges[k].endChar == ranges[k + 1].startChar
  }

  lemma JoinStep(segs: seq<Dict>, seg: Dict, render: Value -> string)
    ensures JoinTexts(segs + [seg], render) == JoinTexts(segs, render) + SegText(seg, render)
  {
    assert (segs + [seg])[..|segs|] == segs;
  }

  /**
   * The ranges tile the text: the first starts at 0, each starts where the previous
   * one ends, the last ends at the end of the text, and each range holds exactly the
   * text of its segment together with that segment's time window.
   */
  predicate RangesDescribe(text: string, segs: seq<Dict>, ranges: seq<CharRange>,
                           render: Value -> string, parse: string -> Option<real>)
  {
    && |ranges| == |segs|
    && (ranges == [] ==> text == "")
    && (ranges != [] ==> ranges[0].startChar == 0 && ranges[|ranges| - 1].endChar == |text|)
    && Contiguous(ranges)
    && (forall k :: 0 <= k < |ranges| ==> RangeHolds(text, ranges[k], segs[k], render, parse))
  }

  lemma RangeHoldsExtend(text: string, s: string, r: CharRange, seg: Dict,
                         render: Value -> string, parse: string -> Option<real>)
    requires RangeHolds(text, r, seg, render, parse)
    ensures RangeHolds(text + s, r, seg, render, parse)
  {
    assert (text + s)[r.startChar..r.endChar] == text[r.startChar..r.endChar];
  }

  /** Extending a described text by one more segment keeps it described. */
  lemma DescribeStep(text: string, segs: seq<Dict>, ranges: seq<CharRange>, seg: Dict,
                     render: Value -> string, parse: string -> Option<real>)
    requires RangesDescribe(text, segs, ranges, render, parse)
    requires SegText(seg, render) != ""
    ensures var s := SegText(seg, render);
      var times := Times(seg, parse);
      RangesDescribe(text + s, segs + [seg], ranges + [CharRange(|text|, |text| + |s|, times.0, times.1)], render, parse)
  {
    var s := SegText(seg, render);
    var times := Times(seg, parse);
    var r := CharRange(|text|, |text| + |s|, times.0, times.1);
    NewRangeHolds(text, seg, render, parse);
    HoldsAllExtend(text, s, segs, ranges, r, seg, render, parse);
    ContiguousExtend(ranges, r);
  }

  lemma NewRangeHolds(text: string, seg: Dict, render: Value -> string, parse: string -> Option<real>)
    requires SegText(seg, render) != ""
    ensures var s := SegText(seg, render);
      var times := Times(seg, parse);
      RangeHolds(text + s, CharRange(|text|, |text| + |s|, times.0, times.1), seg, render, parse)
  {
    var s := SegText(seg, render);
    assert (text + s)[|text|..|text + s|] == s;
  }

  lemma ContiguousExtend(ranges: seq<CharRange>, r: CharRange)
    requires Contiguous(ranges)
    requires ranges != [] ==> ranges[|ranges| - 1].endChar == r.startChar
    ensures Contiguous(ranges + [r])
  {
    forall k | 0 <= k < |ranges|
      ensures (ranges + [r])[k].endChar == (ranges + [r])[k + 1].startChar
    {
      if k < |ranges| - 1 {
        assert (ranges + [r])[k + 1] == ranges[k + 1];
      }
    }
  }

  lemma HoldsAllExtend(text: string, s: string, segs: seq<Dict>, ranges: seq<CharRange>, r: CharRange, seg: Dict,
                       render: Value -> string, parse: string -> Option<real>)
    requires |ranges| == |segs|
    requires forall k :: 0 <= k < |ranges| ==> RangeHolds(text, ranges[k], segs[k], render, parse)
    requires RangeHolds(text + s, r, seg, render, parse)
    ensures forall k :: 0 <= k < |ranges| + 1 ==> RangeHolds(text + s, (ranges + [r])[k], (segs + [seg])[k], render, parse)
  {
    forall k | 0 <= k < |ranges| + 1
      ensures RangeHolds(text + s, (ranges + [r])[k], (segs + [seg])[k], render, parse)
    {
      if k < |ranges| {
        RangeHoldsExtend(text, s, ranges[k], segs[k], render, parse);
      }
    }
  }

  /** The `try` block of the loop: the segment's start and end, or `(0, 0)` when a
      conversion raises. */
  method SegmentTimes(seg: Dict, parse: string -> Option<real>) returns (t0: real, t1: real)
    ensures (t0, t1) == Times(seg, parse)
    ensures StartEnd(seg, parse).Success? ==> (t0, t1) == StartEnd(seg, parse).value
    ensures StartEnd(seg, parse).Failure? ==> t0 == 0.0 && t1 == 0.0
  {
    var start := ToFloat(Get(seg, "start", VFloat(0.0)), parse);
    if start.Failure? {
      return 0.0, 0.0;
    }
    var end := ToFloat(Get(seg, "end", VFloat(start.value)), parse);
    if end.Failure? {
      return 0.0, 0.0;
    }
    t0, t1 := start.value, end.value;
  }

  /** One kept segment: its text goes after the text so far, and its range runs from
      the old cursor to the new one. */
  method AppendSegment(text: string, segments: seq<Dict>, ranges: seq<CharRange>, seg: Dict,
                       render: Value -> string, parse: string -> Option<real>)
    returns (text': string, segments': seq<Dict>, ranges': seq<CharRange>)
    requires RangesDescribe(text, segments, ranges, render, parse)
    requires SegText(seg, render) != ""
    ensures text' == text + SegText(seg, render) && segments' == segments + [seg]
    ensures RangesDescribe(text', segments', ranges', render, parse)
  {
    var segText := SegText(seg, render);
    var startChar := |text|;
    var cursorIndex := startChar + |segText|;
    var endChar := cursorIndex;
    var t0, t1 := SegmentTimes(seg, parse);
    DescribeStep(text, segments, ranges, seg, render, parse);
    text' := text + segText;
    segments' := segments + [seg];
    ranges' := ranges + [CharRange(startChar, endChar, t0, t1)];
  }

  /**
   * `build_transcript_from_segments`: keep the dictionary segments with non-empty text,
   * join their texts, and record for each the character range it occupies and its time
   * window. No segment starts out active.
   */
  method BuildTranscript(segmentsObj: seq<Value>, render: Value -> string, parse: string -> Option<real>)
    returns (b: Built)
    ensures b.activeIndex == -1
    ensures b.segments == KeptSegments(segmentsObj, render)
    ensures b.text == JoinTexts(b.segments, render)
    ensures RangesDescribe(b.text, b.segments, b.ranges, render, parse)
  {
    var segments: seq<Dict> := [];
    var ranges: seq<CharRange> := [];
    var text := "";
    var n := 0;
    while n < |segmentsObj|
      invariant n <= |segmentsObj|
      invariant segments == KeptSegments(segmentsObj[..n], render)
      invariant text == JoinTexts(segments, render)
      invariant RangesDescribe(text, segments, ranges, render, parse)
    {
      var seg := segmentsObj[n];
      KeptStep(segmentsObj, n, render);
      if seg.VDict? && SegText(seg.entries, render) != "" {
        JoinStep(segments, seg.entries, render);
        text, segments, ranges := AppendSegment(text, segments, ranges, seg.entries, render, parse);
      }
      n := n + 1;
    }
    assert segmentsObj[..n] == segmentsObj;
    b := Built(text, segments, ranges, -1);
  }

  /** Every character of the built text belongs to exactly one segment's range. */
  lemma RangesPartition(text: string, segs: seq<Dict>, ranges: seq<CharRange>,
                        render: Value -> string, parse: string -> Option<real>, p: nat)
    returns (k: nat)
    requires RangesDescribe(text, segs, ranges, render, parse)
    requires p < |text|
    ensures k < |ranges| && ranges[k].startChar <= p < ranges[k].endChar
    ensures forall k' :: 0 <= k' < |ranges| && ranges[k'].startChar <= p < ranges[k'].endChar ==> k' == k
  {
    k := Cover(ranges, |ranges| - 1, p);
    forall k' | 0 <= k' < |ranges| && ranges[k'].startChar <= p < ranges[k'].endChar ensures k' == k {
      if k' < k {
        RangesOrdered(text, segs, ranges, render, parse, k', k);
      } else if k < k' {
        RangesOrdered(text, segs, ranges, render, parse, k, k');
      }
    }
  }

  lemma {:induction false} Cover(ranges: seq<CharRange>, n: nat, p: nat) returns (k: nat)
    requires n < |ranges|
    requires Contiguous(ranges)
    requires ranges[0].startChar <= p < ranges[n].endChar
    ensures k <= n && ranges[k].startChar <= p < ranges[k].endChar
  {
    if n == 0 || p >= ranges[n - 1].endChar {
      k := n;
    } else {
      k := Cover(ranges, n - 1, p);
    }
  }

  lemma {:induction false} RangesOrdered(text: string, segs: seq<Dict>, ranges: seq<CharRange>,
                                         render: Value -> string, parse: string -> Option<real>, a: nat, b: nat)
    requires RangesDescribe(text, segs, ranges, render, parse)
    requires a < b < |ranges|
    ensures ranges[a].endChar <= ranges[b].startChar
    decreases b - a
  {
    if a + 1 < b {
      RangesOrdered(text, segs, ranges, render, parse, a + 1, b);
    }
  }

  // ---------------------------------------------------------------------------
  // The segment under the playhead

  /** The slack, in seconds, on both sides of a segment's time window. */
  const Slack: real := 0.05

  /** `t0 - 0.05 <= t <= t1 + 0.05`. */
  predicate InWindow(r: CharRange, t: real) {
    r.t0 - Slack <= t <= r.t1 + Slack
  }

  /** The lowest index at or after `from` whose window holds `t`, or -1 when none does. */
  function FirstInWindow(ranges: seq<CharRange>, t: real, from: nat): (i: int)
    requires from <= |ranges|
    ensures i == -1 <==> forall j :: from <= j < |ranges| ==> !InWindow(ranges[j], t)
    ensures i != -1 ==>
      from <= i < |ranges| && InWindow(ranges[i], t) && forall j :: from <= j < i ==> !InWindow(ranges[j], t)
    decreases |ranges| - from
  {
    if from == |ranges| then -1
    else if InWindow(ranges[from], t) then from
    else FirstInWindow(ranges, t, from + 1)
  }

  /**
   * The index `highlight_transcript_at_time` returns. It is -1 for an empty list; the
   * active segment stays while its window holds `t`; otherwise, when the active index
   * is -1 or a valid index whose window no longer holds `t`, it is the lowest segment
   * whose window holds `t`, and the old active index when no window does; an active
   * index outside the list other than -1 is returned unchanged.
   */
  function Playhead(ranges: seq<CharRange>, t: real, active: int): (idx: int)
    ensures ranges == [] ==> idx == -1
    ensures ranges != [] && 0 <= active < |ranges| && InWindow(ranges[active], t) ==> idx == active
    ensures ranges != [] && (active == -1 || (0 <= active < |ranges| && !InWindow(ranges[active], t))) ==>
      if exists j :: 0 <= j < |ranges| && InWindow(ranges[j], t) then
        0 <= idx < |ranges| && InWindow(ranges[idx], t) && forall j :: 0 <= j < idx ==> !InWindow(ranges[j], t)
      else idx == active
    ensures ranges != [] && active != -1 && !(0 <= active < |ranges|) ==> idx == active
  {
    if ranges == [] then -1
    else
      var idx := if 0 <= active < |ranges| && !InWindow(ranges[active], t) then -1 else active;
      var idx' := if idx == -1 then FirstInWindow(ranges, t, 0) else idx;
      if idx' == -1 || idx' == active then active else idx'
  }

  /** The index changes only to a segment whose window holds `t`; starting from no segment
      or a valid one, it stays -1 or valid. */
  lemma PlayheadMoves(ranges: seq<CharRange>, t: real, active: int)
    ensures var idx := Playhead(ranges, t, active);
      && (idx != active && ranges != [] ==> 0 <= idx < |ranges| && InWindow(ranges[idx], t))
      && (-1 <= active < |ranges| ==> -1 <= idx < |ranges|)
  {
  }

  /**
   * The index choice of `highlight_transcript_at_time` (the text-editor selection it
   * then paints is not modelled): keep the active segment while its window holds the
   * time, otherwise search from the first segment.
   */
  method HighlightIndex(ranges: seq<CharRange>, t: real, active: int) returns (result: int)
    ensures result == Playhead(ranges, t, active)
  {
    if ranges == [] {
      return -1;
    }
    var idx := active;
    if 0 <= idx < |ranges| {
      if !InWindow(ranges[idx], t) {
        idx := -1;
      }
    }
    if idx == -1 {
      var i := 0;
      while i < |ranges|
        invariant 0 <= i <= |ranges|
        invariant FirstInWindow(ranges, t, 0) == FirstInWindow(ranges, t, i)
      {
        if InWindow(ranges[i], t) {
          idx := i;
          break;
        }
        i := i + 1;
      }
    }
    if idx == -1 || idx == active {
      return active;
    }
    return idx;
  }
}
