/**
 * The range compressor of a Sequence: its sorted frame numbers, their first
 * and last values, the frames missing between them, the compressed range text
 * ("[1-3, 6]") and the padding string ("%04d").
 */
module Ranges {
  import opened Outcomes
  import opened Text
  import opened Sorting
  import opened Printf

  predicate Sorted(fs: seq<nat>) {
    forall i, j :: 0 <= i < j < |fs| ==> fs[i] <= fs[j]
  }

  predicate Increasing(fs: seq<nat>) {
    forall i, j :: 0 <= i < j < |fs| ==> fs[i] < fs[j]
  }

  /** _get_frames: the frames that are set, in member order. */
  function SetFrames(frames: seq<Option<nat>>): (r: seq<nat>)
    ensures forall x :: x in r <==> Some(x) in frames
  {
    if frames == [] then []
    else
      var rest := SetFrames(frames[1..]);
      assert frames == [frames[0]] + frames[1..];
      match frames[0]
      case None => rest
      case Some(f) => [f] + rest
  }

  /** frames(): the set frames, sorted. */
  function SortedFrames(frames: seq<Option<nat>>): (r: seq<nat>)
    ensures multiset(r) == multiset(SetFrames(frames))
    ensures Sorted(r)
  {
    SortNats(SetFrames(frames))
  }

  /** start(): the first frame, 0 when there is none. */
  function Start(fs: seq<nat>): nat {
    if fs == [] then 0 else fs[0]
  }

  /** end(): the last frame, 0 when there is none. */
  function End(fs: seq<nat>): nat {
    if fs == [] then 0 else fs[|fs| - 1]
  }

  /** On sorted frames start() and end() are the least and the greatest frame. */
  lemma StartEndBound(fs: seq<nat>)
    requires Sorted(fs)
    ensures forall x :: x in fs ==> Start(fs) <= x <= End(fs)
    ensures fs != [] ==> Start(fs) in fs && End(fs) in fs
  {
  }

  /** range(lo, hi): the ints lo, lo + 1, ..., hi - 1 (empty when hi <= lo). */
  datatype Gap = Gap(lo: nat, hi: nat)

  /** What _get_missing returns: a list of frames, or a list of ranges. */
  datatype MissingList = Frames(frames: seq<nat>) | Gaps(gaps: seq<Gap>)

  /** The span at or below which missing frames are listed one by one. */
  const MaxSize: nat := 100000

  /** The ints in [lo, hi) that are not frames, ascending. */
  function Absent(lo: nat, hi: nat, fs: seq<nat>): (r: seq<nat>)
    ensures forall p :: p in r <==> lo <= p < hi && p !in fs
    ensures forall i :: 0 <= i < |r| ==> lo <= r[i]
    ensures Increasing(r)
    decreases hi - lo
  {
    if hi <= lo then []
    else if lo in fs then Absent(lo + 1, hi, fs)
    else [lo] + Absent(lo + 1, hi, fs)
  }

  /** range(f + 1, next) for each frame f and the frame after it. */
  function GapsOf(fs: seq<nat>): (r: seq<Gap>)
    ensures |r| == if |fs| < 2 then 0 else |fs| - 1
  {
    if |fs| < 2 then [] else [Gap(fs[0] + 1, fs[1])] + GapsOf(fs[1..])
  }

  /** Offset p lies in one of the ranges. */
  predicate InGaps(gs: seq<Gap>, p: nat) {
    gs != [] && (gs[0].lo <= p < gs[0].hi || InGaps(gs[1..], p))
  }

  /** p is reported as missing. */
  predicate Reported(m: MissingList, p: nat) {
    match m
    case Frames(fs) => p in fs
    case Gaps(gs) => InGaps(gs, p)
  }

  /** _get_missing as written: a single frame is returned as the missing list. */
  function MissingAsWritten(fs: seq<nat>): MissingList
    requires Sorted(fs)
  {
    if |fs| == 0 then Frames([])
    else if |fs| == 1 then Frames(fs)
    else if fs[|fs| - 1] + 1 - fs[0] <= MaxSize then Frames(Absent(fs[0], fs[|fs| - 1] + 1, fs))
    else Gaps(GapsOf(fs))
  }

  /** _get_missing with the single-frame case corrected: nothing is missing. */
  function Missing(fs: seq<nat>): MissingList
    requires Sorted(fs)
  {
    if |fs| <= 1 then Frames([])
    else if fs[|fs| - 1] + 1 - fs[0] <= MaxSize then Frames(Absent(fs[0], fs[|fs| - 1] + 1, fs))
    else Gaps(GapsOf(fs))
  }

  /** The two agree except on a single frame. */
  lemma MissingAgrees(fs: seq<nat>)
    requires Sorted(fs)
    ensures |fs| != 1 ==> MissingAsWritten(fs) == Missing(fs)
  {
  }

  /** As written, the only frame of a one-frame sequence is reported missing. */
  lemma MissingAsWrittenReportsPresentFrame(f: nat)
    ensures Reported(MissingAsWritten([f]), f) && f in [f]
  {
  }

  lemma {:induction false} GapsCover(fs: seq<nat>, p: nat)
    requires Sorted(fs) && |fs| >= 2
    ensures InGaps(GapsOf(fs), p) <==> fs[0] < p < fs[|fs| - 1] && p !in fs
    decreases |fs|
  {
    var gs := GapsOf(fs);
    assert gs[1..] == GapsOf(fs[1..]);
    if |fs| == 2 {
      assert GapsOf(fs[1..]) == [];
    } else {
      GapsCover(fs[1..], p);
      assert fs[1..][|fs| - 2] == fs[|fs| - 1];
      if fs[0] < p < fs[1] {
        assert forall x :: x in fs[1..] ==> fs[1] <= x;
      }
      if p in fs && p != fs[0] {
        assert p in fs[1..];
      }
    }
  }

  /** _get_missing reports exactly the ints between the first and the last frame
      that are not frames, in both branches (frames listed one by one, or
      ranges between neighbours). */
  lemma MissingSpec(fs: seq<nat>, p: nat)
    requires Sorted(fs)
    ensures Reported(Missing(fs), p) <==> fs != [] && Start(fs) <= p <= End(fs) && p !in fs
  {
    if |fs| >= 2 && fs[|fs| - 1] + 1 - fs[0] > MaxSize {
      GapsCover(fs, p);
      assert fs[0] in fs && fs[|fs| - 1] in fs;
    }
  }

  /** In the listing branch the missing frames come out ascending. */
  lemma MissingListedAscending(fs: seq<nat>)
    requires Sorted(fs)
    ensures Missing(fs).Frames? ==> Increasing(Missing(fs).frames)
  {
  }

  /** Scanning one more frame: it continues the last run when it is that
      run's last frame plus one, and opens a run of its own otherwise. */
  function AddFrame(runs: seq<(nat, nat)>, x: nat): (r: seq<(nat, nat)>)
    ensures r != [] && r[|r| - 1].1 == x
  {
    if runs != [] && x == runs[|runs| - 1].1 + 1 then runs[..|runs| - 1] + [(runs[|runs| - 1].0, x)]
    else runs + [(x, x)]
  }

  /** The first and last frame of each maximal run of consecutive frames,
      scanning left to right. */
  function FrameRuns(fs: seq<nat>): (r: seq<(nat, nat)>)
    ensures fs != [] ==> r != [] && r[|r| - 1].1 == fs[|fs| - 1]
  {
    if fs == [] then [] else AddFrame(FrameRuns(fs[..|fs| - 1]), fs[|fs| - 1])
  }

  /** The frames a run stands for: a, a + 1, ..., b. */
  function Span(a: nat, b: nat): (r: seq<nat>)
    decreases b - a
  {
    if b < a then [] else if a == b then [a] else [a] + Span(a + 1, b)
  }

  function Expand(runs: seq<(nat, nat)>): seq<nat> {
    if runs == [] then [] else Expand(runs[..|runs| - 1]) + Span(runs[|runs| - 1].0, runs[|runs| - 1].1)
  }

  predicate Ordered(runs: seq<(nat, nat)>) {
    forall k :: 0 <= k < |runs| ==> runs[k].0 <= runs[k].1
  }

  lemma {:induction false} SpanSnoc(a: nat, b: nat)
    requires a <= b
    ensures Span(a, b + 1) == Span(a, b) + [b + 1]
    decreases b - a
  {
    if a < b {
      SpanSnoc(a + 1, b);
    }
  }

  lemma AddFrameExpand(runs: seq<(nat, nat)>, x: nat)
    requires Ordered(runs)
    ensures Ordered(AddFrame(runs, x))
    ensures Expand(AddFrame(runs, x)) == Expand(runs) + [x]
  {
    var r := AddFrame(runs, x);
    if runs != [] && x == runs[|runs| - 1].1 + 1 {
      var last := runs[|runs| - 1];
      var front := runs[..|runs| - 1];
      assert r[..|r| - 1] == front;
      SpanSnoc(last.0, last.1);
    } else {
      assert r[..|r| - 1] == runs;
    }
  }

  /** Expanding the runs gives the frames back. */
  lemma {:induction false} ExpandRuns(fs: seq<nat>)
    ensures Ordered(FrameRuns(fs))
    ensures Expand(FrameRuns(fs)) == fs
  {
    if fs != [] {
      var init, x := fs[..|fs| - 1], fs[|fs| - 1];
      assert FrameRuns(fs) == AddFrame(FrameRuns(init), x);
      ExpandRuns(init);
      hide FrameRuns, Expand, AddFrame, Ordered;
      AddFrameExpand(FrameRuns(init), x);
      assert fs == init + [x];
    }
  }

  predicate Maximal(runs: seq<(nat, nat)>) {
    forall k :: 0 <= k < |runs| - 1 ==> runs[k + 1].0 != runs[k].1 + 1
  }

  lemma AddFrameMaximal(runs: seq<(nat, nat)>, x: nat)
    requires Maximal(runs)
    ensures Maximal(AddFrame(runs, x))
  {
    var r := AddFrame(runs, x);
    var n := |runs|;
    forall k | 0 <= k < |r| - 1 ensures r[k + 1].0 != r[k].1 + 1 {
      assert r[k] == runs[k];
      if k + 1 < n {
        assert r[k + 1].0 == runs[k + 1].0;
      }
    }
  }

  /** Runs are maximal: a run never starts right after the previous one ends. */
  lemma {:induction false} RunsMaximal(fs: seq<nat>)
    ensures Maximal(FrameRuns(fs))
  {
    hide AddFrame;
    if fs != [] {
      RunsMaximal(fs[..|fs| - 1]);
      AddFrameMaximal(FrameRuns(fs[..|fs| - 1]), fs[|fs| - 1]);
    }
  }

  /** A run as the range text writes it: "N" or "A-B". */
  function RunText(run: (nat, nat)): string {
    if run.0 == run.1 then Str(run.0) else Str(run.0) + "-" + Str(run.1)
  }

  function RunTexts(runs: seq<(nat, nat)>): (t: seq<string>)
    ensures |t| == |runs| && forall k :: 0 <= k < |runs| ==> t[k] == RunText(runs[k])
  {
    if runs == [] then [] else RunTexts(runs[..|runs| - 1]) + [RunText(runs[|runs| - 1])]
  }

  /** A range as the range text writes it: its first and last int. */
  function GapText(g: Gap): string
    requires g.lo < g.hi
  {
    Str(g.lo) + "-" + Str(g.hi - 1)
  }

  function GapTexts(gs: seq<Gap>): (t: seq<string>)
    requires forall k :: 0 <= k < |gs| ==> gs[k].lo < gs[k].hi
    ensures |t| == |gs| && forall k :: 0 <= k < |gs| ==> t[k] == GapText(gs[k])
  {
    if gs == [] then [] else GapTexts(gs[..|gs| - 1]) + [GapText(gs[|gs| - 1])]
  }

  /** _get_framerange(frames, missing=False): "start-end", or "" without frames. */
  function ImpliedRange(fs: seq<nat>): (r: string)
    ensures fs == [] <==> r == ""
    ensures fs != [] ==> r == Str(fs[0]) + "-" + Str(fs[|fs| - 1])
  {
    if fs == [] then "" else Str(Start(fs)) + "-" + Str(End(fs))
  }

  /** _get_framerange(frames, missing=True): the runs of a frame list joined by
      `join` in brackets; the ranges of a range list (each as "first-last")
      followed by one empty entry; "" for an empty list; IndexError when a range
      list holds an empty range. */
  function FrameRangeSpec(m: MissingList, join: string): Result<string>
  {
    match m
    case Frames(fs) =>
      if fs == [] then Ok("") else Ok("[" + Join(RunTexts(FrameRuns(fs)), join) + "]")
    case Gaps(gs) =>
      if gs == [] then Ok("")
      else if exists k :: 0 <= k < |gs| && gs[k].hi <= gs[k].lo then Err(IndexError)
      else Ok("[" + Join(GapTexts(gs) + [""], join) + "]")
  }

  /** The loop of _get_framerange with missing=True over a frame list, step
      by step as written: `start` and `end` (empty strings in Python, None
      here) track the current run, and a frame that is not the previous frame
      plus one closes it. */
  method FrameListRange(fs: seq<nat>, join: string) returns (r: string)
    ensures Ok(r) == FrameRangeSpec(Frames(fs), join)
  {
    hide Str, Join, FrameRuns, RunTexts, AddFrame;
    if fs == [] {
      return "";
    }
    var frange: seq<string> := [];
    var start: Option<nat> := None;
    var end: Option<nat> := None;
    ghost var done: seq<(nat, nat)> := [];
    var i := 0;
    while i < |fs|
      invariant 0 <= i <= |fs|
      invariant i == 0 ==> start.None? && end.None? && frange == [] && done == []
      invariant i > 0 ==> start.Some? && end.Some? && end.value == fs[i - 1]
      invariant i > 0 ==> start.value <= end.value
      invariant i > 0 ==> FrameRuns(fs[..i]) == done + [(start.value, end.value)]
      invariant frange == RunTexts(done)
    {
      var frame := fs[i];
      if i == 0 {
        FirstFrame(fs);
      } else {
        FrameStep(fs, i, done, start.value, end.value);
      }
      if i != 0 && frame != fs[i - 1] + 1 {
        if start != end {
          frange := frange + [Str(start.value) + "-" + Str(end.value)];
        } else {
          frange := frange + [Str(start.value)];
        }
        RunTextsSnoc(done, (start.value, end.value));
        done := done + [(start.value, end.value)];
        start, end := Some(frame), Some(frame);
        i := i + 1;
        continue;
      }
      if start.None? || start.value > frame {
        start := Some(frame);
      }
      if end.None? || end.value < frame {
        end := Some(frame);
      }
      i := i + 1;
    }
    assert fs[..|fs|] == fs;
    if start == end {
      frange := frange + [Str(start.value)];
    } else {
      frange := frange + [Str(start.value) + "-" + Str(end.value)];
    }
    RunTextsSnoc(done, (start.value, end.value));
    return "[" + Join(frange, join) + "]";
  }

  lemma FirstFrame(fs: seq<nat>)
    requires fs != []
    ensures FrameRuns(fs[..1]) == [(fs[0], fs[0])]
  {
    assert fs[..1][..0] == [];
  }

  /** One step of the scan, in the shape the loop above keeps. */
  lemma FrameStep(fs: seq<nat>, i: nat, done: seq<(nat, nat)>, s: nat, e: nat)
    requires 0 < i < |fs|
    requires FrameRuns(fs[..i]) == done + [(s, e)]
    ensures fs[i] == e + 1 ==> FrameRuns(fs[..i + 1]) == done + [(s, fs[i])]
    ensures fs[i] != e + 1 ==> FrameRuns(fs[..i + 1]) == done + [(s, e)] + [(fs[i], fs[i])]
  {
    assert fs[..i + 1][..i] == fs[..i];
    assert (done + [(s, e)])[..|done|] == done;
  }

  lemma RunTextsSnoc(runs: seq<(nat, nat)>, run: (nat, nat))
    ensures RunTexts(runs + [run]) == RunTexts(runs) + [RunText(run)]
  {
    assert (runs + [run])[..|runs|] == runs;
  }

  /** The same loop over a range list: each range is written "first-last"
      (IndexError on an empty range), and the untouched `start` adds one empty
      entry at the end. */
  method GapListRange(gs: seq<Gap>, join: string) returns (r: Result<string>)
    ensures r == FrameRangeSpec(Gaps(gs), join)
  {
    hide Str, Join;
    if gs == [] {
      return Ok("");
    }
    var frange: seq<string> := [];
    var i := 0;
    while i < |gs|
      invariant 0 <= i <= |gs|
      invariant forall k :: 0 <= k < i ==> gs[k].lo < gs[k].hi
      invariant frange == GapTexts(gs[..i])
    {
      if gs[i].hi <= gs[i].lo {
        return Err(IndexError);
      }
      frange := frange + [Str(gs[i].lo) + "-" + Str(gs[i].hi - 1)];
      assert gs[..i + 1][..i] == gs[..i];
      i := i + 1;
    }
    assert gs[..|gs|] == gs;
    frange := frange + [""];
    return Ok("[" + Join(frange, join) + "]");
  }

  /** _get_framerange(frames, missing=True). */
  method FrameRange(m: MissingList, join: string) returns (r: Result<string>)
    ensures r == FrameRangeSpec(m, join)
  {
    match m
    case Frames(fs) =>
      var t := FrameListRange(fs, join);
      r := Ok(t);
    case Gaps(gs) =>
      r := GapListRange(gs, join);
  }

  /** min() of the member pads: ValueError on no members, TypeError as soon as
      two or more pads include None (None does not compare), else the least. */
  function MinPad(pads: seq<Option<nat>>): (r: Result<Option<nat>>)
    ensures pads == [] ==> r == Err(ValueError)
    ensures |pads| == 1 ==> r == Ok(pads[0])
    ensures |pads| >= 2 ==> (r.Ok? <==> forall k :: 0 <= k < |pads| ==> pads[k].Some?)
    ensures |pads| >= 2 && r.Err? ==> r.error == TypeError
    ensures r.Ok? && |pads| >= 2 ==> r.value.Some?
    ensures r.Ok? && r.value.Some? ==>
      (forall k :: 0 <= k < |pads| ==> pads[k].Some? && r.value.value <= pads[k].value)
      && r.value in pads
  {
    if pads == [] then Err(ValueError)
    else if |pads| == 1 then Ok(pads[0])
    else if exists k :: 0 <= k < |pads| && pads[k].None? then Err(TypeError)
    else
      var rest := MinPad(pads[1..]);
      assert pads == [pads[0]] + pads[1..];
      match rest
      case Ok(Some(m)) => if pads[0].value <= m then Ok(pads[0]) else Ok(Some(m))
      case _ => assert false; Err(TypeError)
  }

  /** The padding string for a minimum pad width, as written: "%%%02dd" % pad,
      which writes "%10d" (a space-padded field) for a pad of 10 or more. */
  function PadSpecAsWritten(pad: nat): string {
    if pad < 2 then "%d" else "%" + Justify(Str(pad), 2, '0') + "d"
  }

  /** The padding string with the zero flag for every width: "%0<pad>d". */
  function PadSpec(pad: nat): string {
    if pad < 2 then "%d" else "%0" + Str(pad) + "d"
  }

  /** _get_padding over the member pads (padding string as written). */
  function PaddingAsWritten(pads: seq<Option<nat>>): Result<string> {
    match MinPad(pads)
    case Err(e) => Err(e)
    case Ok(None) => Ok("")
    case Ok(Some(p)) => Ok(PadSpecAsWritten(p))
  }

  /** _get_padding with the padding string corrected. */
  function Padding(pads: seq<Option<nat>>): Result<string> {
    match MinPad(pads)
    case Err(e) => Err(e)
    case Ok(None) => Ok("")
    case Ok(Some(p)) => Ok(PadSpec(p))
  }

  /** Both agree below a width of 10 ("%03d", "%04d", ...). */
  lemma PaddingAgreesBelowTen(pads: seq<Option<nat>>)
    requires MinPad(pads).Ok? && MinPad(pads).value.Some? ==> MinPad(pads).value.value < 10
    ensures PaddingAsWritten(pads) == Padding(pads)
  {
    match MinPad(pads)
    case Ok(Some(p)) =>
      if p >= 2 {
        StrShape(p);
        assert |Str(p)| == 1;
        assert Repeat('0', 1) == "0";
        assert Justify(Str(p), 2, '0') == "0" + Str(p);
        assert PadSpecAsWritten(p) == "%" + ("0" + Str(p)) + "d";
        assert PadSpec(p) == "%0" + Str(p) + "d";
        assert "%" + ("0" + Str(p)) + "d" == "%0" + Str(p) + "d";
      }
    case _ =>
  }

  /** The padding string renders every frame zero-filled to at least the pad
      width, so a frame of exactly that many digits comes back unchanged. */
  lemma PadSpecRenders(pad: nat, n: nat)
    ensures ApplyPad(PadSpec(pad), n) == Ok(if pad < 2 then Str(n) else Justify(Str(n), pad, '0'))
  {
    PadSpecReads(pad);
    var sp := if pad < 2 then Spec(false, 0) else Spec(true, pad);
    hide PadSpec, PercentD, Justify, Str;
    assert ApplyPad(PadSpec(pad), n) == Ok(FormatInt(n, sp));
    if pad < 2 {
      var r := FormatInt(n, sp);
      assert r[|r| - |Str(n)|..] == Str(n);
    }
  }

  /** The padding string reads back as the zero flag and the pad width. */
  lemma PadSpecReads(pad: nat)
    ensures PercentD(PadSpec(pad)) == Some(if pad < 2 then Spec(false, 0) else Spec(true, pad))
  {
    var p := PadSpec(pad);
    if pad < 2 {
      assert p == "%d" && p[1..|p| - 1] == "";
      ParseSpecEmpty();
    } else {
      assert p == "%0" + Str(pad) + "d";
      assert p[1..|p| - 1] == "0" + Str(pad);
      assert AllDigits("0" + Str(pad));
      ParseSpecOfWidth(pad);
    }
  }

  /** As written, a pad of 10 or more loses the zero flag: "%%%02dd" % 10 is
      "%10d", which fills with spaces. */
  lemma PadSpecAsWrittenWide(pad: nat, n: nat)
    requires pad >= 10
    ensures PadSpecAsWritten(pad) == "%" + Str(pad) + "d"
    ensures ApplyPad(PadSpecAsWritten(pad), n) == Ok(Justify(Str(n), pad, ' '))
  {
    StrShape(pad);
    var w := "%" + Str(pad) + "d";
    assert w[1..|w| - 1] == Str(pad);
    ParseSpecOfWidth(pad);
  }

  /** So every frame with fewer digits than the pad renders differently from
      the zero-filled "%0<pad>d": a space where a '0' belongs. */
  lemma PadSpecAsWrittenDiffers(pad: nat, n: nat)
    requires pad >= 10 && |Str(n)| < pad
    ensures ApplyPad(PadSpecAsWritten(pad), n).Ok? && ApplyPad(PadSpec(pad), n).Ok?
    ensures ApplyPad(PadSpecAsWritten(pad), n).value[0] == ' '
    ensures ApplyPad(PadSpec(pad), n).value[0] == '0'
  {
    PadSpecAsWrittenWide(pad, n);
    PadSpecRenders(pad, n);
  }

  lemma StrTen()
    ensures Str(10) == "10"
  {
    assert Str(1) == "1";
    assert Str(0) == "0";
  }

  /** The smallest case: a pad of 10 gives "%10d". */
  lemma PadSpecAsWrittenAtTen()
    ensures PadSpecAsWritten(10) == "%10d"
    ensures PadSpec(10) == "%010d"
  {
    hide ApplyPad, Str;
    StrTen();
    PadSpecAsWrittenWide(10, 0);
  }
}
