/**
 * The filename tokenizer of an Item: the maximal runs of decimal digits in a
 * name (what `\d+` finds, with their offsets) and the non-digit parts between
 * them (what splitting on `\d+` leaves).
 */
module Tokenizer {
  import opened Text

  /** One match of `\d+`: the half-open offsets [start, end) and the text. */
  datatype Run = Run(start: nat, end: nat, text: string)

  /** The end of the digit run that starts at i (i itself when s[i] is not a digit). */
  function DigitEnd(s: string, i: nat): (j: nat)
    requires i <= |s|
    ensures i <= j <= |s|
    ensures AllDigits(s[i..j])
    ensures j == |s| || !IsDigit(s[j])
    decreases |s| - i
  {
    if i < |s| && IsDigit(s[i]) then
      var j := DigitEnd(s, i + 1);
      assert s[i..j] == [s[i]] + s[i + 1..j];
      j
    else i
  }

  /** r is a maximal digit run of s. */
  predicate IsRun(s: string, r: Run) {
    r.start < r.end <= |s| && r.text == s[r.start..r.end] && AllDigits(r.text)
    && (r.start == 0 || !IsDigit(s[r.start - 1]))
    && (r.end == |s| || !IsDigit(s[r.end]))
  }

  /** runs are maximal digit runs of s, left to right, covering every digit at
      or after `from`. */
  predicate RunsOf(s: string, runs: seq<Run>, from: nat) {
    (forall k :: 0 <= k < |runs| ==> from <= runs[k].start && IsRun(s, runs[k]))
    && (forall k :: 0 <= k < |runs| - 1 ==> runs[k].end < runs[k + 1].start)
    && (forall p :: from <= p < |s| && IsDigit(s[p]) ==> InRuns(runs, p))
  }

  /** Offset p lies inside one of the runs. */
  predicate InRuns(runs: seq<Run>, p: nat) {
    runs != [] && (runs[0].start <= p < runs[0].end || InRuns(runs[1..], p))
  }

  /** i does not cut a digit run in two. */
  predicate AtBoundary(s: string, i: nat)
    requires i <= |s|
  {
    i == 0 || i == |s| || !IsDigit(s[i - 1]) || !IsDigit(s[i])
  }

  function RunsFrom(s: string, i: nat): seq<Run>
    requires i <= |s|
    requires AtBoundary(s, i)
    decreases |s| - i
  {
    if i == |s| then []
    else if IsDigit(s[i]) then
      var j := DigitEnd(s, i);
      [Run(i, j, s[i..j])] + RunsFrom(s, j)
    else RunsFrom(s, i + 1)
  }

  lemma {:induction false} RunsFromSpec(s: string, i: nat)
    requires i <= |s|
    requires AtBoundary(s, i)
    ensures RunsOf(s, RunsFrom(s, i), i)
    decreases |s| - i
  {
    if i == |s| {
    } else if IsDigit(s[i]) {
      var j := DigitEnd(s, i);
      RunsFromSpec(s, j);
      assert RunsFrom(s, i) == [Run(i, j, s[i..j])] + RunsFrom(s, j);
      hide RunsFrom, RunsOf;
      RunsCons(s, i, j, RunsFrom(s, j));
    } else {
      RunsFromSpec(s, i + 1);
    }
  }

  /** A maximal run in front of the runs that start after it. */
  lemma RunsCons(s: string, i: nat, j: nat, rest: seq<Run>)
    requires i < j <= |s| && AllDigits(s[i..j])
    requires i == 0 || !IsDigit(s[i - 1])
    requires j == |s| || !IsDigit(s[j])
    requires RunsOf(s, rest, j)
    ensures RunsOf(s, [Run(i, j, s[i..j])] + rest, i)
  {
    var first := Run(i, j, s[i..j]);
    var runs := [first] + rest;
    assert IsRun(s, first);
    assert forall k :: 1 <= k < |runs| ==> runs[k] == rest[k - 1];
    if rest != [] {
      assert rest[0].text[0] == s[rest[0].start];
      assert first.end < rest[0].start;
    }
    assert forall k :: 0 <= k < |runs| ==> i <= runs[k].start && IsRun(s, runs[k]);
    assert forall k :: 0 <= k < |runs| - 1 ==> runs[k].end < runs[k + 1].start;
    assert runs[1..] == rest;
    forall p | i <= p < |s| && IsDigit(s[p])
      ensures InRuns(runs, p)
    {
      if p >= j {
        assert InRuns(rest, p);
      }
    }
  }

  /** Item.number_matches: every `\d+` match of the name, in order. */
  function Runs(s: string): seq<Run>
  {
    RunsFrom(s, 0)
  }

  /** The runs are exactly the maximal digit runs of the name, in order. */
  lemma RunsSpec(s: string)
    ensures RunsOf(s, Runs(s), 0)
  {
    RunsFromSpec(s, 0);
  }

  function Texts(runs: seq<Run>): (t: seq<string>)
    ensures |t| == |runs|
    ensures forall k :: 0 <= k < |runs| ==> t[k] == runs[k].text
  {
    if runs == [] then [] else [runs[0].text] + Texts(runs[1..])
  }

  /** Item.digits: the text of each digit run. */
  function Digits(s: string): seq<string>
  {
    Texts(Runs(s))
  }

  /** Splitting s[i..] on digit runs, with `cur` the part collected so far. */
  function PartsFrom(s: string, i: nat, cur: string): (parts: seq<string>)
    requires i <= |s|
    ensures |parts| >= 1
    decreases |s| - i
  {
    if i == |s| then [cur]
    else if IsDigit(s[i]) then [cur] + PartsFrom(s, DigitEnd(s, i), "")
    else PartsFrom(s, i + 1, cur + [s[i]])
  }

  /** Item.parts: the name split on `\d+` (empty strings kept at the ends and
      between adjacent runs, as re.split keeps them). */
  function Parts(s: string): seq<string>
  {
    PartsFrom(s, 0, "")
  }

  /** parts[0] + digits[0] + parts[1] + ... + parts[n]. */
  function Interleave(parts: seq<string>, digits: seq<string>): string
    requires |parts| == |digits| + 1
  {
    if digits == [] then parts[0]
    else parts[0] + digits[0] + Interleave(parts[1..], digits[1..])
  }

  lemma {:induction false} PartsFromLength(s: string, i: nat, cur: string)
    requires i <= |s|
    requires AtBoundary(s, i)
    ensures |PartsFrom(s, i, cur)| == |RunsFrom(s, i)| + 1
    decreases |s| - i
  {
    if i == |s| {
    } else if IsDigit(s[i]) {
      PartsFromLength(s, DigitEnd(s, i), "");
    } else {
      PartsFromLength(s, i + 1, cur + [s[i]]);
    }
  }

  lemma {:induction false} PartsFromInterleave(s: string, i: nat, cur: string)
    requires i <= |s|
    requires AtBoundary(s, i)
    ensures |PartsFrom(s, i, cur)| == |RunsFrom(s, i)| + 1
    ensures Interleave(PartsFrom(s, i, cur), Texts(RunsFrom(s, i))) == cur + s[i..]
    decreases |s| - i
  {
    PartsFromLength(s, i, cur);
    if i == |s| {
    } else if IsDigit(s[i]) {
      var j := DigitEnd(s, i);
      PartsFromInterleave(s, j, "");
      var runs := RunsFrom(s, i);
      var rest := RunsFrom(s, j);
      assert runs == [Run(i, j, s[i..j])] + rest;
      assert Texts(runs)[1..] == Texts(rest);
      var parts := PartsFrom(s, i, cur);
      assert parts[1..] == PartsFrom(s, j, "");
      assert s[i..] == s[i..j] + s[j..];
    } else {
      PartsFromInterleave(s, i + 1, cur + [s[i]]);
      assert cur + s[i..] == cur + [s[i]] + s[i + 1..];
    }
  }

  lemma {:induction false} PartsFromNoDigits(s: string, i: nat, cur: string)
    requires i <= |s|
    requires NoDigits(cur)
    ensures forall k :: 0 <= k < |PartsFrom(s, i, cur)| ==> NoDigits(PartsFrom(s, i, cur)[k])
    decreases |s| - i
  {
    if i == |s| {
    } else if IsDigit(s[i]) {
      PartsFromNoDigits(s, DigitEnd(s, i), "");
      var parts := PartsFrom(s, i, cur);
      assert parts[1..] == PartsFrom(s, DigitEnd(s, i), "");
    } else {
      PartsFromNoDigits(s, i + 1, cur + [s[i]]);
    }
  }

  /** The parts and the digit runs tokenize the name: one more part than runs,
      no digit in any part, and interleaving them gives the name back. */
  lemma PartsAndDigits(s: string)
    ensures |Parts(s)| == |Digits(s)| + 1
    ensures Interleave(Parts(s), Digits(s)) == s
    ensures forall k :: 0 <= k < |Parts(s)| ==> NoDigits(Parts(s)[k])
  {
    PartsFromInterleave(s, 0, "");
    PartsFromNoDigits(s, 0, "");
  }

  lemma {:induction false} RunsSkip(s: string, i: nat, j: nat)
    requires i <= j <= |s|
    requires AtBoundary(s, i)
    requires forall p :: i <= p < j ==> !IsDigit(s[p])
    ensures AtBoundary(s, j) && RunsFrom(s, i) == RunsFrom(s, j)
    decreases j - i
  {
    if i < j {
      RunsSkip(s, i + 1, j);
    }
  }

  lemma {:induction false} PartsSkip(s: string, i: nat, j: nat, cur: string)
    requires i <= j <= |s|
    requires forall p :: i <= p < j ==> !IsDigit(s[p])
    ensures PartsFrom(s, i, cur) == PartsFrom(s, j, cur + s[i..j])
    decreases j - i
  {
    if i < j {
      PartsSkip(s, i + 1, j, cur + [s[i]]);
      assert cur + [s[i]] + s[i + 1..j] == cur + s[i..j];
    } else {
      assert cur + s[i..j] == cur;
    }
  }

  lemma DigitEndOfBlock(s: string, i: nat, e: nat)
    requires i <= e <= |s|
    requires forall p :: i <= p < e ==> IsDigit(s[p])
    requires e == |s| || !IsDigit(s[e])
    ensures DigitEnd(s, i) == e
  {
  }

  /** A name with no digits is one part and has no runs. */
  lemma NoNumber(s: string)
    requires NoDigits(s)
    ensures Runs(s) == [] && Parts(s) == [s]
  {
    RunsSkip(s, 0, |s|);
    PartsSkip(s, 0, |s|, "");
    assert "" + s[0..|s|] == s;
  }

  /** A name with exactly one number: its only run is that number and its
      parts are the text around it. */
  lemma OneNumber(h: string, d: string, t: string)
    requires NoDigits(h) && NoDigits(t)
    requires AllDigits(d) && |d| >= 1
    ensures Runs(h + d + t) == [Run(|h|, |h| + |d|, d)]
    ensures Parts(h + d + t) == [h, t]
    ensures Digits(h + d + t) == [d]
  {
    OneNumberShape(h, d, t);
    OneNumberRuns(h, d, t);
    OneNumberParts(h, d, t);
  }

  /** Where the digits of h + d + t are. */
  lemma OneNumberShape(h: string, d: string, t: string)
    requires NoDigits(h) && NoDigits(t)
    requires AllDigits(d) && |d| >= 1
    ensures forall p :: 0 <= p < |h| ==> !IsDigit((h + d + t)[p])
    ensures forall p :: |h| + |d| <= p < |h + d + t| ==> !IsDigit((h + d + t)[p])
    ensures forall p :: |h| <= p < |h| + |d| ==> IsDigit((h + d + t)[p])
  {
    var s := h + d + t;
    var e := |h| + |d|;
    forall p | 0 <= p < |h| ensures !IsDigit(s[p]) {
      assert s[p] == h[p];
    }
    forall p | e <= p < |s| ensures !IsDigit(s[p]) {
      assert s[p] == t[p - e];
    }
    forall p | |h| <= p < e ensures IsDigit(s[p]) {
      assert s[p] == d[p - |h|];
    }
  }

  lemma OneNumberRuns(h: string, d: string, t: string)
    requires |d| >= 1
    requires forall p :: 0 <= p < |h| ==> !IsDigit((h + d + t)[p])
    requires forall p :: |h| + |d| <= p < |h + d + t| ==> !IsDigit((h + d + t)[p])
    requires forall p :: |h| <= p < |h| + |d| ==> IsDigit((h + d + t)[p])
    ensures Runs(h + d + t) == [Run(|h|, |h| + |d|, d)]
  {
    hide PartsFrom, Parts, AllDigits, NoDigits;
    var s := h + d + t;
    var e := |h| + |d|;
    RunsSkip(s, 0, |h|);
    DigitEndOfBlock(s, |h|, e);
    assert s[|h|..e] == d;
    RunsSkip(s, e, |s|);
  }

  lemma OneNumberParts(h: string, d: string, t: string)
    requires |d| >= 1
    requires forall p :: 0 <= p < |h| ==> !IsDigit((h + d + t)[p])
    requires forall p :: |h| + |d| <= p < |h + d + t| ==> !IsDigit((h + d + t)[p])
    requires forall p :: |h| <= p < |h| + |d| ==> IsDigit((h + d + t)[p])
    ensures Parts(h + d + t) == [h, t]
  {
    hide RunsFrom, Runs, AllDigits, NoDigits;
    var s := h + d + t;
    var e := |h| + |d|;
    PartsSkip(s, 0, |h|, "");
    assert "" + s[0..|h|] == h;
    DigitEndOfBlock(s, |h|, e);
    PartsSkip(s, e, |s|, "");
    assert "" + s[e..|s|] == t;
  }

  /** The runs of the example names of the diff documentation
      ("file01_0040.rgb", "file01_0041.rgb", ...). */
  lemma RunsExample(c: char)
    requires IsDigit(c)
    ensures Runs("file01_004" + [c] + ".rgb") == [Run(4, 6, "01"), Run(7, 11, "004" + [c])]
  {
    var s := "file01_004" + [c] + ".rgb";
    assert RunsFrom(s, 11) == [] by {
      assert RunsFrom(s, 15) == [];
      assert RunsFrom(s, 14) == [];
      assert RunsFrom(s, 13) == [];
      assert RunsFrom(s, 12) == [];
    }
    assert DigitEnd(s, 7) == 11 by {
      assert DigitEnd(s, 11) == 11;
      assert DigitEnd(s, 10) == 11;
      assert DigitEnd(s, 9) == 11;
      assert DigitEnd(s, 8) == 11;
    }
    assert s[7..11] == "004" + [c];
    assert RunsFrom(s, 7) == [Run(7, 11, "004" + [c])];
    assert RunsFrom(s, 6) == [Run(7, 11, "004" + [c])];
    assert DigitEnd(s, 4) == 6 by {
      assert DigitEnd(s, 6) == 6;
      assert DigitEnd(s, 5) == 6;
    }
    assert s[4..6] == "01";
    assert RunsFrom(s, 4) == [Run(4, 6, "01"), Run(7, 11, "004" + [c])];
    assert RunsFrom(s, 3) == RunsFrom(s, 4);
    assert RunsFrom(s, 2) == RunsFrom(s, 4);
    assert RunsFrom(s, 1) == RunsFrom(s, 4);
  }
}
