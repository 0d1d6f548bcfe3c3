/**
 * One file of a sequence (class Item of lib/pyseq/seq.py): its path and
 * basename, and the four attributes that is_sibling() fills in once a
 * sibling is found — the frame number, the text before it (head), the text
 * after it (tail) and the pad width.  diff() and padsize() are modelled here
 * too, since is_sibling is built on them.
 */
module Items {
  import opened Outcomes
  import opened Text
  import opened Tokenizer

  /** One entry of diff(): the offsets of a differing number in the first
      name and the two numbers as written. */
  datatype DiffEntry = DiffEntry(start: nat, end: nat, first: string, second: string)

  /** The entry that two digit runs at the same index contribute: one when
      they start at the same offset with different text (and, under strict
      padding, the same length), none otherwise. */
  function EntryOf(m1: Run, m2: Run, strict: bool): (r: seq<DiffEntry>)
    ensures |r| <= 1
  {
    if m1.start == m2.start && m1.text != m2.text && !(strict && |m1.text| != |m2.text|)
    then [DiffEntry(m1.start, m1.end, m1.text, m2.text)]
    else []
  }

  /** The entries of the zipped run lists, in order. */
  function DiffRuns(ra: seq<Run>, rb: seq<Run>, strict: bool): seq<DiffEntry>
    requires |ra| == |rb|
  {
    if ra == [] then []
    else DiffRuns(ra[..|ra| - 1], rb[..|rb| - 1], strict) + EntryOf(ra[|ra| - 1], rb[|rb| - 1], strict)
  }

  /** diff(f1, f2): nothing unless both names have as many digit runs. */
  function DiffSpec(a: string, b: string, strict: bool): seq<DiffEntry>
  {
    if |Runs(a)| == |Runs(b)| then DiffRuns(Runs(a), Runs(b), strict) else []
  }

  /** diff(f1, f2) as the loop over the zipped number matches. */
  method Diff(a: string, b: string, strict: bool) returns (d: seq<DiffEntry>)
    ensures d == DiffSpec(a, b, strict)
  {
    hide Runs;
    var ra := Runs(a);
    var rb := Runs(b);
    d := [];
    if |ra| == |rb| {
      var i := 0;
      while i < |ra|
        invariant 0 <= i <= |ra|
        invariant d == DiffRuns(ra[..i], rb[..i], strict)
      {
        var m1 := ra[i];
        var m2 := rb[i];
        assert ra[..i + 1][..i] == ra[..i] && rb[..i + 1][..i] == rb[..i];
        assert DiffRuns(ra[..i + 1], rb[..i + 1], strict) == d + EntryOf(m1, m2, strict);
        if m1.start == m2.start && m1.text != m2.text {
          if strict && |m1.text| != |m2.text| {
            i := i + 1;
            continue;
          }
          d := d + [DiffEntry(m1.start, m1.end, m1.text, m2.text)];
        }
        i := i + 1;
      }
      assert ra[..|ra|] == ra && rb[..|rb|] == rb;
    }
  }

  /** e describes a whole number of a at e.start..e.end and a different whole
      number of b starting at the same offset. */
  predicate Located(e: DiffEntry, a: string, b: string) {
    e.start + |e.first| == e.end <= |a| && a[e.start..e.end] == e.first
    && e.start + |e.second| <= |b| && b[e.start..e.start + |e.second|] == e.second
    && AllDigits(e.first) && AllDigits(e.second) && |e.first| >= 1 && |e.second| >= 1
    && e.first != e.second
    && (e.end == |a| || !IsDigit(a[e.end]))
    && (e.start + |e.second| == |b| || !IsDigit(b[e.start + |e.second|]))
  }

  lemma {:induction false} DiffRunsLocated(ra: seq<Run>, rb: seq<Run>, a: string, b: string, strict: bool)
    requires |ra| == |rb|
    requires forall k :: 0 <= k < |ra| ==> IsRun(a, ra[k]) && IsRun(b, rb[k])
    ensures forall k :: 0 <= k < |DiffRuns(ra, rb, strict)| ==>
      Located(DiffRuns(ra, rb, strict)[k], a, b)
      && (strict ==> |DiffRuns(ra, rb, strict)[k].first| == |DiffRuns(ra, rb, strict)[k].second|)
  {
    if ra != [] {
      var n := |ra| - 1;
      DiffRunsLocated(ra[..n], rb[..n], a, b, strict);
      assert IsRun(a, ra[n]) && IsRun(b, rb[n]);
    }
  }

  /** Every entry of diff() points at a real number of each name, the two
      numbers differ, and under strict padding they have the same width. */
  lemma DiffLocated(a: string, b: string, strict: bool)
    ensures forall k :: 0 <= k < |DiffSpec(a, b, strict)| ==>
      Located(DiffSpec(a, b, strict)[k], a, b)
      && (strict ==> |DiffSpec(a, b, strict)[k].first| == |DiffSpec(a, b, strict)[k].second|)
  {
    RunsSpec(a);
    RunsSpec(b);
    if |Runs(a)| == |Runs(b)| {
      DiffRunsLocated(Runs(a), Runs(b), a, b, strict);
    }
  }

  /** The entry with the roles of the names exchanged. */
  function Swap(e: DiffEntry): DiffEntry {
    DiffEntry(e.start, e.start + |e.second|, e.second, e.first)
  }

  lemma {:induction false} DiffRunsSwap(ra: seq<Run>, rb: seq<Run>, strict: bool)
    requires |ra| == |rb|
    requires forall k :: 0 <= k < |rb| ==> rb[k].end == rb[k].start + |rb[k].text|
    ensures |DiffRuns(rb, ra, strict)| == |DiffRuns(ra, rb, strict)|
    ensures forall k :: 0 <= k < |DiffRuns(ra, rb, strict)| ==>
      DiffRuns(rb, ra, strict)[k] == Swap(DiffRuns(ra, rb, strict)[k])
  {
    if ra != [] {
      var n := |ra| - 1;
      DiffRunsSwap(ra[..n], rb[..n], strict);
      assert rb[n].end == rb[n].start + |rb[n].text|;
    }
  }

  /** diff() is symmetric: exchanging the names finds the same numbers at the
      same offsets, with the two texts exchanged. */
  lemma DiffSymmetric(a: string, b: string, strict: bool)
    ensures |DiffSpec(b, a, strict)| == |DiffSpec(a, b, strict)|
    ensures forall k :: 0 <= k < |DiffSpec(a, b, strict)| ==>
      DiffSpec(b, a, strict)[k] == Swap(DiffSpec(a, b, strict)[k])
  {
    RunsSpec(b);
    if |Runs(a)| == |Runs(b)| {
      forall k | 0 <= k < |Runs(b)|
        ensures Runs(b)[k].end == Runs(b)[k].start + |Runs(b)[k].text|
      {
        assert IsRun(b, Runs(b)[k]);
      }
      DiffRunsSwap(Runs(a), Runs(b), strict);
    }
  }

  lemma {:induction false} DiffRunsSelf(ra: seq<Run>, strict: bool)
    ensures DiffRuns(ra, ra, strict) == []
  {
    if ra != [] {
      DiffRunsSelf(ra[..|ra| - 1], strict);
    }
  }

  /** A name never differs from itself. */
  lemma DiffSelf(a: string, strict: bool)
    ensures DiffSpec(a, a, strict) == []
  {
    DiffRunsSelf(Runs(a), strict);
  }

  /** padsize(item, frame): `item.pad or len(frame)` (a pad of 0 or None
      counts as unset), and without strict padding only for a frame written
      with a leading zero; 0 otherwise. */
  function PadSize(itemPad: Option<nat>, frame: string, strict: bool): (r: nat)
    ensures strict || (|frame| > 0 && frame[0] == '0') ==>
      r == if itemPad.Some? && itemPad.value != 0 then itemPad.value else |frame|
    ensures !strict && !(|frame| > 0 && frame[0] == '0') ==> r == 0
  {
    var given := if itemPad.Some? && itemPad.value != 0 then itemPad.value else |frame|;
    if strict then given
    else if |frame| > 0 && frame[0] == '0' then given
    else 0
  }

  /** The docstring's examples: the number of item.001.exr has pad size 3
      and that of test.001001.exr pad size 6, with or without strict
      padding. */
  lemma PadSizeExamples(strict: bool)
    ensures PadSize(None, Runs("item.001.exr")[0].text, strict) == 3
    ensures PadSize(None, Runs("test.001001.exr")[0].text, strict) == 6
  {
    OneNumber("item.", "001", ".exr");
    assert "item." + "001" + ".exr" == "item.001.exr";
    OneNumber("test.", "001001", ".exr");
    assert "test." + "001001" + ".exr" == "test.001001.exr";
  }

  /** The pad size is the one the frame is written with: zero-filling the
      frame's value to PadSize gives the frame's own digits back, strict or
      not (a pad of 0 leaves str() of the value, which is the frame when it
      has no leading zero). */
  lemma PadSizeRenders(itemPad: Option<nat>, frame: string, strict: bool)
    requires AllDigits(frame) && |frame| >= 1
    requires itemPad.None? || itemPad == Some(0)
    ensures Justify(Str(DigitsValue(frame)), PadSize(itemPad, frame, strict), '0') == frame
  {
    if strict || frame[0] == '0' {
      ZeroPadRoundTrip(frame);
    } else {
      ValueStr(frame);
    }
  }

  /** The attributes of an Item, as a value. */
  datatype ItemState = ItemState(path: string, frame: Option<nat>, head: string, tail: string, pad: Option<nat>)
  {
    /** The basename of the path. */
    function Name(): string {
      Basename(path)
    }
  }

  /** Item(path) before any is_sibling(): no frame, the whole name as head. */
  function FreshState(path: string): (s: ItemState)
    ensures s.path == path && s.frame.None? && s.head == s.Name() && s.tail == "" && s.pad.None?
  {
    ItemState(path, None, Basename(path), "", None)
  }

  /** The number between head and tail. */
  function Middle(s: ItemState): string
    requires |s.head| + |s.tail| <= |s.Name()|
  {
    s.Name()[|s.head|..|s.Name()| - |s.tail|]
  }

  /** What the attributes promise: without a frame the head is the whole name;
      with a frame the name is head, then that frame written in digits, then
      tail. */
  predicate Decomposed(s: ItemState) {
    if s.frame.None? then s.head == s.Name() && s.tail == ""
    else
      |s.head| + |s.tail| < |s.Name()|
      && s.Name()[..|s.head|] == s.head
      && s.Name()[|s.Name()| - |s.tail|..] == s.tail
      && AllDigits(Middle(s)) && DigitsValue(Middle(s)) == s.frame.value
  }

  /** The condition is_sibling tests: exactly one differing number and the
      same non-digit parts. */
  predicate SiblingNames(a: string, b: string, strict: bool) {
    |DiffSpec(a, b, strict)| == 1 && Parts(a) == Parts(b)
  }

  /** Python's s[i:] for any i >= 0 (empty past the end). */
  function SliceFrom(s: string, i: nat): (r: string)
    ensures i <= |s| ==> r == s[i..]
    ensures i > |s| ==> r == ""
  {
    if i <= |s| then s[i..] else ""
  }

  /** The attributes is_sibling() gives an item whose number occupies
      start..end of its name: that number as the frame, the text around it as
      head and tail, and the pad. */
  function Mark(s: ItemState, start: nat, end: nat, digits: string, pad: nat): (r: ItemState)
    requires start <= end <= |s.Name()| && AllDigits(digits)
    ensures r.path == s.path && r.frame == Some(DigitsValue(digits)) && r.pad == Some(pad)
    ensures r.head == s.Name()[..start] && r.tail == s.Name()[end..]
  {
    s.(frame := Some(DigitsValue(digits)), pad := Some(pad), head := s.Name()[..start], tail := s.Name()[end..])
  }

  /** is_sibling(self, item) as written: on success both items get their
      frames; item's pad becomes self's, and item's tail is cut at the end of
      the number in self's name. */
  function Sibling(a: ItemState, b: ItemState, strict: bool): (r: (bool, ItemState, ItemState))
    ensures r.0 == SiblingNames(a.Name(), b.Name(), strict)
    ensures !r.0 ==> r.1 == a && r.2 == b
  {
    var d := DiffSpec(a.Name(), b.Name(), strict);
    if |d| == 1 && Parts(a.Name()) == Parts(b.Name()) then
      DiffLocated(a.Name(), b.Name(), strict);
      var e := d[0];
      var pad := PadSize(b.pad, e.first, strict);
      (true, Mark(a, e.start, e.end, e.first, pad),
       b.(frame := Some(DigitsValue(e.second)), pad := Some(pad),
          head := b.Name()[..e.start], tail := SliceFrom(b.Name(), e.end)))
    else (false, a, b)
  }

  /** is_sibling with item's tail cut at the end of item's own number. */
  function SiblingCorrected(a: ItemState, b: ItemState, strict: bool): (r: (bool, ItemState, ItemState))
    ensures r.0 == SiblingNames(a.Name(), b.Name(), strict)
    ensures !r.0 ==> r.1 == a && r.2 == b
    ensures r.1.path == a.path && r.2.path == b.path
  {
    var d := DiffSpec(a.Name(), b.Name(), strict);
    if |d| == 1 && Parts(a.Name()) == Parts(b.Name()) then
      DiffLocated(a.Name(), b.Name(), strict);
      var e := d[0];
      var pad := PadSize(b.pad, e.first, strict);
      (true, Mark(a, e.start, e.end, e.first, pad), Mark(b, e.start, e.start + |e.second|, e.second, pad))
    else (false, a, b)
  }

  /** The two coincide whenever both numbers have the same width, and so
      always under strict padding. */
  lemma SiblingAgrees(a: ItemState, b: ItemState, strict: bool)
    requires SiblingNames(a.Name(), b.Name(), strict)
    requires strict || |DiffSpec(a.Name(), b.Name(), strict)[0].first| == |DiffSpec(a.Name(), b.Name(), strict)[0].second|
    ensures Sibling(a, b, strict) == SiblingCorrected(a, b, strict)
  {
    DiffLocated(a.Name(), b.Name(), strict);
  }

  lemma HeadNumberTail(n: string, e: DiffEntry, len: nat, s: ItemState)
    requires e.start + len <= |n|
    requires n[e.start..e.start + len] == (if len == |e.first| then e.first else e.second)
    requires s.Name() == n && s.head == n[..e.start] && s.tail == n[e.start + len..]
    ensures |s.head| + |s.tail| == |n| - len
    ensures n[..|s.head|] == s.head && n[|n| - |s.tail|..] == s.tail
    ensures Middle(s) == n[e.start..e.start + len]
  {
  }

  /** Siblings come out decomposed: each name is its head, its own frame in
      digits and its tail; and with the roles of the arguments exchanged the
      test gives the same answer. */
  lemma SiblingDecomposes(a: ItemState, b: ItemState, strict: bool)
    ensures SiblingCorrected(a, b, strict).0 ==> Decomposed(SiblingCorrected(a, b, strict).1) && Decomposed(SiblingCorrected(a, b, strict).2)
    ensures SiblingCorrected(a, b, strict).0 == SiblingCorrected(b, a, strict).0
  {
    hide DiffSpec, Parts, Runs, DiffRuns, Basename;
    DiffSymmetric(a.Name(), b.Name(), strict);
    if SiblingCorrected(a, b, strict).0 {
      DiffLocated(a.Name(), b.Name(), strict);
      var e := DiffSpec(a.Name(), b.Name(), strict)[0];
      var (_, a', b') := SiblingCorrected(a, b, strict);
      HeadNumberTail(a.Name(), e, |e.first|, a');
      assert Middle(a') == e.first;
      if |e.first| == |e.second| {
        assert e.first != e.second;
      }
      var m := b.Name()[e.start..e.start + |e.second|];
      assert m == e.second;
      assert |b'.head| + |b'.tail| == |b.Name()| - |e.second|;
      assert Middle(b') == m;
    }
  }

  /** Under strict padding two siblings never share a frame: equal-width
      numbers with different digits have different values. */
  lemma StrictSiblingsDiffer(a: ItemState, b: ItemState)
    requires Sibling(a, b, true).0
    ensures Sibling(a, b, true).1.frame != Sibling(a, b, true).2.frame
  {
    DiffLocated(a.Name(), b.Name(), true);
    var e := DiffSpec(a.Name(), b.Name(), true)[0];
    if DigitsValue(e.first) == DigitsValue(e.second) {
      DigitsValueInjective(e.first, e.second);
    }
  }

  /** What is_sibling() as written keeps true of an item: without a frame the
      head is the whole name and the tail is empty; with a frame the head is a
      prefix of the name, the whole number that starts right after it is the
      frame, and the tail is some suffix of the name.  (The other item's tail
      is cut where self's number ended, so it need not follow its own
      number.) */
  predicate Anchored(s: ItemState) {
    if s.frame.None? then s.head == s.Name() && s.tail == ""
    else
      |s.head| < |s.Name()| && s.Name()[..|s.head|] == s.head
      && |s.tail| <= |s.Name()| && s.Name()[|s.Name()| - |s.tail|..] == s.tail
      && IsDigit(s.Name()[|s.head|])
      && DigitsValue(s.Name()[|s.head|..DigitEnd(s.Name(), |s.head|)]) == s.frame.value
  }

  /** A whole number t at offset i of s is what DigitEnd reads there. */
  lemma NumberAt(s: string, i: nat, t: string)
    requires i + |t| <= |s| && s[i..i + |t|] == t && AllDigits(t)
    requires i + |t| == |s| || !IsDigit(s[i + |t|])
    ensures DigitEnd(s, i) == i + |t|
  {
    forall p | i <= p < i + |t|
      ensures IsDigit(s[p])
    {
      assert s[p] == t[p - i];
    }
    DigitEndOfBlock(s, i, i + |t|);
  }

  /** An item whose head ends where a whole number begins is anchored, whatever
      suffix of its name it gets as tail. */
  lemma AnchoredAt(s: ItemState, start: nat, digits: string, cut: nat)
    requires start + |digits| <= |s.Name()| && s.Name()[start..start + |digits|] == digits
    requires AllDigits(digits) && |digits| >= 1
    requires s.frame == Some(DigitsValue(digits)) && s.head == s.Name()[..start]
    requires s.tail == SliceFrom(s.Name(), cut)
    requires start + |digits| == |s.Name()| || !IsDigit(s.Name()[start + |digits|])
    ensures Anchored(s)
  {
    hide Basename, DigitsValue, DigitEnd;
    var n := s.Name();
    NumberAt(n, start, digits);
    assert n[start..DigitEnd(n, start)] == digits;
    assert IsDigit(n[start]) by {
      assert n[start] == digits[0];
    }
    assert |s.head| == start;
    if cut <= |n| {
      assert n[|n| - |n[cut..]|..] == n[cut..];
    }
  }

  /** is_sibling() as written leaves self decomposed and both items anchored;
      exchanging the two items gives the same verdict. */
  lemma SiblingAnchored(a: ItemState, b: ItemState, strict: bool)
    ensures Sibling(a, b, strict).0 ==>
      Decomposed(Sibling(a, b, strict).1) && Anchored(Sibling(a, b, strict).1) && Anchored(Sibling(a, b, strict).2)
    ensures Sibling(a, b, strict).0 == Sibling(b, a, strict).0
  {
    hide DiffSpec, Parts, Runs, DiffRuns, Basename, Sibling, SiblingCorrected, Decomposed, Anchored;
    SiblingDecomposes(a, b, strict);
    if Sibling(a, b, strict).0 {
      DiffLocated(a.Name(), b.Name(), strict);
      var e := DiffSpec(a.Name(), b.Name(), strict)[0];
      SiblingFields(a, b, strict);
      var r := Sibling(a, b, strict);
      AnchoredAt(r.1, e.start, e.first, e.end);
      AnchoredAt(r.2, e.start, e.second, e.end);
    }
  }

  /** The attributes is_sibling() as written gives the two items: self's are
      those of the corrected update, the other's are cut at the end of self's
      number. */
  lemma SiblingFields(a: ItemState, b: ItemState, strict: bool)
    requires SiblingNames(a.Name(), b.Name(), strict)
    ensures var e := DiffSpec(a.Name(), b.Name(), strict)[0];
      var r := Sibling(a, b, strict);
      Located(e, a.Name(), b.Name())
      && r.1 == SiblingCorrected(a, b, strict).1
      && r.1.frame == Some(DigitsValue(e.first)) && r.1.head == a.Name()[..e.start]
      && r.1.tail == SliceFrom(a.Name(), e.end) && r.1.path == a.path
      && r.2.frame == Some(DigitsValue(e.second)) && r.2.head == b.Name()[..e.start]
      && r.2.tail == SliceFrom(b.Name(), e.end) && r.2.path == b.path
  {
    DiffLocated(a.Name(), b.Name(), strict);
    hide DiffSpec, Parts, Runs, DiffRuns, Basename, Decomposed, Anchored;
  }

  /** Whenever the two numbers have the same width, and so always under strict
      padding, is_sibling() as written leaves both items decomposed. */
  lemma EqualWidthSiblingsDecompose(a: ItemState, b: ItemState, strict: bool)
    requires Sibling(a, b, strict).0
    requires strict || |DiffSpec(a.Name(), b.Name(), strict)[0].first| == |DiffSpec(a.Name(), b.Name(), strict)[0].second|
    ensures Decomposed(Sibling(a, b, strict).1) && Decomposed(Sibling(a, b, strict).2)
  {
    SiblingAgrees(a, b, strict);
    SiblingDecomposes(a, b, strict);
  }

  /** The diff of two names that differ only in their single number. */
  lemma OneNumberDiff(h: string, t: string, d1: string, d2: string, strict: bool)
    requires NoDigits(h) && NoDigits(t)
    requires AllDigits(d1) && |d1| >= 1 && AllDigits(d2) && |d2| >= 1
    ensures DiffSpec(h + d1 + t, h + d2 + t, strict) ==
      if d1 != d2 && !(strict && |d1| != |d2|) then [DiffEntry(|h|, |h| + |d1|, d1, d2)] else []
    ensures Parts(h + d1 + t) == Parts(h + d2 + t) == [h, t]
  {
    OneNumber(h, d1, t);
    OneNumber(h, d2, t);
    var ra := [Run(|h|, |h| + |d1|, d1)];
    var rb := [Run(|h|, |h| + |d2|, d2)];
    assert DiffRuns(ra, rb, strict) == DiffRuns([], [], strict) + EntryOf(ra[0], rb[0], strict);
  }

  /** Names that differ only in their single number are siblings, under strict
      padding only when both numbers have the same width.  is_sibling() gives
      both the text before the number as head and their own numbers as
      frames; self gets the text after its number as tail, while the other
      item's tail is its name cut at the end of self's number: the text after
      its own number when the widths agree, and that text led by the surplus
      digits when self's number is the shorter. */
  lemma OneNumberSiblings(a: ItemState, b: ItemState, h: string, t: string, d1: string, d2: string, strict: bool)
    requires NoDigits(h) && NoDigits(t)
    requires AllDigits(d1) && |d1| >= 1 && AllDigits(d2) && |d2| >= 1 && d1 != d2
    requires a.Name() == h + d1 + t && b.Name() == h + d2 + t
    ensures Sibling(a, b, strict).0 <==> !strict || |d1| == |d2|
    ensures Sibling(a, b, strict).0 ==>
      var (_, a', b') := Sibling(a, b, strict);
      a'.head == h && a'.tail == t && a'.frame == Some(DigitsValue(d1)) &&
      b'.head == h && b'.tail == SliceFrom(h + d2 + t, |h| + |d1|) &&
      b'.frame == Some(DigitsValue(d2)) && a'.pad == b'.pad
    ensures Sibling(a, b, strict).0 && |d1| == |d2| ==> Sibling(a, b, strict).2.tail == t
    ensures Sibling(a, b, strict).0 && |d1| < |d2| ==> Sibling(a, b, strict).2.tail == d2[|d1|..] + t
  {
    hide DiffSpec, Parts, Mark, Runs, DiffRuns, Basename;
    OneNumberDiff(h, t, d1, d2, strict);
    if !strict || |d1| == |d2| {
      var n1 := h + d1 + t;
      var n2 := h + d2 + t;
      assert n1[..|h|] == h && n1[|h| + |d1|..] == t;
      assert n2[..|h|] == h;
      var pad := PadSize(b.pad, d1, strict);
      var b' := b.(frame := Some(DigitsValue(d2)), pad := Some(pad), head := n2[..|h|], tail := SliceFrom(n2, |h| + |d1|));
      assert Sibling(a, b, strict) == (true, Mark(a, |h|, |h| + |d1|, d1, pad), b');
      hide Sibling;
      CutAfter(h, d2, t, |d1|);
    }
  }

  /** The name h + d + t cut w characters into d. */
  lemma CutAfter(h: string, d: string, t: string, w: nat)
    ensures w == |d| ==> SliceFrom(h + d + t, |h| + w) == t
    ensures w < |d| ==> SliceFrom(h + d + t, |h| + w) == d[w..] + t
  {
    if w <= |d| {
      assert (h + d + t)[|h| + w..] == d[w..] + t;
    }
  }

  /** As written, "file.10.jpg" claiming "file.9.jpg" (without strict padding)
      gives the latter the tail "jpg", which drops the '.' after its number,
      where the corrected cut gives ".jpg"; the as-written result is not
      decomposed. */
  lemma TailAsWrittenCounterexample()
    ensures Sibling(FreshState("file.10.jpg"), FreshState("file.9.jpg"), false).2.tail == "jpg"
    ensures SiblingCorrected(FreshState("file.10.jpg"), FreshState("file.9.jpg"), false).2.tail == ".jpg"
    ensures !Decomposed(Sibling(FreshState("file.10.jpg"), FreshState("file.9.jpg"), false).2)
  {
    TenNineNames();
    TenNineAsWritten(FreshState("file.10.jpg"), FreshState("file.9.jpg"));
    TenNineMiddle(Sibling(FreshState("file.10.jpg"), FreshState("file.9.jpg"), false).2);
  }

  /** The other way round, "file.9.jpg" claiming "file.10.jpg" gives the
      latter the tail "0.jpg": the surplus digit of its number leads it. */
  lemma NineTenAsWritten()
    ensures Sibling(FreshState("file.9.jpg"), FreshState("file.10.jpg"), false).0
    ensures Sibling(FreshState("file.9.jpg"), FreshState("file.10.jpg"), false).2.tail == "0.jpg"
  {
    TenNineNames();
    NineTenTail(FreshState("file.9.jpg"), FreshState("file.10.jpg"));
  }

  lemma NineTenTail(a: ItemState, b: ItemState)
    requires a.Name() == "file.9.jpg" && b.Name() == "file.10.jpg"
    ensures Sibling(a, b, false).0 && Sibling(a, b, false).2.tail == "0.jpg"
  {
    hide Sibling;
    var h, t := "file.", ".jpg";
    NineTenSplit(a.Name(), b.Name(), h, t);
    OneNumberSiblings(a, b, h, t, "9", "10", false);
    assert "10"[1..] + t == "0.jpg";
  }

  lemma NineTenSplit(n1: string, n2: string, h: string, t: string)
    requires n1 == "file.9.jpg" && n2 == "file.10.jpg" && h == "file." && t == ".jpg"
    ensures n1 == h + "9" + t && n2 == h + "10" + t
    ensures NoDigits(h) && NoDigits(t) && AllDigits("9") && AllDigits("10")
  {
  }

  lemma TenNineAsWritten(a: ItemState, b: ItemState)
    requires a.Name() == "file.10.jpg" && b.Name() == "file.9.jpg"
    ensures Sibling(a, b, false).2.Name() == "file.9.jpg"
    ensures Sibling(a, b, false).2.head == "file."
    ensures Sibling(a, b, false).2.tail == "jpg"
    ensures Sibling(a, b, false).2.frame.Some?
    ensures SiblingCorrected(a, b, false).2.tail == ".jpg"
  {
    TenNineDiff();
  }

  lemma TenNineNames()
    ensures Basename("file.10.jpg") == "file.10.jpg" && Basename("file.9.jpg") == "file.9.jpg"
  {
    assert '/' !in "file.10.jpg" && '/' !in "file.9.jpg";
  }

  lemma TenNineMiddle(s: ItemState)
    requires s.Name() == "file.9.jpg" && s.head == "file." && s.tail == "jpg" && s.frame.Some?
    ensures Middle(s) == "9."
    ensures !Decomposed(s)
  {
    assert Middle(s) == "9.";
    assert !IsDigit(Middle(s)[1]);
  }

  lemma TenNineDiff()
    ensures DiffSpec("file.10.jpg", "file.9.jpg", false) == [DiffEntry(5, 7, "10", "9")]
    ensures Parts("file.10.jpg") == Parts("file.9.jpg")
  {
    assert "file.10.jpg" == "file." + "10" + ".jpg";
    assert "file.9.jpg" == "file." + "9" + ".jpg";
    OneNumber("file.", "10", ".jpg");
    OneNumber("file.", "9", ".jpg");
    assert DiffRuns([Run(5, 7, "10")], [Run(5, 6, "9")], false)
      == DiffRuns([], [], false) + EntryOf(Run(5, 7, "10"), Run(5, 6, "9"), false);
  }

  /** The first example of diff()'s documentation. */
  lemma DiffExample()
    ensures DiffSpec("file01_0040.rgb", "file01_0041.rgb", false) == [DiffEntry(7, 11, "0040", "0041")]
    ensures DiffSpec("file01_0040.rgb", "file01_0041.rgb", true) == [DiffEntry(7, 11, "0040", "0041")]
  {
    RunsExample('0');
    RunsExample('1');
    assert "file01_004" + ['0'] + ".rgb" == "file01_0040.rgb";
    assert "file01_004" + ['1'] + ".rgb" == "file01_0041.rgb";
    var ra := Runs("file01_0040.rgb");
    var rb := Runs("file01_0041.rgb");
    assert ra[..1] == [Run(4, 6, "01")] && rb[..1] == [Run(4, 6, "01")];
    assert ra[..1][..0] == [] && rb[..1][..0] == [];
    assert EntryOf(ra[0], rb[0], false) == [] && EntryOf(ra[0], rb[0], true) == [];
    assert DiffRuns(ra[..1], rb[..1], false) == [] && DiffRuns(ra[..1], rb[..1], true) == [];
    assert "004" + ['0'] == "0040" && "004" + ['1'] == "0041";
    assert ra[1] == Run(7, 11, "0040") && rb[1] == Run(7, 11, "0041");
    assert EntryOf(ra[1], rb[1], false) == [DiffEntry(7, 11, "0040", "0041")];
    assert DiffRuns(ra, rb, false) == DiffRuns(ra[..1], rb[..1], false) + EntryOf(ra[1], rb[1], false);
    assert DiffRuns(ra, rb, true) == DiffRuns(ra[..1], rb[..1], true) + EntryOf(ra[1], rb[1], true);
  }

  /** A file in a sequence (class Item).  The path and the name never change;
      is_sibling() sets the other four attributes. */
  class Item {
    const path: string
    const name: string
    var frame: Option<nat>
    var head: string
    var tail: string
    var pad: Option<nat>

    function State(): ItemState
      reads this
    {
      ItemState(path, frame, head, tail, pad)
    }

    ghost predicate Valid()
      reads this
    {
      name == Basename(path) && Anchored(State())
    }

    /** Item(path). */
    constructor(p: string)
      ensures State() == FreshState(p) && name == Basename(p)
      ensures Valid()
    {
      path := p;
      name := Basename(p);
      frame := None;
      head := Basename(p);
      tail := "";
      pad := None;
    }

    /** is_sibling(item): diff the two names; when they are siblings set the
        frame, pad, head and tail of both. */
    method IsSibling(other: Item, strict: bool) returns (r: bool)
      requires name == Basename(path) && other.name == Basename(other.path)
      modifies this, other
      ensures (r, State(), other.State()) == Sibling(old(State()), old(other.State()), strict)
      ensures r == SiblingNames(name, other.name, strict)
      ensures r ==> Valid() && other.Valid() && Decomposed(State())
      ensures !r ==> unchanged(this) && unchanged(other)
    {
      hide DiffSpec, Parts, Runs, DiffRuns, Basename;
      ghost var a := State();
      ghost var b := other.State();
      var d := Diff(name, other.name, strict);
      r := |d| == 1 && Parts(name) == Parts(other.name);
      if r {
        if this == other {
          DiffSelf(name, strict);
          assert false;
        }
        SiblingAnchored(a, b, strict);
        DiffLocated(name, other.name, strict);
        var e := d[0];
        var p := PadSize(other.pad, e.first, strict);
        ghost var a' := Mark(a, e.start, e.end, e.first, p);
        ghost var b' := b.(frame := Some(DigitsValue(e.second)), pad := Some(p),
                           head := b.Name()[..e.start], tail := SliceFrom(b.Name(), e.end));
        assert Sibling(a, b, strict) == (true, a', b');
        frame := Some(DigitsValue(e.first));
        pad := Some(p);
        head := name[..e.start];
        tail := name[e.end..];
        other.frame := Some(DigitsValue(e.second));
        other.pad := pad;
        other.head := other.name[..e.start];
        other.tail := SliceFrom(other.name, e.end);
        assert State() == a';
        assert other.State() == b';
      }
    }
  }
}
