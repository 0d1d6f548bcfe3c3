/**
 * uncompress(seq_string, fmt) of lib/pyseq/seq.py: the template's directives
 * become named groups of a regular expression, the groups matched at the
 * start of the basename give the head, the tail, the padding and the frames,
 * and the Sequence is the first one get_sequences builds from the names
 * synthesized from them.
 *
 * The regular expression is modelled element by element over the template's
 * piece list (Formatting.Scan), with the backtracking order of Python's
 * engine: each group tries its longest fitting text first.  As written, the
 * head group `(\S+)?` may end inside the first number of a range, and the
 * Uncompress method follows that (SynthesizeAsWritten).  Synthesize is the
 * intended reading, with a head that ends at a number's boundary: the
 * round trips HeadRangeTailRoundTrip and FormatThenSynthesize hold for it,
 * and AsWrittenHeadTakesDigits shows where the code parts from it.
 */
module Uncompress {
  import opened Outcomes
  import opened Text
  import opened Tokenizer
  import opened Printf
  import opened Ranges
  import opened Items
  import opened Formatting
  import opened Sequences
  import opened Aggregation

  // ------------------------------------------------- the regular expression

  /** What a directive stands for in the regular expression (remap; any other
      name is `\w+`).  HeadText is the head that does not end in a digit. */
  datatype Kind =
    | NonSpaceText     // (\S+)?
    | HeadText         // (\S*[^\s\d])?
    | DigitText        // \d+
    | FrameRangeText   // \d+-\d+
    | RangeListText    // \[[\d\s?\-<range_join>?]+\]
    | PadText          // %\d+d
    | BracketText      // \[.*\]
    | WordText         // \w+

  /** The group kinds of remap; `corrected` gives %h the head that ends at a
      number's boundary instead of `(\S+)?`. */
  function KindOf(name: string, corrected: bool): Kind {
    if name == "h" then (if corrected then HeadText else NonSpaceText)
    else if name == "t" then NonSpaceText
    else if name == "s" || name == "e" || name == "l" then DigitText
    else if name == "r" then FrameRangeText
    else if name == "R" then RangeListText
    else if name == "p" then PadText
    else if name == "m" || name == "f" then BracketText
    else WordText
  }

  /** A character of the %R character class. */
  predicate InRangeClass(c: char, join: string) {
    IsDigit(c) || IsSpace(c) || c == '?' || c == '-' || c in join
  }

  /** The whole of x is matched by a group of kind k. */
  predicate Fits(k: Kind, x: string, join: string) {
    match k
    case NonSpaceText => NoSpaces(x)
    case HeadText => x == [] || (NoSpaces(x) && !IsDigit(x[|x| - 1]))
    case DigitText => |x| >= 1 && AllDigits(x)
    case FrameRangeText =>
      var a := DigitEnd(x, 0);
      1 <= a < |x| - 1 && x[a] == '-' && AllDigits(x[a + 1..])
    case RangeListText =>
      |x| >= 3 && x[0] == '[' && x[|x| - 1] == ']' && forall j :: 1 <= j < |x| - 1 ==> InRangeClass(x[j], join)
    case PadText => |x| >= 3 && x[0] == '%' && x[|x| - 1] == 'd' && AllDigits(x[1..|x| - 1])
    case BracketText => |x| >= 2 && x[0] == '[' && x[|x| - 1] == ']' && '\n' !in x[1..|x| - 1]
    case WordText => |x| >= 1 && AllWord(x)
  }

  /** An element of the regular expression: escaped literal text, which
      matches itself, or a named group. */
  datatype Elem = Exact(text: string) | Capture(name: string, kind: Kind)

  function ElementOf(p: Piece, corrected: bool): Elem {
    match p
    case Lit(t) => Exact(t)
    case Dir(_, name) => Capture(name, KindOf(name, corrected))
  }

  function Elements(ps: seq<Piece>, corrected: bool): (es: seq<Elem>)
    ensures |es| == |ps| && forall j :: 0 <= j < |ps| ==> es[j] == ElementOf(ps[j], corrected)
  {
    if ps == [] then [] else [ElementOf(ps[0], corrected)] + Elements(ps[1..], corrected)
  }

  /** re.compile accepts the expression: every group name is an identifier
      (it does not start with a digit) and no name is used twice. */
  predicate Compiles(es: seq<Elem>) {
    (forall j :: 0 <= j < |es| && es[j].Capture? ==> |es[j].name| >= 1 && !IsDigit(es[j].name[0]))
    && (forall j, k :: 0 <= j < k < |es| && es[j].Capture? && es[k].Capture? ==> es[j].name != es[k].name)
  }

  /** regex.match(s[i:]): the text each element takes, for the first way the
      backtracking engine finds; the match need not reach the end of s. */
  function MatchFrom(es: seq<Elem>, s: string, i: nat, join: string): (r: Option<seq<string>>)
    requires i <= |s|
    ensures r.Some? ==> |r.value| == |es|
    decreases |es|, |s| - i + 1
  {
    if es == [] then Some([])
    else
      match es[0]
      case Exact(t) =>
        if i + |t| <= |s| && s[i..i + |t|] == t then
          match MatchFrom(es[1..], s, i + |t|, join)
          case Some(ts) => Some([t] + ts)
          case None => None
        else None
      case Capture(_, k) => TryFrom(k, es[1..], s, i, |s| - i, join)
  }

  /** A group of kind k at i tries n characters, then fewer: the longest text
      that fits and lets the rest match. */
  function TryFrom(k: Kind, rest: seq<Elem>, s: string, i: nat, n: nat, join: string): (r: Option<seq<string>>)
    requires i + n <= |s|
    ensures r.Some? ==> |r.value| == |rest| + 1
    decreases |rest| + 1, n
  {
    var m := if Fits(k, s[i..i + n], join) then MatchFrom(rest, s, i + n, join) else None;
    match m
    case Some(ts) => Some([s[i..i + n]] + ts)
    case None => if n == 0 then None else TryFrom(k, rest, s, i, n - 1, join)
  }

  function Concat(ts: seq<string>): string {
    if ts == [] then "" else ts[0] + Concat(ts[1..])
  }

  /** Every text is matched by its element. */
  predicate Fitted(es: seq<Elem>, ts: seq<string>, join: string) {
    |ts| == |es| &&
    forall j :: 0 <= j < |es| ==>
      match es[j]
      case Exact(t) => ts[j] == t
      case Capture(_, k) => Fits(k, ts[j], join)
  }

  /** The matched group texts by name. */
  function Captures(es: seq<Elem>, ts: seq<string>): map<string, string>
    requires |ts| == |es|
  {
    if es == [] then map[]
    else
      var rest := Captures(es[1..], ts[1..]);
      if es[0].Capture? then rest[es[0].name := ts[0]] else rest
  }

  // ------------------------------------------------ from groups to frames

  /** One entry of the %R list: "a-b" stands for a..b and has the width of its
      longer end, "n" stands for n and has the width of its text; int()
      refusing a text is a ValueError. */
  function NumberGroup(g: string): (r: Result<(seq<nat>, nat)>)
    ensures r.Ok? ==> r.value.1 == EntryWidth(g)
  {
    if '-' in g then
      SplitAtChar(g, '-');
      var sp := Split(g, "-");
      match (ParseInt(sp[0]), ParseInt(sp[1]))
      case (Some(a), Some(b)) => Ok((Span(a, b), if |sp[0]| >= |sp[1]| then |sp[0]| else |sp[1]|))
      case _ => Err(ValueError)
    else
      match ParseInt(g)
      case Some(n) => Ok(([n], |g|))
      case None => Err(ValueError)
  }

  /** The width pad_len takes from one %R entry: the longer of the two ends
      of "a-b", else the whole entry. */
  function EntryWidth(g: string): nat {
    if '-' in g then
      SplitAtChar(g, '-');
      var sp := Split(g, "-");
      if |sp[0]| >= |sp[1]| then |sp[0]| else |sp[1]|
    else |g|
  }

  /** The %R entries of the matched group "[...]": its text inside the
      brackets (R[1:-1]) split on the range separator. */
  function RangeEntries(text: string, join: string): seq<string>
    requires join != ""
  {
    Split(if |text| >= 2 then text[1..|text| - 1] else "", join)
  }

  /** The %R entries in order: their frames one after the other and the
      widest width (pad_len); the first entry int() refuses stops it. */
  function RangeListSpec(gs: seq<string>): (r: Result<(seq<nat>, nat)>)
  {
    if gs == [] then Ok(([], 0))
    else
      var prev :- RangeListSpec(gs[..|gs| - 1]);
      var cur :- NumberGroup(gs[|gs| - 1]);
      Ok((prev.0 + cur.0, if prev.1 >= cur.1 then prev.1 else cur.1))
  }

  /** The padding and the frames: from %R when it is in the template (its
      width gives the padding when %p does not), else from %r, else none when
      %s and %e are there; a missing %s or %e is an IndexError. */
  function PadAndFrames(caps: map<string, string>, join: string): (r: Result<(string, seq<nat>)>)
  {
    var pad := if "p" in caps then caps["p"] else "%d";
    if "R" in caps then
      var text := caps["R"];
      var inner := if |text| >= 2 then text[1..|text| - 1] else "";
      if join == "" then Err(ValueError)
      else
        var parsed :- RangeListSpec(Split(inner, join));
        Ok((if pad == "%d" && parsed.1 != 0 then "%0" + Str(parsed.1) + "d" else pad, parsed.0))
    else if "r" in caps then
      var sp := Split(caps["r"], "-");
      if |sp| != 2 then Err(ValueError)
      else
        match (ParseInt(sp[0]), ParseInt(sp[1]))
        case (Some(a), Some(b)) => Ok((pad, Span(a, b)))
        case _ => Err(ValueError)
    else if "s" in caps && "e" in caps then Ok((pad, []))
    else Err(IndexError)
  }

  /** The synthesized paths: `pad % frame` between the head and the tail,
      joined to the directory. */
  function NamesSpec(frames: seq<nat>, pad: string, h: string, t: string, dir: string): (r: Result<seq<string>>)
  {
    if frames == [] then Ok([])
    else
      var prev :- NamesSpec(frames[..|frames| - 1], pad, h, t, dir);
      var f :- ApplyPad(pad, frames[|frames| - 1]);
      Ok(prev + [PathJoin(dir, h + f + t)])
  }

  /** a is a proper prefix of b. */
  predicate StartsLonger(a: string, b: string) {
    |a| < |b| && b[..|a|] == a
  }

  /** The replace loop rewrites every occurrence of a directive's text, and a
      directive's text holds its one '%' in front, so an earlier directive
      whose text starts a later one's is rewritten inside that one as well:
      its group is then defined twice and re.compile fails. */
  predicate Shadows(ps: seq<Piece>) {
    exists j, k :: 0 <= j < k < |ps| && ps[j].Dir? && ps[k].Dir?
      && StartsLonger(DirText(ps[j].pad, ps[j].name), DirText(ps[k].pad, ps[k].name))
  }

  /** What uncompress builds the Sequence from: Ok(None) when the template
      does not match, else the synthesized paths; `corrected` selects the
      head that ends at a number's boundary.  The eval() of %f and %m is not
      modelled. */
  function SynthesizeWith(path: string, fmt: string, join: string, corrected: bool): (r: Result<Option<seq<string>>>)
  {
    var ps := Scan(ReplaceAll(fmt, "%D", ""));
    var es := Elements(ps, corrected);
    if Shadows(ps) || !Compiles(es) then Err(PatternError)
    else
      match MatchFrom(es, Basename(path), 0, join)
      case None => Ok(None)
      case Some(ts) =>
        var caps := Captures(es, ts);
        var pf :- PadAndFrames(caps, join);
        if "f" in caps || "m" in caps then Err(Unsupported("eval of %f and %m"))
        else
          var names :- NamesSpec(pf.1, pf.0, if "h" in caps then caps["h"] else "",
                                 if "t" in caps then caps["t"] else "", Dirname(path));
          Ok(Some(names))
  }

  /** The synthesis of uncompress as written: the head group is `(\S+)?`. */
  function SynthesizeAsWritten(path: string, fmt: string, join: string): Result<Option<seq<string>>> {
    SynthesizeWith(path, fmt, join, false)
  }

  /** The intended synthesis: the head group ends at a number's boundary. */
  function Synthesize(path: string, fmt: string, join: string): Result<Option<seq<string>>> {
    SynthesizeWith(path, fmt, join, true)
  }

  // ------------------------------------------------------------- lemmas

  lemma {:induction false} FindChar(s: string, c: char, i: nat)
    requires i <= |s| && c in s[i..]
    ensures Find(s, [c], i).Some?
    decreases |s| - i
  {
    if s[i..i + 1] != [c] {
      assert s[i] != c;
      assert s[i..] == [s[i]] + s[i + 1..];
      FindChar(s, c, i + 1);
    }
  }

  /** Splitting at a character the text holds gives at least two pieces. */
  lemma SplitAtChar(s: string, c: char)
    requires c in s
    ensures |Split(s, [c])| >= 2
  {
    assert s[0..] == s;
    FindChar(s, c, 0);
  }

  /** No character of x is a character of sep. */
  predicate Apart(x: string, sep: string) {
    forall i :: 0 <= i < |x| ==> x[i] !in sep
  }

  lemma ApartTail(x: string, sep: string)
    requires |x| >= 1 && Apart(x, sep)
    ensures x[0] !in sep && Apart(x[1..], sep)
  {
    forall q | 0 <= q < |x| - 1 ensures x[1..][q] !in sep {
      assert x[1..][q] == x[q + 1];
    }
  }

  /** The first occurrence of sep from i, where nothing before it shares a
      character with sep. */
  lemma {:induction false} FindSep(s: string, sep: string, i: nat, j: nat)
    requires |sep| >= 1 && i <= j && j + |sep| <= |s| && s[j..j + |sep|] == sep
    requires Apart(s[i..j], sep)
    ensures Find(s, sep, i) == Some(j)
    decreases j - i
  {
    if i < j {
      ApartTail(s[i..j], sep);
      assert s[i..j][0] == s[i] && s[i..i + |sep|][0] == s[i];
      assert s[i..i + |sep|] != sep by {
        assert sep[0] in sep;
      }
      assert s[i..j][1..] == s[i + 1..j];
      FindSep(s, sep, i + 1, j);
    }
  }

  lemma {:induction false} FindSepNone(s: string, sep: string, i: nat)
    requires |sep| >= 1 && i <= |s| && Apart(s[i..], sep)
    ensures Find(s, sep, i).None?
    decreases |s| - i
  {
    if i + |sep| <= |s| {
      ApartTail(s[i..], sep);
      assert s[i..][0] == s[i] && s[i..i + |sep|][0] == s[i];
      assert s[i..i + |sep|] != sep by {
        assert sep[0] in sep;
      }
      assert s[i..][1..] == s[i + 1..];
      FindSepNone(s, sep, i + 1);
    }
  }

  /** Parts that share no character with sep, joined by sep, split back. */
  lemma {:induction false} SplitJoin(parts: seq<string>, sep: string)
    requires |parts| >= 1 && |sep| >= 1
    requires forall k :: 0 <= k < |parts| ==> Apart(parts[k], sep)
    ensures Split(Join(parts, sep), sep) == parts
    decreases |parts|
  {
    if |parts| == 1 {
      assert parts[0][0..] == parts[0];
      FindSepNone(parts[0], sep, 0);
    } else {
      var s := Join(parts, sep);
      var rest := Join(parts[1..], sep);
      assert s == parts[0] + sep + rest;
      hide Join;
      var j := |parts[0]|;
      assert s[0..j] == parts[0];
      assert s[j..j + |sep|] == sep;
      FindSep(s, sep, 0, j);
      assert s[j + |sep|..] == rest;
      assert s[..j] == parts[0];
      assert Split(s, sep) == [parts[0]] + Split(rest, sep);
      SplitJoin(parts[1..], sep);
      assert parts == [parts[0]] + parts[1..];
    }
  }

  /** "x-y".split("-") when neither side holds a '-'. */
  lemma SplitDash(x: string, y: string)
    requires '-' !in x && '-' !in y
    ensures Split(x + "-" + y, "-") == [x, y]
  {
    assert Join([x, y], "-") == x + "-" + y by {
      assert [x, y][1..] == [y];
    }
    assert Apart(x, "-") && Apart(y, "-");
    SplitJoin([x, y], "-");
  }

  /** int(str(n)) == n. */
  lemma ParseStr(n: nat)
    ensures ParseInt(Str(n)) == Some(n)
  {
    Text.StrValue(n);
    var s := Str(n);
    assert !IsSpace(s[0]) && !IsSpace(s[|s| - 1]);
    assert Strip(s) == s;
  }

  /** "%d" % n == str(n). */
  lemma ApplyPlain(n: nat)
    ensures ApplyPad("%d", n) == Ok(Str(n))
  {
    assert "%d"[1..1] == "";
    assert LeadingZeros("", 0) == 0;
    assert ParseSpec("") == Spec(false, 0);
  }

  /** The paths h + str(f) + t for the frames f, in order. */
  function Framed(h: string, fs: seq<nat>, t: string): (r: seq<string>)
    ensures |r| == |fs|
  {
    seq(|fs|, k requires 0 <= k < |fs| => h + Str(fs[k]) + t)
  }

  /** Without %p and without a directory the paths are head, frame, tail. */
  lemma {:induction false} NamesPlain(fs: seq<nat>, h: string, t: string)
    requires '/' !in h
    ensures NamesSpec(fs, "%d", h, t, "") == Ok(Framed(h, fs, t))
    decreases |fs|
  {
    hide Str, ApplyPad;
    if fs != [] {
      var init := fs[..|fs| - 1];
      NamesPlain(init, h, t);
      ApplyPlain(fs[|fs| - 1]);
      var x := h + Str(fs[|fs| - 1]) + t;
      assert |h| > 0 ==> x[0] == h[0];
      assert |h| == 0 ==> x[0] == Str(fs[|fs| - 1])[0];
      assert PathJoin("", x) == x;
      assert Framed(h, fs, t) == Framed(h, init, t) + [x];
    }
  }

  // ------------------------------------------------------------ matching

  /** A match is a split of a prefix of s[i..] into texts, each matched by its
      element. */
  lemma {:induction false} MatchFromSound(es: seq<Elem>, s: string, i: nat, join: string)
    requires i <= |s|
    ensures MatchFrom(es, s, i, join).Some? ==>
      var ts := MatchFrom(es, s, i, join).value;
      Fitted(es, ts, join) && i + |Concat(ts)| <= |s| && s[i..i + |Concat(ts)|] == Concat(ts)
    decreases |es|, |s| - i + 1
  {
    if es != [] && MatchFrom(es, s, i, join).Some? {
      var ts := MatchFrom(es, s, i, join).value;
      hide Fitted, Fits, Concat, TryFrom;
      match es[0]
      case Exact(t) =>
        assert es == [Exact(t)] + es[1..];
        ExactSound(t, es[1..], s, i, join);
      case Capture(name, k) =>
        TryFromSound(name, k, es[1..], s, i, |s| - i, join);
        assert es == [Capture(name, k)] + es[1..];
    }
  }

  /** The step of MatchFromSound for literal text. */
  lemma {:induction false} ExactSound(t: string, rest: seq<Elem>, s: string, i: nat, join: string)
    requires i <= |s|
    ensures MatchFrom([Exact(t)] + rest, s, i, join).Some? ==>
      var ts := MatchFrom([Exact(t)] + rest, s, i, join).value;
      Fitted([Exact(t)] + rest, ts, join) && i + |Concat(ts)| <= |s| && s[i..i + |Concat(ts)|] == Concat(ts)
    decreases |rest| + 1, |s| - i
  {
    var es := [Exact(t)] + rest;
    assert es[1..] == rest;
    if MatchFrom(es, s, i, join).Some? {
      var ts := MatchFrom(es, s, i, join).value;
      hide Fitted, Fits, Concat, TryFrom;
      var tl := MatchFrom(rest, s, i + |t|, join).value;
      MatchFromSound(rest, s, i + |t|, join);
      assert ts == [t] + tl;
      hide MatchFrom;
      FittedCons(Exact(t), rest, t, tl, join);
      ConcatCons(t, tl);
      var c := |Concat(tl)|;
      assert s[i..i + |t| + c] == s[i..i + |t|] + s[i + |t|..i + |t| + c];
    }
  }

  lemma {:induction false} TryFromSound(name: string, k: Kind, rest: seq<Elem>, s: string, i: nat, n: nat, join: string)
    requires i + n <= |s|
    ensures TryFrom(k, rest, s, i, n, join).Some? ==>
      var ts := TryFrom(k, rest, s, i, n, join).value;
      Fitted([Capture(name, k)] + rest, ts, join) && i + |Concat(ts)| <= |s| && s[i..i + |Concat(ts)|] == Concat(ts)
    decreases |rest| + 1, n
  {
    hide Fitted, Fits, MatchFrom, Concat;
    var m := if Fits(k, s[i..i + n], join) then MatchFrom(rest, s, i + n, join) else None;
    if m.Some? {
      var x := s[i..i + n];
      var tl := m.value;
      MatchFromSound(rest, s, i + n, join);
      FittedCons(Capture(name, k), rest, x, tl, join);
      ConcatCons(x, tl);
      assert s[i..i + n + |Concat(tl)|] == s[i..i + n] + s[i + n..i + n + |Concat(tl)|];
    } else if n > 0 {
      TryFromSound(name, k, rest, s, i, n - 1, join);
    }
  }

  lemma FittedCons(e: Elem, es: seq<Elem>, x: string, ts: seq<string>, join: string)
    requires Fitted(es, ts, join)
    requires match e case Exact(t) => x == t case Capture(_, k) => Fits(k, x, join)
    ensures Fitted([e] + es, [x] + ts, join)
  {
    var es', ts' := [e] + es, [x] + ts;
    forall j | 1 <= j < |es'| ensures es'[j] == es[j - 1] && ts'[j] == ts[j - 1] {
    }
  }

  lemma ConcatCons(x: string, ts: seq<string>)
    ensures Concat([x] + ts) == x + Concat(ts)
  {
    assert ([x] + ts)[1..] == ts;
  }

  /** The group fits the j characters at i. */
  predicate FitsAt(k: Kind, s: string, i: nat, j: nat, join: string)
    requires i + j <= |s|
  {
    Fits(k, s[i..i + j], join)
  }

  /** The group takes the j characters at i and the rest then matches. */
  predicate TakesAt(k: Kind, rest: seq<Elem>, s: string, i: nat, j: nat, join: string)
    requires i + j <= |s|
  {
    FitsAt(k, s, i, j, join) && MatchFrom(rest, s, i + j, join).Some?
  }

  /** Lengths above m that the group cannot take are passed over. */
  lemma {:induction false} TrySkip(k: Kind, rest: seq<Elem>, s: string, i: nat, n: nat, m: nat, join: string)
    requires m <= n && i + n <= |s|
    requires forall j :: m < j <= n ==> !TakesAt(k, rest, s, i, j, join)
    ensures TryFrom(k, rest, s, i, n, join) == TryFrom(k, rest, s, i, m, join)
    decreases n
  {
    if n > m {
      assert !TakesAt(k, rest, s, i, n, join);
      TrySkip(k, rest, s, i, n - 1, m, join);
    }
  }

  /** A group that fits no text at i matches nothing there. */
  lemma {:induction false} TryNone(k: Kind, rest: seq<Elem>, s: string, i: nat, n: nat, join: string)
    requires i + n <= |s|
    requires forall j :: 0 <= j <= n ==> !FitsAt(k, s, i, j, join)
    ensures TryFrom(k, rest, s, i, n, join).None?
    decreases n
  {
    assert !FitsAt(k, s, i, n, join);
    if n > 0 {
      TryNone(k, rest, s, i, n - 1, join);
    }
  }

  /** A text with no '-' is no frame range. */
  lemma NoDashNoRange(x: string, join: string)
    requires '-' !in x
    ensures !Fits(FrameRangeText, x, join)
  {
    var a := DigitEnd(x, 0);
    if 1 <= a < |x| - 1 {
      assert x[a] in x;
    }
  }

  /** "%h%r%t" as the regular expression sees it. */
  function HeadRangeTail(corrected: bool): seq<Elem> {
    [Capture("h", KindOf("h", corrected)), Capture("r", FrameRangeText), Capture("t", NonSpaceText)]
  }

  /** With no '-' left, the range and tail groups do not match. */
  lemma NoDashNoMatch(s: string, j: nat, join: string)
    requires j <= |s| && '-' !in s[j..]
    ensures MatchFrom(HeadRangeTail(true)[1..], s, j, join).None?
  {
    forall l | 0 <= l <= |s| - j ensures !FitsAt(FrameRangeText, s, j, l, join) {
      assert s[j..j + l] <= s[j..];
      NoDashNoRange(s[j..j + l], join);
    }
    TryNone(FrameRangeText, [Capture("t", NonSpaceText)], s, j, |s| - j, join);
  }

  /** A group matched at i tries the whole rest of s first. */
  lemma MatchCapture(es: seq<Elem>, s: string, i: nat, join: string)
    requires i <= |s| && es != [] && es[0].Capture?
    ensures MatchFrom(es, s, i, join) == TryFrom(es[0].kind, es[1..], s, i, |s| - i, join)
  {
  }

  lemma MatchEmpty(s: string, i: nat, join: string)
    requires i <= |s|
    ensures MatchFrom([], s, i, join) == Some([])
  {
  }

  /** A length that fits and lets the rest match is taken. */
  lemma TakeHere(k: Kind, rest: seq<Elem>, s: string, i: nat, n: nat, join: string, ts: seq<string>)
    requires i + n <= |s| && Fits(k, s[i..i + n], join) && MatchFrom(rest, s, i + n, join) == Some(ts)
    ensures TryFrom(k, rest, s, i, n, join) == Some([s[i..i + n]] + ts)
  {
  }

  /** Where "d-b" and the tail t start at p, the range group takes "d-b" (the
      tail does not start with a digit) and the tail group takes t. */
  lemma RangeTailMatch(s: string, p: nat, d: string, b: string, t: string, join: string)
    requires p <= |s| && s[p..] == d + "-" + b + t
    requires |d| >= 1 && AllDigits(d) && |b| >= 1 && AllDigits(b)
    requires NoSpaces(t) && (t == [] || !IsDigit(t[0]))
    ensures MatchFrom(HeadRangeTail(true)[1..], s, p, join) == Some([d + "-" + b, t])
  {
    hide MatchFrom, TryFrom;
    var tl: seq<Elem> := [Capture("t", NonSpaceText)];
    var len := |d| + 1 + |b|;
    var q := p + len;
    assert s[p..q] == d + "-" + b;
    assert s[q..] == t;
    RangeStopsAtTail(s, p, d, b, t, join);
    hide TakesAt;
    TrySkip(FrameRangeText, tl, s, p, |s| - p, len, join);
    var x := s[p..q];
    DigitEndOfBlock(x, 0, |d|);
    assert x[|d| + 1..] == b;
    assert Fits(FrameRangeText, x, join);
    assert |s| - q == |t| && s[q..q + |t|] == t;
    MatchEmpty(s, q + |t|, join);
    TakeHere(NonSpaceText, [], s, q, |t|, join, []);
    MatchCapture(tl, s, q, join);
    assert tl[1..] == [] && tl[0].kind == NonSpaceText;
    assert [s[q..q + |t|]] + [] == [t];
    assert MatchFrom(tl, s, q, join) == Some([t]);
    TakeHere(FrameRangeText, tl, s, p, len, join, [t]);
    var es := HeadRangeTail(true)[1..];
    assert es[0] == Capture("r", FrameRangeText) && es[1..] == tl;
    MatchCapture(es, s, p, join);
    assert [x] + [t] == [d + "-" + b, t];
  }

  /** A range group longer than "d-b" would end inside the tail, which
      starts with a non-digit. */
  lemma RangeStopsAtTail(s: string, p: nat, d: string, b: string, t: string, join: string)
    requires p <= |s| && s[p..] == d + "-" + b + t
    requires |d| >= 1 && AllDigits(d) && |b| >= 1 && AllDigits(b)
    requires t == [] || !IsDigit(t[0])
    ensures forall j :: |d| + 1 + |b| < j <= |s| - p ==>
      !TakesAt(FrameRangeText, [Capture("t", NonSpaceText)], s, p, j, join)
  {
    hide MatchFrom, TryFrom;
    var len := |d| + 1 + |b|;
    forall j | len < j <= |s| - p
      ensures !TakesAt(FrameRangeText, [Capture("t", NonSpaceText)], s, p, j, join)
    {
      var w := d + "-" + b + t;
      var x := s[p..p + j];
      assert x == w[..j];
      forall k | 0 <= k < |d| ensures IsDigit(x[k]) {
        assert x[k] == d[k];
      }
      assert x[|d|] == '-';
      DigitEndOfBlock(x, 0, |d|);
      assert x[len] == t[0] by {
        assert w[len] == t[0];
      }
      assert x[|d| + 1..][|b|] == x[len];
    }
  }

  /** The head that ends at a number's boundary takes all of h: the range
      group then takes "d-b" whole. */
  lemma HeadRangeTailMatch(h: string, d: string, b: string, t: string, join: string)
    requires NoSpaces(h) && (h == [] || !IsDigit(h[|h| - 1]))
    requires |d| >= 1 && AllDigits(d) && |b| >= 1 && AllDigits(b)
    requires NoSpaces(t) && '-' !in t && (t == [] || !IsDigit(t[0]))
    ensures MatchFrom(HeadRangeTail(true), h + d + "-" + b + t, 0, join) == Some([h, d + "-" + b, t])
  {
    hide MatchFrom, TryFrom;
    var s := h + d + "-" + b + t;
    var es := HeadRangeTail(true);
    HeadStopsAtNumber(h, d, b, t, join);
    hide TakesAt, FitsAt, NoSpaces, AllDigits;
    TrySkip(HeadText, es[1..], s, 0, |s|, |h|, join);
    assert s[|h|..] == d + "-" + b + t;
    RangeTailMatch(s, |h|, d, b, t, join);
    assert s[0..|h|] == h;
    assert Fits(HeadText, s[0..|h|], join);
    TakeHere(HeadText, es[1..], s, 0, |h|, join, [d + "-" + b, t]);
    MatchCapture(es, s, 0, join);
    assert [h] + [d + "-" + b, t] == [h, d + "-" + b, t];
  }

  /** No longer head than h leads to a match: it would end in a digit of d,
      or leave no '-' for the range. */
  lemma HeadStopsAtNumber(h: string, d: string, b: string, t: string, join: string)
    requires NoSpaces(h) && (h == [] || !IsDigit(h[|h| - 1]))
    requires |d| >= 1 && AllDigits(d) && |b| >= 1 && AllDigits(b)
    requires NoSpaces(t) && '-' !in t && (t == [] || !IsDigit(t[0]))
    ensures forall j :: |h| < j <= |h + d + "-" + b + t| ==>
      !TakesAt(HeadText, HeadRangeTail(true)[1..], h + d + "-" + b + t, 0, j, join)
  {
    hide MatchFrom, TryFrom;
    var s := h + d + "-" + b + t;
    var es := HeadRangeTail(true);
    var e := |h| + |d|;
    forall j | |h| < j <= |s|
      ensures !TakesAt(HeadText, es[1..], s, 0, j, join)
    {
      if j <= e {
        assert s[0..j][j - 1] == d[j - 1 - |h|];
      } else {
        assert s[j..] == (b + t)[j - e - 1..];
        assert '-' !in b;
        NoDashNoMatch(s, j, join);
      }
    }
  }

  /** As written, the head `(\S+)?` takes as much as it can: all of the
      first number but its last digit, which is all the range group gets. */
  lemma AsWrittenHeadRangeTailMatch(h: string, d: string, b: string, t: string, join: string)
    requires NoSpaces(h)
    requires |d| >= 1 && AllDigits(d) && |b| >= 1 && AllDigits(b)
    requires NoSpaces(t) && '-' !in t && (t == [] || !IsDigit(t[0]))
    ensures MatchFrom(HeadRangeTail(false), h + d + "-" + b + t, 0, join)
         == Some([h + d[..|d| - 1], [d[|d| - 1]] + "-" + b, t])
  {
    hide MatchFrom, TryFrom;
    var s := h + d + "-" + b + t;
    var es := HeadRangeTail(false);
    var e := |h| + |d|;
    var m := e - 1;
    assert es[1..] == HeadRangeTail(true)[1..];
    AsWrittenHeadStops(h, d, b, t, join);
    hide TakesAt, FitsAt;
    TrySkip(NonSpaceText, es[1..], s, 0, |s|, m, join);
    var r := [d[|d| - 1]] + "-" + b;
    assert s[m..] == r + t;
    RangeTailMatch(s, m, [d[|d| - 1]], b, t, join);
    assert s[0..m] == h + d[..|d| - 1];
    forall c | 0 <= c < m ensures !IsSpace(s[0..m][c]) {
      if c >= |h| {
        assert s[0..m][c] == d[c - |h|];
      }
    }
    assert Fits(NonSpaceText, s[0..m], join);
    TakeHere(NonSpaceText, es[1..], s, 0, m, join, [r, t]);
    MatchCapture(es, s, 0, join);
    assert [s[0..m]] + [r, t] == [h + d[..|d| - 1], r, t];
  }

  /** As written, a head longer than h and all of d but its last digit
      leads to no match: with all of d the range would start at the '-'. */
  lemma AsWrittenHeadStops(h: string, d: string, b: string, t: string, join: string)
    requires |d| >= 1 && AllDigits(d) && |b| >= 1 && AllDigits(b)
    requires NoSpaces(t) && '-' !in t && (t == [] || !IsDigit(t[0]))
    ensures forall j :: |h| + |d| - 1 < j <= |h + d + "-" + b + t| ==>
      !TakesAt(NonSpaceText, HeadRangeTail(false)[1..], h + d + "-" + b + t, 0, j, join)
  {
    hide MatchFrom, TryFrom;
    var s := h + d + "-" + b + t;
    var es := HeadRangeTail(false);
    var e := |h| + |d|;
    forall j | e - 1 < j <= |s|
      ensures !TakesAt(NonSpaceText, es[1..], s, 0, j, join)
    {
      if j == e {
        forall l | 0 <= l <= |s| - j ensures !FitsAt(FrameRangeText, s, j, l, join) {
          var x := s[j..j + l];
          if l > 0 {
            assert x[0] == '-';
          }
          assert DigitEnd(x, 0) == 0;
        }
        TryNone(FrameRangeText, es[2..], s, j, |s| - j, join);
        MatchCapture(es[1..], s, j, join);
      } else {
        assert s[j..] == (b + t)[j - e - 1..];
        assert '-' !in b;
        NoDashNoMatch(s, j, join);
      }
    }
  }

  // ------------------------------------------------------- %h%r%t names

  /** int() of a run of digits is its value. */
  lemma ParseDigits(x: string)
    requires |x| >= 1 && AllDigits(x)
    ensures ParseInt(x) == Some(DigitsValue(x))
  {
    assert !IsSpace(x[0]) && !IsSpace(x[|x| - 1]);
    assert Strip(x) == x;
  }

  lemma DigitsNoDash(x: string)
    requires AllDigits(x)
    ensures '-' !in x && '/' !in x
  {
  }

  /** A path without '/' is its own basename and has no directory. */
  lemma PlainPath(p: string)
    requires '/' !in p
    ensures Basename(p) == p && Dirname(p) == ""
  {
    assert LastIndexOf(p, '/').None?;
  }

  /** "%h%r%t" has no %D and yields the head, range and tail groups. */
  lemma HeadRangeTailTemplate(corrected: bool)
    ensures Elements(Scan(ReplaceAll("%h%r%t", "%D", "")), corrected) == HeadRangeTail(corrected)
    ensures !Shadows(Scan(ReplaceAll("%h%r%t", "%D", "")))
    ensures Compiles(HeadRangeTail(corrected))
  {
    DefaultHasNoD();
    ScanDefault("%h%r%t");
    hide *;
    ElementsHeadRangeTail(Scan("%h%r%t"), corrected);
    LettersNoShadows(Scan("%h%r%t"));
    CompilesHeadRangeTail(corrected);
  }

  /** Directives of one letter and no pad, the ones the remap table names,
      never start one another: no two of their texts differ in length. */
  lemma LettersNoShadows(ps: seq<Piece>)
    requires forall k :: 0 <= k < |ps| && ps[k].Dir? ==> ps[k].pad == "" && |ps[k].name| == 1
    ensures !Shadows(ps)
  {
    forall j, k | 0 <= j < k < |ps| && ps[j].Dir? && ps[k].Dir?
      ensures !StartsLonger(DirText(ps[j].pad, ps[j].name), DirText(ps[k].pad, ps[k].name))
    {
      assert |DirText(ps[j].pad, ps[j].name)| == 2 == |DirText(ps[k].pad, ps[k].name)|;
    }
  }

  /** `uncompress(..., fmt="%r %rx")`: replacing "%r" rewrites inside "%rx"
      as well, the group r is defined twice, and re.compile fails, whatever
      the name. */
  lemma ShadowedTemplate(path: string, join: string, corrected: bool)
    ensures SynthesizeWith(path, "%r %rx", join, corrected) == Err(PatternError)
  {
    var f := "%r %rx";
    NoDirectoryDirective(f);
    ScanShadowed(f);
    var ps := Scan(f);
    assert DirText(ps[0].pad, ps[0].name) == "%r" && DirText(ps[2].pad, ps[2].name) == "%rx";
    assert StartsLonger("%r", "%rx");
    hide *;
  }

  lemma NoDirectoryDirective(f: string)
    requires f == "%r %rx"
    ensures ReplaceAll(f, "%D", "") == f
  {
    hide ReplaceAll;
    forall k | 0 <= k <= |f| - 2 ensures !OccursAt(f, "%D", k) {
      assert f[k + 1] != 'D';
      assert f[k..k + 2][1] == f[k + 1];
    }
    ReplaceAbsent(f, "%D", "");
  }

  lemma ScanShadowed(f: string)
    requires f == "%r %rx"
    ensures Scan(f) == [Dir("", "r"), Lit(" "), Dir("", "rx")]
  {
    assert DigitEnd(f, 4) == 4;
    assert WordEnd(f, 6) == 6 && WordEnd(f, 5) == 6 && WordEnd(f, 4) == 6;
    assert f[4..6] == "rx" && f[4..4] == "";
    assert MatchAt(f, 3) == Some(("", "rx", 6));
    assert Pending(" ") == [Lit(" ")];
    assert ScanFrom(f, 3, " ") == [Lit(" "), Dir("", "rx")] + ScanFrom(f, 6, "");
    ScanChar(f, 2, "");
    assert "" + [f[2]] == " ";
    ScanLetter(f, 0, "");
    assert [f[1]] == "r";
    assert ScanFrom(f, 6, "") == [] && Pending("") == [];
  }

  lemma DefaultHasNoD()
    ensures ReplaceAll("%h%r%t", "%D", "") == "%h%r%t"
  {
    var f := "%h%r%t";
    hide ReplaceAll;
    forall k | 0 <= k <= |f| - 2 ensures !OccursAt(f, "%D", k) {
      assert f[k + 1] != 'D';
      assert f[k..k + 2][1] == f[k + 1];
    }
    ReplaceAbsent(f, "%D", "");
  }

  lemma ElementsHeadRangeTail(ps: seq<Piece>, corrected: bool)
    requires ps == [Dir("", "h"), Dir("", "r"), Dir("", "t")]
    ensures Elements(ps, corrected) == HeadRangeTail(corrected)
  {
    hide Elements;
    var es := Elements(ps, corrected);
    assert es[0] == Capture("h", KindOf("h", corrected));
    assert es[1] == Capture("r", FrameRangeText);
    assert es[2] == Capture("t", NonSpaceText);
  }

  lemma CompilesHeadRangeTail(corrected: bool)
    ensures Compiles(HeadRangeTail(corrected))
  {
  }

  /** Where %h%r%t matched h, "x-y" and t in a name with no directory, the
      paths are h + str(f) + t for f from int(x) to int(y). */
  lemma SynthesizeFromMatch(path: string, corrected: bool, h: string, x: string, y: string, t: string, join: string)
    requires '/' !in path && '/' !in h
    requires |x| >= 1 && AllDigits(x) && |y| >= 1 && AllDigits(y)
    requires MatchFrom(HeadRangeTail(corrected), path, 0, join) == Some([h, x + "-" + y, t])
    ensures SynthesizeWith(path, "%h%r%t", join, corrected)
         == Ok(Some(Framed(h, Span(DigitsValue(x), DigitsValue(y)), t)))
  {
    hide MatchFrom, Scan, ReplaceAll, Elements, Compiles, NamesSpec, Framed, Split, ParseInt;
    hide Span, DigitsValue, Basename, Dirname, Str, ApplyPad, RangeListSpec, AllDigits;
    HeadRangeTailTemplate(corrected);
    PlainPath(path);
    var es := HeadRangeTail(corrected);
    var ts := [h, x + "-" + y, t];
    var caps := Captures(es, ts);
    assert caps == map["t" := t]["r" := x + "-" + y]["h" := h] by {
      assert es[2..][1..] == [] && ts[2..][1..] == [];
      assert es[2..][0] == Capture("t", NonSpaceText) && ts[2..][0] == t;
      assert Captures(es[2..], ts[2..]) == map["t" := t];
      assert es[1..][1..] == es[2..] && ts[1..][1..] == ts[2..];
      assert Captures(es[1..], ts[1..]) == map["t" := t]["r" := x + "-" + y];
    }
    var fs := Span(DigitsValue(x), DigitsValue(y));
    assert PadAndFrames(caps, join) == Ok(("%d", fs)) by {
      DigitsNoDash(x);
      DigitsNoDash(y);
      SplitDash(x, y);
      ParseDigits(x);
      ParseDigits(y);
    }
    NamesPlain(fs, h, t);
  }

  /** The head group that ends at a number's boundary reads back a
      "head + start-end + tail" name: the paths are head + str(f) + tail for
      every f from start to end. */
  lemma HeadRangeTailRoundTrip(h: string, a: nat, b: nat, t: string, join: string)
    requires NoSpaces(h) && (h == [] || !IsDigit(h[|h| - 1])) && '/' !in h
    requires NoSpaces(t) && '-' !in t && '/' !in t && (t == [] || !IsDigit(t[0]))
    ensures Synthesize(h + Str(a) + "-" + Str(b) + t, "%h%r%t", join) == Ok(Some(Framed(h, Span(a, b), t)))
  {
    Text.StrValue(a);
    Text.StrValue(b);
    DigitsNoDash(Str(a));
    DigitsNoDash(Str(b));
    HeadRangeTailMatch(h, Str(a), Str(b), t, join);
    SynthesizeFromMatch(h + Str(a) + "-" + Str(b) + t, true, h, Str(a), Str(b), t, join);
  }

  /** As written, the head keeps all but the last digit of the start, and
      the frames run from that digit to the end. */
  lemma AsWrittenHeadRangeTail(h: string, d: string, b: nat, t: string, join: string)
    requires NoSpaces(h) && '/' !in h
    requires |d| >= 1 && AllDigits(d)
    requires NoSpaces(t) && '-' !in t && '/' !in t && (t == [] || !IsDigit(t[0]))
    ensures SynthesizeAsWritten(h + d + "-" + Str(b) + t, "%h%r%t", join)
         == Ok(Some(Framed(h + d[..|d| - 1], Span(DigitValue(d[|d| - 1]), b), t)))
  {
    Text.StrValue(b);
    DigitsNoDash(d);
    DigitsNoDash(Str(b));
    AsWrittenHeadRangeTailMatch(h, d, Str(b), t, join);
    var last := [d[|d| - 1]];
    assert DigitsValue(last) == DigitValue(d[|d| - 1]) by {
      assert last[..0] == [];
    }
    assert '/' !in d[..|d| - 1] by {
      DigitsNoDash(d[..|d| - 1]);
    }
    SynthesizeFromMatch(h + d + "-" + Str(b) + t, false, h + d[..|d| - 1], last, Str(b), t, join);
  }

  /** As written, a range whose start has one digit still reads back whole:
      the paths are head + str(f) + tail for every f from start to end. */
  lemma AsWrittenOneDigitStart(h: string, a: nat, b: nat, t: string, join: string)
    requires a < 10
    requires NoSpaces(h) && '/' !in h
    requires NoSpaces(t) && '-' !in t && '/' !in t && (t == [] || !IsDigit(t[0]))
    ensures SynthesizeAsWritten(h + Str(a) + "-" + Str(b) + t, "%h%r%t", join) == Ok(Some(Framed(h, Span(a, b), t)))
  {
    var d := Str(a);
    assert d == [DigitChar(a)];
    Text.StrValue(a);
    AsWrittenHeadRangeTail(h, d, b, t, join);
    assert d[..|d| - 1] == [] && h + [] == h;
    assert DigitValue(d[|d| - 1]) == a by {
      assert DigitsValue(d) == a;
      assert d[..0] == [];
    }
  }

  lemma {:induction false} SpanAt(a: nat, b: nat, k: nat)
    requires a + k <= b
    ensures |Span(a, b)| == b - a + 1 && Span(a, b)[k] == a + k
    decreases b - a
  {
    if a < b {
      if k > 0 {
        SpanAt(a + 1, b, k - 1);
      } else {
        SpanAt(a + 1, b, 0);
      }
    }
  }

  lemma SpanLength(a: nat, b: nat)
    ensures |Span(a, b)| == if b < a then 0 else b - a + 1
  {
    if a <= b {
      SpanAt(a, b, 0);
    }
  }

  /** The path for f is among the paths for a..b exactly when a <= f <= b. */
  lemma FramedMember(h: string, a: nat, b: nat, t: string, f: nat)
    ensures h + Str(f) + t in Framed(h, Span(a, b), t) <==> a <= f <= b
  {
    var r := Framed(h, Span(a, b), t);
    SpanLength(a, b);
    if a <= f <= b {
      SpanAt(a, b, f - a);
      assert r[f - a] == h + Str(f) + t;
    }
    if h + Str(f) + t in r {
      var k :| 0 <= k < |r| && r[k] == h + Str(f) + t;
      SpanAt(a, b, k);
      var x := h + Str(a + k) + t;
      assert x == h + Str(f) + t;
      assert |Str(a + k)| == |Str(f)|;
      assert Str(a + k) == x[|h|..|x| - |t|] == Str(f);
      Text.StrValue(a + k);
      Text.StrValue(f);
    }
  }

  /** The texts of the example: "file." + "10-20" + ".jpg" and the frame
      texts in it. */
  lemma ExampleTexts()
    ensures Str(10) == "10" && Str(20) == "20" && Str(120) == "120"
    ensures "file." + Str(10) + "-" + Str(20) + ".jpg" == "file.10-20.jpg"
    ensures "file." + "10" + "-" + Str(20) + ".jpg" == "file.10-20.jpg"
    ensures "file." + "10"[..1] == "file.1" && "10"[1] == '0' && |"10"| == 2
    ensures "file.1" + Str(20) + ".jpg" == "file.120.jpg"
    ensures "file." + Str(120) + ".jpg" == "file.120.jpg"
    ensures NoSpaces("file.") && '/' !in "file." && !IsDigit("file."[4])
    ensures NoSpaces(".jpg") && '-' !in ".jpg" && '/' !in ".jpg" && !IsDigit(".jpg"[0])
    ensures AllDigits("10") && DigitValue('0') == 0
  {
  }

  /** "file.10-20.jpg" read back as written: the head takes "file.1", the
      range is 0-20, and "file.120.jpg" is among the paths. */
  lemma AsWrittenHeadTakesDigits()
    ensures SynthesizeAsWritten("file.10-20.jpg", "%h%r%t", ", ") == Ok(Some(Framed("file.1", Span(0, 20), ".jpg")))
    ensures "file.120.jpg" in Framed("file.1", Span(0, 20), ".jpg")
  {
    ExampleTexts();
    hide SynthesizeWith, Synthesize, SynthesizeAsWritten, Framed, Span, Str, NoSpaces, AllDigits, DigitValue;
    AsWrittenHeadRangeTail("file.", "10", 20, ".jpg", ", ");
    FramedMember("file.1", 0, 20, ".jpg", 20);
  }

  /** The same text with the corrected head: frames 10 to 20 of "file.",
      and no "file.120.jpg". */
  lemma CorrectedHeadKeepsDigits()
    ensures Synthesize("file.10-20.jpg", "%h%r%t", ", ") == Ok(Some(Framed("file.", Span(10, 20), ".jpg")))
    ensures "file.120.jpg" !in Framed("file.", Span(10, 20), ".jpg")
  {
    ExampleTexts();
    hide SynthesizeWith, Synthesize, SynthesizeAsWritten, Framed, Span, Str, NoSpaces, AllDigits, DigitValue;
    HeadRangeTailRoundTrip("file.", 10, 20, ".jpg", ", ");
    FramedMember("file.", 10, 20, ".jpg", 120);
  }

  /** str(seq) read back with the same "%h%r%t": for a head that does not end
      in a digit and a tail that does not start with one (and neither holds
      white space, a '/' or, in the tail, a '-'), the paths are head + str(f)
      + tail for every f from start() to end(). */
  lemma FormatThenSynthesize(st: seq<ItemState>, join: string)
    requires st != [] && FramesOf(st) != []
    requires NoSpaces(st[0].head) && '/' !in st[0].head
    requires st[0].head == [] || !IsDigit(st[0].head[|st[0].head| - 1])
    requires NoSpaces(st[0].tail) && '-' !in st[0].tail && '/' !in st[0].tail
    requires st[0].tail == [] || !IsDigit(st[0].tail[0])
    ensures Format(st, "%h%r%t", join).Ok?
    ensures Synthesize(Format(st, "%h%r%t", join).value, "%h%r%t", join)
         == Ok(Some(Framed(st[0].head, Span(Start(FramesOf(st)), End(FramesOf(st))), st[0].tail)))
  {
    hide Format, SynthesizeWith, Synthesize, Framed, Span, Str, FramesOf, ImpliedRange;
    var fs := FramesOf(st);
    FormatDefault(st, join);
    var h, t := st[0].head, st[0].tail;
    assert ImpliedRange(fs) == Str(Start(fs)) + "-" + Str(End(fs));
    assert h + ImpliedRange(fs) + t == h + Str(Start(fs)) + "-" + Str(End(fs)) + t;
    HeadRangeTailRoundTrip(h, Start(fs), End(fs), t, join);
  }

  /** A %R separator the group can be split on: non-empty, with no digit
      and no '-'. */
  predicate RangeJoin(join: string) {
    |join| >= 1 && forall i :: 0 <= i < |join| ==> !IsDigit(join[i]) && join[i] != '-'
  }

  lemma RunTextApart(run: (nat, nat), join: string)
    requires RangeJoin(join)
    ensures Apart(RunText(run), join)
  {
    var x := RunText(run);
    var a := Str(run.0);
    forall i | 0 <= i < |x| ensures x[i] !in join {
      if i < |a| {
        assert x[i] == a[i];
      } else if i > |a| {
        assert x[i] == Str(run.1)[i - |a| - 1];
      }
    }
  }

  /** str() of a run, as one %R entry, stands for the same frames. */
  lemma NumberGroupRun(run: (nat, nat))
    requires run.0 <= run.1
    ensures NumberGroup(RunText(run)).Ok? && NumberGroup(RunText(run)).value.0 == Span(run.0, run.1)
  {
    var (a, b) := run;
    ParseStr(a);
    ParseStr(b);
    DigitsNoDash(Str(a));
    DigitsNoDash(Str(b));
    if a == b {
      assert RunText(run) == Str(a);
    } else {
      var g := Str(a) + "-" + Str(b);
      assert g[|Str(a)|] == '-';
      SplitDash(Str(a), Str(b));
    }
  }

  lemma {:induction false} RangeListRuns(runs: seq<(nat, nat)>)
    requires Ordered(runs)
    ensures RangeListSpec(RunTexts(runs)).Ok? && RangeListSpec(RunTexts(runs)).value.0 == Expand(runs)
    decreases |runs|
  {
    if runs != [] {
      var init := runs[..|runs| - 1];
      assert RunTexts(runs)[..|runs| - 1] == RunTexts(init);
      RangeListRuns(init);
      NumberGroupRun(runs[|runs| - 1]);
    }
  }

  /** The %R group str() writes for a frame list ("[1-3, 10]") reads back to
      the same frames. */
  lemma RangeListRoundTrip(fs: seq<nat>, join: string)
    requires fs != [] && RangeJoin(join)
    ensures FrameRangeSpec(Frames(fs), join).Ok?
    ensures PadAndFrames(map["R" := FrameRangeSpec(Frames(fs), join).value], join).Ok?
    ensures PadAndFrames(map["R" := FrameRangeSpec(Frames(fs), join).value], join).value.1 == fs
  {
    var runs := FrameRuns(fs);
    ExpandRuns(fs);
    var parts := RunTexts(runs);
    forall k | 0 <= k < |parts| ensures Apart(parts[k], join) {
      RunTextApart(runs[k], join);
    }
    SplitJoin(parts, join);
    var text := "[" + Join(parts, join) + "]";
    assert FrameRangeSpec(Frames(fs), join) == Ok(text);
    assert text[1..|text| - 1] == Join(parts, join);
    RangeListRuns(runs);
  }

  /** The first %R entry int() refuses ends the parse with a ValueError. */
  lemma {:induction false} RangeListStops(gs: seq<string>, i: nat)
    requires i < |gs| && RangeListSpec(gs[..i]).Ok? && NumberGroup(gs[i]).Err?
    ensures RangeListSpec(gs) == Err(ValueError)
    decreases |gs|
  {
    if i < |gs| - 1 {
      assert gs[..|gs| - 1][..i] == gs[..i];
      RangeListStops(gs[..|gs| - 1], i);
    } else {
      assert gs[..|gs| - 1] == gs[..i];
    }
  }

  /** pad_len is the widest entry: no entry is wider, and some entry is that
      wide (0 for no entries). */
  lemma {:induction false} RangeListWidest(gs: seq<string>)
    requires RangeListSpec(gs).Ok?
    ensures gs == [] ==> RangeListSpec(gs).value.1 == 0
    ensures forall k :: 0 <= k < |gs| ==> EntryWidth(gs[k]) <= RangeListSpec(gs).value.1
    ensures gs != [] ==> exists k :: 0 <= k < |gs| && EntryWidth(gs[k]) == RangeListSpec(gs).value.1
    decreases |gs|
  {
    if gs != [] {
      var init := gs[..|gs| - 1];
      var prev := RangeListSpec(init);
      var cur := NumberGroup(gs[|gs| - 1]);
      assert prev.Ok? && cur.Ok?;
      RangeListWidest(init);
      var w := RangeListSpec(gs).value.1;
      assert w == if prev.value.1 >= cur.value.1 then prev.value.1 else cur.value.1;
      forall k | 0 <= k < |gs| - 1
        ensures EntryWidth(gs[k]) <= w
      {
        assert gs[k] == init[k];
      }
      if init == [] || cur.value.1 >= prev.value.1 {
        assert EntryWidth(gs[|gs| - 1]) == w;
      } else {
        var k :| 0 <= k < |init| && EntryWidth(init[k]) == prev.value.1;
        assert gs[k] == init[k];
      }
    }
  }

  /** Without %p the padding comes from the %R group: "%0<n>d" for n the
      width of its widest entry, "%d" when every entry is empty. */
  lemma PadFromWidest(caps: map<string, string>, join: string)
    requires "R" in caps && "p" !in caps && join != ""
    requires PadAndFrames(caps, join).Ok?
    ensures RangeListSpec(RangeEntries(caps["R"], join)).Ok?
    ensures var gs := RangeEntries(caps["R"], join);
            var n := RangeListSpec(gs).value.1;
            PadAndFrames(caps, join).value.0 == (if n == 0 then "%d" else "%0" + Str(n) + "d")
            && (forall k :: 0 <= k < |gs| ==> EntryWidth(gs[k]) <= n)
            && (n != 0 ==> exists k :: 0 <= k < |gs| && EntryWidth(gs[k]) == n)
  {
    RangeListWidest(RangeEntries(caps["R"], join));
  }

  /** A zero-padded %R range "[x-y]" with both ends of one width reads back
      to "%0<width>d", and that padding writes both ends as they were. */
  lemma ZeroPaddedRangeRoundTrip(x: string, y: string, join: string)
    requires AllDigits(x) && AllDigits(y) && |x| >= 1 && |x| == |y| && RangeJoin(join)
    ensures PadAndFrames(map["R" := "[" + x + "-" + y + "]"], join)
         == Ok(("%0" + Str(|x|) + "d", Span(DigitsValue(x), DigitsValue(y))))
    ensures ApplyPad("%0" + Str(|x|) + "d", DigitsValue(x)) == Ok(x)
    ensures ApplyPad("%0" + Str(|x|) + "d", DigitsValue(y)) == Ok(y)
  {
    assert join != "";
    var a, b, w := DigitsValue(x), DigitsValue(y), |x|;
    var g := x + "-" + y;
    var caps := map["R" := "[" + x + "-" + y + "]"];
    assert caps["R"] == "[" + g + "]";
    hide NumberGroup, RangeListSpec, Split, ApplyPad, Span, DigitsValue, Str, RangeEntries, PadAndFrames, AllDigits, RangeJoin, Apart;
    ZeroPaddedEntry(x, y);
    RangeTextApart(x, y, join);
    OneEntryText(caps["R"], g, join);
    OneEntry(g, Span(a, b), w);
    ZeroPadApply(x);
    ZeroPadApply(y);
    PadFromR(caps, join, Span(a, b), w);
  }

  /** A text of digits and '-' shares no character with a range separator. */
  lemma DashDigitsApart(g: string, join: string)
    requires RangeJoin(join)
    requires forall i :: 0 <= i < |g| ==> IsDigit(g[i]) || g[i] == '-'
    ensures Apart(g, join)
  {
  }

  lemma RangeTextApart(x: string, y: string, join: string)
    requires AllDigits(x) && AllDigits(y) && RangeJoin(join)
    ensures Apart(x + "-" + y, join)
  {
    var g := x + "-" + y;
    forall i | 0 <= i < |g|
      ensures IsDigit(g[i]) || g[i] == '-'
    {
      if i < |x| {
        assert g[i] == x[i];
      } else if i > |x| {
        assert g[i] == y[i - |x| - 1];
      }
    }
    DashDigitsApart(g, join);
  }

  /** "[g]" holds the one entry g. */
  lemma OneEntryText(text: string, g: string, join: string)
    requires text == "[" + g + "]" && join != "" && Apart(g, join)
    ensures RangeEntries(text, join) == [g]
  {
    SplitJoin([g], join);
    BracketInner(text, g);
  }

  lemma BracketInner(text: string, inner: string)
    requires text == "[" + inner + "]"
    ensures |text| >= 2 && text[1..|text| - 1] == inner
  {
  }

  lemma PadFromR(caps: map<string, string>, join: string, fs: seq<nat>, w: nat)
    requires "R" in caps && "p" !in caps && join != "" && w != 0
    requires RangeListSpec(RangeEntries(caps["R"], join)) == Ok((fs, w))
    ensures PadAndFrames(caps, join) == Ok(("%0" + Str(w) + "d", fs))
  {
    hide RangeListSpec, Split, Str, ParseInt, Span;
  }

  /** "x-y" as one %R entry: the span of the two values, the width of the
      longer end. */
  lemma DashEntry(x: string, y: string)
    requires AllDigits(x) && AllDigits(y) && |x| >= 1 && |y| >= 1
    ensures NumberGroup(x + "-" + y) == Ok((Span(DigitsValue(x), DigitsValue(y)), if |x| >= |y| then |x| else |y|))
  {
    var g := x + "-" + y;
    DigitsNoDash(x);
    DigitsNoDash(y);
    SplitDash(x, y);
    ParseDigits(x);
    ParseDigits(y);
    assert g[|x|] == '-';
  }

  lemma ZeroPaddedEntry(x: string, y: string)
    requires AllDigits(x) && AllDigits(y) && |x| >= 1 && |x| == |y|
    ensures NumberGroup(x + "-" + y) == Ok((Span(DigitsValue(x), DigitsValue(y)), |x|))
  {
    DashEntry(x, y);
  }

  /** A plain number as one %R entry: that frame, the width of its text. */
  lemma PlainEntry(x: string)
    requires AllDigits(x) && |x| >= 1
    ensures NumberGroup(x) == Ok(([DigitsValue(x)], |x|))
  {
    DigitsNoDash(x);
    ParseDigits(x);
  }

  lemma OneEntry(g: string, fs: seq<nat>, w: nat)
    requires NumberGroup(g) == Ok((fs, w))
    ensures RangeListSpec([g]) == Ok((fs, w))
  {
    assert [g][..0] == [];
    hide NumberGroup;
    assert RangeListSpec([]) == Ok(([], 0));
    assert [] + fs == fs;
  }

  /** Three entries: their frames one after the other, the widest width. */
  lemma ThreeEntries(g1: string, g2: string, g3: string, f1: seq<nat>, f2: seq<nat>, f3: seq<nat>, w1: nat, w2: nat, w3: nat)
    requires NumberGroup(g1) == Ok((f1, w1)) && NumberGroup(g2) == Ok((f2, w2)) && NumberGroup(g3) == Ok((f3, w3))
    ensures var w12 := if w1 >= w2 then w1 else w2;
            RangeListSpec([g1, g2, g3]) == Ok((f1 + f2 + f3, if w12 >= w3 then w12 else w3))
  {
    OneEntry(g1, f1, w1);
    hide NumberGroup;
    var gs := [g1, g2, g3];
    assert gs[..2] == [g1, g2] && gs[..2][..1] == [g1];
    assert RangeListSpec([g1, g2]) == Ok((f1 + f2, if w1 >= w2 then w1 else w2));
  }

  /** "%0<n>d" % int(x) == x for a digit text x of width n. */
  lemma ZeroPadApply(x: string)
    requires AllDigits(x) && |x| >= 1
    ensures ApplyPad("%0" + Str(|x|) + "d", DigitsValue(x)) == Ok(x)
  {
    ZeroPadSpec(|x|);
    ZeroPadRoundTrip(x);
  }

  lemma ZeroPadSpec(w: nat)
    requires w >= 1
    ensures PercentD("%0" + Str(w) + "d") == Some(Spec(true, w))
  {
    var pad := "%0" + Str(w) + "d";
    WidthSpecs(w);
    hide ParseSpec, Str;
    assert pad[1..|pad| - 1] == "0" + Str(w);
  }

  /** "%03d" % n is n zero-filled to three places. */
  lemma ThreePlaces(n: nat)
    ensures ApplyPad("%03d", n) == Ok(Justify(Str(n), 3, '0'))
  {
    ZeroPadSpec(3);
    assert Str(3) == "3";
    assert "%0" + Str(3) + "d" == "%03d";
  }

  /** The docstring's "a.%03d.tga [1-3, 10, 12-14]" read with "%h%p%t %R":
      from its groups, the %R list has seven frames and is two characters
      wide, the given %p is kept, and the seven names run from a.001.tga to
      a.014.tga. */
  lemma RangeListExample(dir: string)
    requires dir == "./tests/files"
    ensures RangeListSpec(RangeEntries("[1-3, 10, 12-14]", ", ")) == Ok(([1, 2, 3, 10, 12, 13, 14], 2))
    ensures PadAndFrames(map["h" := "a.", "p" := "%03d", "t" := ".tga", "R" := "[1-3, 10, 12-14]"], ", ")
         == Ok(("%03d", [1, 2, 3, 10, 12, 13, 14]))
    ensures NamesSpec([1, 2, 3, 10, 12, 13, 14], "%03d", "a.", ".tga", dir).Ok?
    ensures var names := NamesSpec([1, 2, 3, 10, 12, 13, 14], "%03d", "a.", ".tga", dir).value;
            |names| == 7 && names[0] == "./tests/files/a.001.tga" && names[6] == "./tests/files/a.014.tga"
  {
    var gs := ["1-3", "10", "12-14"];
    RangeListEntries(gs);
    RangeListValue(gs);
    var caps := map["h" := "a.", "p" := "%03d", "t" := ".tga", "R" := "[1-3, 10, 12-14]"];
    hide RangeListSpec, RangeEntries;
    GivenPad(caps, ", ", "%03d", "[1-3, 10, 12-14]", gs, [1, 2, 3, 10, 12, 13, 14], 2);
    ExampleNames(dir);
  }

  /** With "%p" in the template (other than "%d"), that padding is kept. */
  lemma GivenPad(caps: map<string, string>, join: string, pad: string, text: string, gs: seq<string>, fs: seq<nat>, w: nat)
    requires "R" in caps && "p" in caps && caps["p"] == pad && pad != "%d" && caps["R"] == text && join != ""
    requires RangeEntries(text, join) == gs && RangeListSpec(gs) == Ok((fs, w))
    ensures PadAndFrames(caps, join) == Ok((pad, fs))
  {
    hide RangeListSpec, Split, Str, ParseInt, Span;
  }

  lemma RangeListEntries(gs: seq<string>)
    requires gs == ["1-3", "10", "12-14"]
    ensures RangeEntries("[1-3, 10, 12-14]", ", ") == gs
  {
    var text := "[1-3, 10, 12-14]";
    var inner := "1-3, 10, 12-14";
    ExampleJoin(gs, inner);
    ExampleApart(gs);
    SplitJoin(gs, ", ");
    ExampleBracket(text, inner);
    hide Split, Join, Apart;
    BracketInner(text, inner);
  }

  lemma ExampleBracket(text: string, inner: string)
    requires text == "[1-3, 10, 12-14]" && inner == "1-3, 10, 12-14"
    ensures text == "[" + inner + "]"
  {
  }

  lemma ExampleJoin(gs: seq<string>, inner: string)
    requires gs == ["1-3", "10", "12-14"] && inner == "1-3, 10, 12-14"
    ensures Join(gs, ", ") == inner
  {
    JoinThree(gs, ", ");
    assert gs[0] + ", " + gs[1] + ", " + gs[2] == inner;
  }

  lemma JoinThree(gs: seq<string>, sep: string)
    requires |gs| == 3
    ensures Join(gs, sep) == gs[0] + sep + gs[1] + sep + gs[2]
  {
    assert gs[1..][1..] == [gs[2]];
    assert Join(gs[1..][1..], sep) == gs[2];
    assert Join(gs[1..], sep) == gs[1] + sep + gs[2];
  }

  lemma ExampleApart(gs: seq<string>)
    requires gs == ["1-3", "10", "12-14"]
    ensures forall k :: 0 <= k < |gs| ==> Apart(gs[k], ", ")
  {
    assert RangeJoin(", ");
    DashDigitsApart(gs[0], ", ");
    DashDigitsApart(gs[1], ", ");
    DashDigitsApart(gs[2], ", ");
  }

  lemma RangeListValue(gs: seq<string>)
    requires gs == ["1-3", "10", "12-14"]
    ensures RangeListSpec(gs) == Ok(([1, 2, 3, 10, 12, 13, 14], 2))
  {
    hide NumberGroup, RangeListSpec;
    FirstEntry();
    SecondEntry();
    ThirdEntry();
    ThreeEntries("1-3", "10", "12-14", [1, 2, 3], [10], [12, 13, 14], 1, 2, 2);
    assert [1, 2, 3] + [10] + [12, 13, 14] == [1, 2, 3, 10, 12, 13, 14];
  }

  lemma FirstEntry()
    ensures NumberGroup("1-3") == Ok(([1, 2, 3], 1))
  {
    DashEntry("1", "3");
    assert "1" + "-" + "3" == "1-3";
    assert DigitsValue("1") == 1 && DigitsValue("3") == 3;
    assert Span(1, 3) == [1, 2, 3];
  }

  lemma SecondEntry()
    ensures NumberGroup("10") == Ok(([10], 2))
  {
    PlainEntry("10");
    assert DigitsValue("10") == 10;
  }

  lemma ThirdEntry()
    ensures NumberGroup("12-14") == Ok(([12, 13, 14], 2))
  {
    DashEntry("12", "14");
    assert "12" + "-" + "14" == "12-14";
    TwelveFourteen();
    assert Span(12, 14) == [12, 13, 14];
  }

  lemma TwelveFourteen()
    ensures DigitsValue("12") == 12 && DigitsValue("14") == 14
  {
    assert "12"[..1] == "1" && "14"[..1] == "1";
  }

  lemma ExampleNames(dir: string)
    requires dir == "./tests/files"
    ensures NamesSpec([1, 2, 3, 10, 12, 13, 14], "%03d", "a.", ".tga", dir).Ok?
    ensures var names := NamesSpec([1, 2, 3, 10, 12, 13, 14], "%03d", "a.", ".tga", dir).value;
            |names| == 7 && names[0] == "./tests/files/a.001.tga" && names[6] == "./tests/files/a.014.tga"
  {
    var fs: seq<nat> := [1, 2, 3, 10, 12, 13, 14];
    forall k | 0 <= k < |fs|
      ensures ApplyPad("%03d", fs[k]).Ok?
    {
      ThreePlaces(fs[k]);
    }
    NamesAll(fs, "%03d", "a.", ".tga", dir);
    ThreePlaces(1);
    ThreePlaces(14);
    ExampleEnds(dir);
  }

  lemma ExampleEnds(dir: string)
    requires dir == "./tests/files"
    ensures PathJoin(dir, "a." + Justify(Str(1), 3, '0') + ".tga") == "./tests/files/a.001.tga"
    ensures PathJoin(dir, "a." + Justify(Str(14), 3, '0') + ".tga") == "./tests/files/a.014.tga"
  {
    assert Str(1) == "1" && Str(14) == "14";
    assert Justify("1", 3, '0') == "001" && Justify("14", 3, '0') == "014";
  }

  /** The strict-padding test of uncompress: "%03d" writes 10 as "010" and
      100000 as "100000"; with strict padding those two names are not
      siblings, so frame 100000 does not join the sequence of 1..10, and
      without it they are. */
  lemma StrictDropsWideFrame(a: ItemState, b: ItemState)
    requires a.Name() == "a.010.tga" && b.Name() == "a.100000.tga"
    ensures ApplyPad("%03d", 10) == Ok("010") && ApplyPad("%03d", 100000) == Ok("100000")
    ensures !Sibling(a, b, true).0 && Sibling(a, b, false).0
  {
    TenAndWide();
    WideNames(a, b);
  }

  lemma TenAndWide()
    ensures ApplyPad("%03d", 10) == Ok("010") && ApplyPad("%03d", 100000) == Ok("100000")
  {
    ThreePlaces(10);
    ThreePlaces(100000);
    assert Str(10) == "10";
    assert Str(100000) == "100000";
    assert Justify("10", 3, '0') == "010";
  }

  lemma WideNames(a: ItemState, b: ItemState)
    requires a.Name() == "a.010.tga" && b.Name() == "a.100000.tga"
    ensures !Sibling(a, b, true).0 && Sibling(a, b, false).0
  {
    var h, t := "a.", ".tga";
    assert a.Name() == h + "010" + t && b.Name() == h + "100000" + t;
    assert NoDigits(h) && NoDigits(t) && AllDigits("010") && AllDigits("100000");
    hide Sibling;
    OneNumberSiblings(a, b, h, t, "010", "100000", true);
    OneNumberSiblings(a, b, h, t, "010", "100000", false);
  }

  /** When the padding renders every frame, there is one path per frame, in
      order: the directory joined to head, rendered frame and tail. */
  lemma {:induction false} NamesAll(frames: seq<nat>, pad: string, h: string, t: string, dir: string)
    requires forall k :: 0 <= k < |frames| ==> ApplyPad(pad, frames[k]).Ok?
    ensures NamesSpec(frames, pad, h, t, dir).Ok?
    ensures |NamesSpec(frames, pad, h, t, dir).value| == |frames|
    ensures forall k :: 0 <= k < |frames| ==>
      NamesSpec(frames, pad, h, t, dir).value[k] == PathJoin(dir, h + ApplyPad(pad, frames[k]).value + t)
    decreases |frames|
  {
    hide ApplyPad, PathJoin;
    if frames != [] {
      var init := frames[..|frames| - 1];
      forall k | 0 <= k < |init|
        ensures ApplyPad(pad, init[k]).Ok?
      {
        assert init[k] == frames[k];
      }
      NamesAll(init, pad, h, t, dir);
      var r := NamesSpec(frames, pad, h, t, dir).value;
      forall k | 0 <= k < |frames|
        ensures r[k] == PathJoin(dir, h + ApplyPad(pad, frames[k]).value + t)
      {
        if k < |init| {
          assert init[k] == frames[k];
        }
      }
    }
  }

  /** The first frame the padding refuses ends the synthesis with its error. */
  lemma {:induction false} NamesStop(frames: seq<nat>, pad: string, h: string, t: string, dir: string, i: nat)
    requires i < |frames| && NamesSpec(frames[..i], pad, h, t, dir).Ok? && ApplyPad(pad, frames[i]).Err?
    ensures NamesSpec(frames, pad, h, t, dir) == Err(ApplyPad(pad, frames[i]).error)
    decreases |frames|
  {
    if i < |frames| - 1 {
      assert frames[..|frames| - 1][..i] == frames[..i];
      NamesStop(frames[..|frames| - 1], pad, h, t, dir, i);
    } else {
      assert frames[..|frames| - 1] == frames[..i];
    }
  }

  // ------------------------------------------------------------ methods

  /** The %R loop of uncompress: each entry extends the frames and widens
      pad_len. */
  method ParseRangeList(groups: seq<string>) returns (r: Result<(seq<nat>, nat)>)
    ensures r == RangeListSpec(groups)
  {
    var frames: seq<nat> := [];
    var padLen: nat := 0;
    var i := 0;
    while i < |groups|
      invariant 0 <= i <= |groups|
      invariant RangeListSpec(groups[..i]) == Ok((frames, padLen))
    {
      var g := groups[i];
      assert groups[..i + 1][..i] == groups[..i];
      if '-' in g {
        SplitAtChar(g, '-');
        var splits := Split(g, "-");
        var start := ParseInt(splits[0]);
        var end := ParseInt(splits[1]);
        if start.None? || end.None? {
          RangeListStops(groups, i);
          return Err(ValueError);
        }
        var w := if |splits[0]| >= |splits[1]| then |splits[0]| else |splits[1]|;
        padLen := if padLen >= w then padLen else w;
        frames := frames + Span(start.value, end.value);
      } else {
        var end := ParseInt(g);
        if end.None? {
          RangeListStops(groups, i);
          return Err(ValueError);
        }
        padLen := if padLen >= |g| then padLen else |g|;
        frames := frames + [end.value];
      }
      i := i + 1;
    }
    assert groups[..i] == groups;
    r := Ok((frames, padLen));
  }

  /** The items loop of uncompress: one path per frame. */
  method SynthesizeNames(frames: seq<nat>, pad: string, h: string, t: string, dir: string) returns (r: Result<seq<string>>)
    ensures r == NamesSpec(frames, pad, h, t, dir)
  {
    var items: seq<string> := [];
    var i := 0;
    while i < |frames|
      invariant 0 <= i <= |frames|
      invariant NamesSpec(frames[..i], pad, h, t, dir) == Ok(items)
    {
      assert frames[..i + 1][..i] == frames[..i];
      var f := ApplyPad(pad, frames[i]);
      if f.Err? {
        NamesStop(frames, pad, h, t, dir, i);
        return Err(f.error);
      }
      items := items + [PathJoin(dir, h + f.value + t)];
      i := i + 1;
    }
    assert frames[..i] == frames;
    r := Ok(items);
  }

  /** The padding and frames of a match, as uncompress takes them from the
      %p, %R, %r, %s and %e groups. */
  method PadFrames(caps: map<string, string>, join: string) returns (r: Result<(string, seq<nat>)>)
    ensures r == PadAndFrames(caps, join)
  {
    var pad := if "p" in caps then caps["p"] else "%d";
    var frames: seq<nat>;
    if "R" in caps {
      var text := caps["R"];
      var inner := if |text| >= 2 then text[1..|text| - 1] else "";
      if join == "" {
        return Err(ValueError);
      }
      var parsed := ParseRangeList(Split(inner, join));
      if parsed.Err? {
        return Err(parsed.error);
      }
      if pad == "%d" && parsed.value.1 != 0 {
        pad := "%0" + Str(parsed.value.1) + "d";
      }
      frames := parsed.value.0;
    } else if "r" in caps {
      var sp := Split(caps["r"], "-");
      if |sp| != 2 {
        return Err(ValueError);
      }
      var s, e := ParseInt(sp[0]), ParseInt(sp[1]);
      if s.None? || e.None? {
        return Err(ValueError);
      }
      frames := Span(s.value, e.value);
    } else if "s" in caps && "e" in caps {
      frames := [];
    } else {
      return Err(IndexError);
    }
    r := Ok((pad, frames));
  }

  /** What uncompress returns: None when the template does not match, the
      empty list get_sequences gives for no paths, or its first Sequence. */
  datatype Uncompressed = NoMatch | NoSequences | First(sq: Sequence)

  /** uncompress(seq_string, fmt): the paths of SynthesizeAsWritten, grouped
      by get_sequences. */
  method Uncompress(path: string, fmt: string, join: string, strict: bool) returns (r: Result<Uncompressed>)
    ensures SynthesizeAsWritten(path, fmt, join).Err? ==> r == Err(SynthesizeAsWritten(path, fmt, join).error)
    ensures SynthesizeAsWritten(path, fmt, join) == Ok(None) ==> r == Ok(NoMatch)
    ensures SynthesizeAsWritten(path, fmt, join).Ok? && SynthesizeAsWritten(path, fmt, join).value.Some? ==>
      var gs := GetSequencesSpec(SynthesizeAsWritten(path, fmt, join).value.value, strict);
      r.Ok? && (r.value == NoSequences <==> gs == [])
      && (r.value.First? ==> fresh(r.value.sq) && r.value.sq.strict == strict
                             && r.value.sq.Valid() && r.value.sq.members == gs[0])
  {
    hide MatchFrom, Captures, Elements, Scan, ReplaceAll, Basename, Dirname, PadAndFrames, NamesSpec, Compiles;
    var dir := Dirname(path);
    var name := Basename(path);
    var ps := Scan(ReplaceAll(fmt, "%D", ""));
    var es := Elements(ps, false);
    if Shadows(ps) || !Compiles(es) {
      return Err(PatternError);
    }
    var m := MatchFrom(es, name, 0, join);
    if m.None? {
      return Ok(NoMatch);
    }
    var caps := Captures(es, m.value);
    var pf := PadFrames(caps, join);
    if pf.Err? {
      return Err(pf.error);
    }
    var (pad, frames) := pf.value;
    if "f" in caps || "m" in caps {
      return Err(Unsupported("eval of %f and %m"));
    }
    var names := SynthesizeNames(frames, pad, if "h" in caps then caps["h"] else "",
                                 if "t" in caps then caps["t"] else "", dir);
    if names.Err? {
      return Err(names.error);
    }
    var seqs := GetSequences(names.value, strict);
    if |seqs| > 0 {
      r := Ok(First(seqs[0]));
    } else {
      r := Ok(NoSequences);
    }
  }
}
