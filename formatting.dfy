/**
 * Sequence.format(fmt) of lib/pyseq/seq.py: the directives `%<pad><var>`
 * that format_re finds in fmt, the type each directive is given ("i" or "s"),
 * the attribute values they stand for, and the rendering.
 *
 * FormatAsWritten follows the code: every directive rewrites the whole
 * string with str.replace, the result goes through Python's `%` with the
 * attribute mapping, and %m, %M and %p take _get_missing and _get_padding as
 * written.  Format is the intended reading: the directive list rendered piece
 * by piece, with the corrected missing frames and padding.  The two part
 * ways when an earlier rewrite leaves a later directive's letters in its
 * output (see FormatHeadStartAsWritten and FormatRepeatedAsWritten), and on
 * %m, %M and %p for one frame or a pad of ten or more.
 */
module Formatting {
  import opened Outcomes
  import opened Text
  import opened Tokenizer
  import opened Printf
  import opened Ranges
  import opened Items
  import opened Sequences

  /** A piece of a format string: literal text, or a directive with its pad
      digits (possibly none) and its name. */
  datatype Piece = Lit(text: string) | Dir(pad: string, name: string)

  predicate AllWord(s: string) {
    forall i :: 0 <= i < |s| ==> IsWordChar(s[i])
  }

  /** The end of the run of word characters that starts at i. */
  function WordEnd(s: string, i: nat): (j: nat)
    requires i <= |s|
    ensures i <= j <= |s| && AllWord(s[i..j])
    ensures j == |s| || !IsWordChar(s[j])
    decreases |s| - i
  {
    if i < |s| && IsWordChar(s[i]) then
      var j := WordEnd(s, i + 1);
      assert s[i..j] == [s[i]] + s[i + 1..j];
      j
    else i
  }

  /** The text a directive piece stands for in the format string. */
  function DirText(pad: string, name: string): string {
    "%" + pad + name
  }

  /** A digit run without its last digit is a digit run. */
  lemma DigitsBeforeLast(s: string, a: nat, b: nat)
    requires a < b <= |s| && AllDigits(s[a..b])
    ensures AllDigits(s[a..b - 1]) && IsDigit(s[b - 1])
  {
    assert s[a..b - 1] == s[a..b][..b - 1 - a];
    assert s[b - 1] == s[a..b][b - 1 - a];
  }

  /** A match of `%(?P<pad>\d+)?(?P<var>\w+)` at i: the pad digits are
      greedy, the name is the run of word characters after them; when no word
      character follows the digits, the last digit is given back to be the
      name. */
  function MatchAt(s: string, i: nat): (r: Option<(string, string, nat)>)
    requires i < |s| && s[i] == '%'
    ensures r.Some? ==> i < r.value.2 <= |s| && s[i..r.value.2] == DirText(r.value.0, r.value.1)
    ensures r.Some? ==> AllDigits(r.value.0) && |r.value.1| >= 1 && AllWord(r.value.1)
    ensures r.None? <==> i + 1 == |s| || !IsWordChar(s[i + 1])
  {
    var d := DigitEnd(s, i + 1);
    if d < |s| && IsWordChar(s[d]) then
      var e := WordEnd(s, d);
      assert s[i..e] == [s[i]] + s[i + 1..d] + s[d..e];
      Some((s[i + 1..d], s[d..e], e))
    else if d > i + 1 then
      assert s[i..d] == [s[i]] + s[i + 1..d - 1] + s[d - 1..d];
      DigitsBeforeLast(s, i + 1, d);
      Some((s[i + 1..d - 1], s[d - 1..d], d))
    else None
  }

  /** format_re.finditer over s from i, with the literal text between the
      matches kept; `lit` is the literal text gathered so far. */
  function ScanFrom(s: string, i: nat, lit: string): (r: seq<Piece>)
    requires i <= |s|
    decreases |s| - i
  {
    if i == |s| then Pending(lit)
    else if s[i] == '%' && MatchAt(s, i).Some? then
      var (pad, name, e) := MatchAt(s, i).value;
      Pending(lit) + [Dir(pad, name)] + ScanFrom(s, e, "")
    else ScanFrom(s, i + 1, lit + [s[i]])
  }

  /** Every directive piece has digits for its pad and a non-empty name of
      word characters. */
  predicate WellFormed(ps: seq<Piece>) {
    forall k :: 0 <= k < |ps| && ps[k].Dir? ==> AllDigits(ps[k].pad) && |ps[k].name| >= 1 && AllWord(ps[k].name)
  }

  lemma {:induction false} ScanFromWellFormed(s: string, i: nat, lit: string)
    requires i <= |s|
    ensures WellFormed(ScanFrom(s, i, lit))
    decreases |s| - i
  {
    if i == |s| {
    } else if s[i] == '%' && MatchAt(s, i).Some? {
      var (pad, name, e) := MatchAt(s, i).value;
      ScanFromWellFormed(s, e, "");
      var r := ScanFrom(s, i, lit);
      var rest := ScanFrom(s, e, "");
      assert r == Pending(lit) + [Dir(pad, name)] + rest;
      hide ScanFrom, MatchAt;
      assert WellFormed(Pending(lit)) && WellFormed([Dir(pad, name)]);
      WellFormedConcat(Pending(lit), [Dir(pad, name)]);
      WellFormedConcat(Pending(lit) + [Dir(pad, name)], rest);
    } else {
      ScanFromWellFormed(s, i + 1, lit + [s[i]]);
    }
  }

  function Scan(s: string): (r: seq<Piece>)
    ensures WellFormed(r)
  {
    ScanFromWellFormed(s, 0, "");
    ScanFrom(s, 0, "")
  }

  /** The format string a piece list is read from. */
  function Unparse(ps: seq<Piece>): string {
    if ps == [] then "" else PieceText(ps[0]) + Unparse(ps[1..])
  }

  function PieceText(p: Piece): string {
    match p
    case Lit(t) => t
    case Dir(pad, name) => DirText(pad, name)
  }

  lemma {:induction false} UnparseConcat(a: seq<Piece>, b: seq<Piece>)
    ensures Unparse(a + b) == Unparse(a) + Unparse(b)
  {
    if a != [] {
      assert (a + b)[0] == a[0];
      assert (a + b)[1..] == a[1..] + b;
      UnparseConcat(a[1..], b);
      assert Unparse(a + b) == PieceText(a[0]) + Unparse(a[1..] + b);
      assert Unparse(a) == PieceText(a[0]) + Unparse(a[1..]);
    } else {
      assert a + b == b;
    }
  }

  /** The pieces before the rest of the scan: the pending literal, if any. */
  function Pending(lit: string): seq<Piece> {
    if lit == "" then [] else [Lit(lit)]
  }

  lemma PendingText(lit: string)
    ensures Unparse(Pending(lit)) == lit
  {
    if lit != "" {
      assert Unparse([Lit(lit)]) == lit + Unparse([]);
    }
  }

  lemma SliceSplit(s: string, i: nat, e: nat)
    requires i <= e <= |s|
    ensures s[i..] == s[i..e] + s[e..]
  {
  }

  lemma MatchStep(s: string, i: nat, lit: string, pad: string, name: string, e: nat)
    requires i < e <= |s| && s[i..e] == DirText(pad, name)
    requires Unparse(ScanFrom(s, e, "")) == s[e..]
    ensures Unparse(Pending(lit) + [Dir(pad, name)] + ScanFrom(s, e, "")) == lit + s[i..]
  {
    var rest := ScanFrom(s, e, "");
    UnparseConcat(Pending(lit) + [Dir(pad, name)], rest);
    UnparseConcat(Pending(lit), [Dir(pad, name)]);
    PendingText(lit);
    assert Unparse([Dir(pad, name)]) == DirText(pad, name) + Unparse([]);
    SliceSplit(s, i, e);
  }

  lemma {:induction false} ScanFromUnparse(s: string, i: nat, lit: string)
    requires i <= |s|
    ensures Unparse(ScanFrom(s, i, lit)) == lit + s[i..]
    decreases |s| - i
  {
    if i == |s| {
      PendingText(lit);
    } else if s[i] == '%' && MatchAt(s, i).Some? {
      var (pad, name, e) := MatchAt(s, i).value;
      ScanFromUnparse(s, e, "");
      MatchStep(s, i, lit, pad, name, e);
    } else {
      ScanFromUnparse(s, i + 1, lit + [s[i]]);
      assert s[i..] == [s[i]] + s[i + 1..];
    }
  }

  /** Scanning loses nothing: the pieces spell the format string back. */
  lemma ScanRoundTrip(s: string)
    ensures Unparse(Scan(s)) == s
  {
    ScanFromUnparse(s, 0, "");
  }

  /** format_char_types: "i" for start, end and length, "s" for the other
      eleven directives, none for any other name. */
  function CharType(name: string): (r: Option<char>)
    ensures r.Some? <==> |name| == 1 && (IntAttr(name[0]) || StrAttr(name[0]) || name[0] == 'd' || name[0] == 'H')
    ensures r == Some('i') <==> |name| == 1 && IntAttr(name[0])
  {
    if |name| != 1 then None
    else if IntAttr(name[0]) then Some('i')
    else if StrAttr(name[0]) || name[0] == 'd' || name[0] == 'H' then Some('s')
    else None
  }

  /** The directives of type "i": start, end and length. */
  predicate IntAttr(v: char) {
    v == 's' || v == 'e' || v == 'l'
  }

  /** The directives of type "s" that the model evaluates. */
  predicate StrAttr(v: char) {
    v == 'f' || v == 'm' || v == 'M' || v == 'p' || v == 'r' || v == 'R' || v == 'D' || v == 'h' || v == 't'
  }

  /** A value of the attribute mapping: an int, or the text %s gives the value
      (a list's repr for frames() and missing()). */
  datatype Value = IntValue(n: nat) | StrValue(s: string)

  /** str() of a value. */
  function ValueText(v: Value): string {
    match v
    case IntValue(n) => Str(n)
    case StrValue(s) => s
  }

  /** repr() of a list of ints: "[1, 2, 3]". */
  function IntListRepr(fs: seq<nat>): string {
    "[" + Join(StrsOf(fs), ", ") + "]"
  }

  function StrsOf(fs: seq<nat>): (r: seq<string>)
    ensures |r| == |fs| && forall k :: 0 <= k < |fs| ==> r[k] == Str(fs[k])
  {
    if fs == [] then [] else [Str(fs[0])] + StrsOf(fs[1..])
  }

  /** repr() of a list of ranges: "[range(2, 999), ...]". */
  function GapsRepr(gs: seq<Gap>): string {
    "[" + Join(RangeReprs(gs), ", ") + "]"
  }

  function RangeReprs(gs: seq<Gap>): (r: seq<string>)
    ensures |r| == |gs|
  {
    if gs == [] then [] else ["range(" + Str(gs[0].lo) + ", " + Str(gs[0].hi) + ")"] + RangeReprs(gs[1..])
  }

  function MissingRepr(m: MissingList): string {
    match m
    case Frames(fs) => IntListRepr(fs)
    case Gaps(gs) => GapsRepr(gs)
  }

  /** The missing frames of _get_missing as written, or corrected. */
  function MissingOf(fs: seq<nat>, corrected: bool): MissingList
    requires Sorted(fs)
  {
    if corrected then Missing(fs) else MissingAsWritten(fs)
  }

  function PadsOf(st: seq<ItemState>): (r: seq<Option<nat>>)
    ensures |r| == |st| && forall i :: 0 <= i < |st| ==> r[i] == st[i].pad
  {
    if st == [] then [] else [st[0].pad] + PadsOf(st[1..])
  }

  /** The value a directive stands for (the entries of __attrs__): length,
      start, end, frames, missing frames, the range texts, padding, directory,
      head and tail.  Disk usage needs the file system and is not modelled.
      With corrected false, missing frames and padding are those of
      _get_missing and _get_padding as written; with corrected true, those
      with the single-frame case and the wide-pad string corrected. */
  function Attr(st: seq<ItemState>, v: char, join: string, corrected: bool): (r: Result<Value>)
    ensures r.Ok? && IntAttr(v) ==> r.value.IntValue?
    ensures r.Ok? && StrAttr(v) ==> r.value.StrValue?
    ensures !IntAttr(v) && !StrAttr(v) ==> r.Err?
  {
    var fs := FramesOf(st);
    match v
    case 'l' => Ok(IntValue(|st|))
    case 's' => Ok(IntValue(Start(fs)))
    case 'e' => Ok(IntValue(End(fs)))
    case 'f' => Ok(StrValue(IntListRepr(fs)))
    case 'm' => Ok(StrValue(MissingRepr(MissingOf(fs, corrected))))
    case 'M' =>
      var t :- FrameRangeSpec(MissingOf(fs, corrected), join);
      Ok(StrValue(t))
    case 'p' =>
      var t :- if corrected then Padding(PadsOf(st)) else PaddingAsWritten(PadsOf(st));
      Ok(StrValue(t))
    case 'r' => Ok(StrValue(ImpliedRange(fs)))
    case 'R' =>
      var t :- FrameRangeSpec(Frames(fs), join);
      Ok(StrValue(t))
    case 'D' => if st == [] then Err(IndexError) else Ok(StrValue(Dirname(st[0].path) + "/"))
    case 'h' => if st == [] then Err(IndexError) else Ok(StrValue(st[0].head))
    case 't' => if st == [] then Err(IndexError) else Ok(StrValue(st[0].tail))
    case _ => Err(Unsupported("disk usage"))
  }

  /** "%(name)<pad><type>" % {name: value}: an int directive zero-filled or
      space-filled to the width, a str directive space-filled (the zero flag
      does not apply to str). */
  function Render(v: Value, pad: string, t: char): string
    requires AllDigits(pad)
  {
    var sp := ParseSpec(pad);
    if t == 'i' && v.IntValue? then FormatInt(v.n, sp) else FormatStr(ValueText(v), sp)
  }

  /** Format over the piece list: directives in order, the first unknown name
      raising FormatError("Bad directive: %<name>") and the first failing
      attribute its own error; literal text is copied. */
  function FormatPieces(st: seq<ItemState>, ps: seq<Piece>, join: string): (r: Result<string>)
    requires WellFormed(ps)
  {
    if ps == [] then Ok("")
    else
      WellFormedTail(ps);
      Then(FormatPiece(st, ps[0], join), FormatPieces(st, ps[1..], join))
  }

  /** One piece: literal text as it is, a directive rendered. */
  function FormatPiece(st: seq<ItemState>, p: Piece, join: string): Result<string>
    requires p.Dir? ==> AllDigits(p.pad) && |p.name| >= 1
  {
    match p
    case Lit(t) => Ok(t)
    case Dir(pad, name) =>
      match CharType(name)
      case None => Err(FormatError("Bad directive: %" + name))
      case Some(t) =>
        var v :- Attr(st, name[0], join, true);
        Ok(Render(v, pad, t))
  }

  /** Two renderings one after the other: the first error, or both texts. */
  function Then(x: Result<string>, y: Result<string>): Result<string> {
    match x
    case Err(e) => Err(e)
    case Ok(u) => (match y case Err(e) => Err(e) case Ok(v) => Ok(u + v))
  }

  /** A literal piece that still holds a '%', which Python's `%` would read
      as a conversion of its own. */
  predicate PercentInText(ps: seq<Piece>) {
    exists k :: 0 <= k < |ps| && ps[k].Lit? && '%' in ps[k].text
  }

  /** format(fmt) with the directives rendered in place; a '%' left in the
      literal text is outside the model. */
  function Format(st: seq<ItemState>, fmt: string, join: string): Result<string> {
    var ps := Scan(fmt);
    var text :- FormatPieces(st, ps, join);
    if PercentInText(ps) then Err(Unsupported("a '%' in literal text")) else Ok(text)
  }

  /** A single-letter directive with no pad, followed by the end or a
      non-word character, is scanned as that directive. */
  lemma ScanLetter(s: string, i: nat, lit: string)
    requires i + 1 < |s| && s[i] == '%' && IsWordChar(s[i + 1]) && !IsDigit(s[i + 1])
    requires i + 2 == |s| || !IsWordChar(s[i + 2])
    ensures ScanFrom(s, i, lit) == Pending(lit) + [Dir("", [s[i + 1]])] + ScanFrom(s, i + 2, "")
  {
    assert DigitEnd(s, i + 1) == i + 1;
    assert WordEnd(s, i + 2) == i + 2;
    assert WordEnd(s, i + 1) == i + 2;
    assert s[i + 1..i + 2] == [s[i + 1]];
  }

  /** One literal character: it joins the pending literal text. */
  lemma ScanChar(s: string, i: nat, lit: string)
    requires i < |s| && s[i] != '%'
    ensures ScanFrom(s, i, lit) == ScanFrom(s, i + 1, lit + [s[i]])
  {
  }

  lemma ScanDefault(s: string)
    requires s == "%h%r%t"
    ensures Scan(s) == [Dir("", "h"), Dir("", "r"), Dir("", "t")]
  {
    ScanLetter(s, 4, "");
    ScanLetter(s, 2, "");
    ScanLetter(s, 0, "");
    assert ScanFrom(s, 6, "") == [] && Pending("") == [];
  }

  lemma RenderPlain(x: string)
    ensures Render(StrValue(x), "", 's') == x
  {
    assert LeadingZeros("", 0) == 0;
    assert ParseSpec("") == Spec(false, 0);
  }

  /** One directive in front of a rendered rest. */
  lemma FormatDirStep(st: seq<ItemState>, ps: seq<Piece>, join: string, t: char, v: Value, x: string)
    requires |ps| >= 1 && ps[0].Dir? && WellFormed(ps)
    requires CharType(ps[0].name) == Some(t) && Attr(st, ps[0].name[0], join, true) == Ok(v)
    requires FormatPieces(st, ps[1..], join) == Ok(x)
    ensures FormatPieces(st, ps, join) == Ok(Render(v, ps[0].pad, t) + x)
  {
    hide Attr, Render, CharType, FormatPieces;
    assert FormatPiece(st, ps[0], join) == Ok(Render(v, ps[0].pad, t));
    FormatPiecesCons(st, ps, join);
  }

  lemma FormatPiecesNil(st: seq<ItemState>, join: string)
    ensures WellFormed([]) && FormatPieces(st, [], join) == Ok("")
  {
  }

  lemma FormatPiecesCons(st: seq<ItemState>, ps: seq<Piece>, join: string)
    requires |ps| >= 1 && WellFormed(ps)
    ensures WellFormed(ps[1..])
    ensures FormatPieces(st, ps, join) == Then(FormatPiece(st, ps[0], join), FormatPieces(st, ps[1..], join))
  {
    hide FormatPiece;
    WellFormedTail(ps);
  }

  /** Format is the rendered piece list when no literal holds a '%'. */
  lemma FormatOk(st: seq<ItemState>, fmt: string, ps: seq<Piece>, join: string, x: string)
    requires Scan(fmt) == ps && !PercentInText(ps) && FormatPieces(st, ps, join) == Ok(x)
    ensures Format(st, fmt, join) == Ok(x)
  {
  }

  /** The head, tail and implied-range attributes. */
  lemma AttrPlain(st: seq<ItemState>, join: string, corrected: bool)
    requires st != []
    ensures Attr(st, 'h', join, corrected) == Ok(StrValue(st[0].head))
    ensures Attr(st, 't', join, corrected) == Ok(StrValue(st[0].tail))
    ensures Attr(st, 'r', join, corrected) == Ok(StrValue(ImpliedRange(FramesOf(st))))
    ensures Attr(st, 's', join, corrected) == Ok(IntValue(Start(FramesOf(st))))
  {
    hide FramesOf, MissingOf, Padding, PaddingAsWritten, FrameRangeSpec, MissingRepr, IntListRepr, ImpliedRange, Dirname;
  }

  /** str(seq) is format("%h%r%t"): head, "start-end" (nothing when no member
      has a frame) and tail. */
  lemma FormatDefault(st: seq<ItemState>, join: string)
    requires st != []
    ensures Format(st, "%h%r%t", join) == Ok(st[0].head + ImpliedRange(FramesOf(st)) + st[0].tail)
  {
    ScanDefault("%h%r%t");
    FormatHeadRangeTail(st, "%h%r%t", join);
  }

  lemma FormatHeadRangeTail(st: seq<ItemState>, fmt: string, join: string)
    requires st != [] && Scan(fmt) == [Dir("", "h"), Dir("", "r"), Dir("", "t")]
    ensures Format(st, fmt, join) == Ok(st[0].head + ImpliedRange(FramesOf(st)) + st[0].tail)
  {
    var p1 := Scan(fmt);
    FormatPiecesHeadRangeTail(st, p1, join);
    assert !PercentInText(p1);
    hide FormatPieces, Scan, PercentInText;
    FormatOk(st, fmt, p1, join, st[0].head + ImpliedRange(FramesOf(st)) + st[0].tail);
  }

  /** A plain string directive in front of a rendered rest. */
  lemma FormatStrDir(st: seq<ItemState>, name: string, rest: seq<Piece>, join: string, v: string, x: string)
    requires name == "h" || name == "r" || name == "t"
    requires WellFormed(rest) && FormatPieces(st, rest, join) == Ok(x)
    requires Attr(st, name[0], join, true) == Ok(StrValue(v))
    ensures WellFormed([Dir("", name)] + rest)
    ensures FormatPieces(st, [Dir("", name)] + rest, join) == Ok(v + x)
  {
    var ps := [Dir("", name)] + rest;
    assert ps[1..] == rest;
    forall k | 0 <= k < |ps| && ps[k].Dir?
      ensures AllDigits(ps[k].pad) && |ps[k].name| >= 1 && AllWord(ps[k].name)
    {
      if k > 0 {
        assert ps[k] == rest[k - 1];
      }
    }
    RenderPlain(v);
    hide Attr, Render, FormatPieces;
    FormatDirStep(st, ps, join, 's', StrValue(v), x);
  }

  /** The pieces of "%h%r%t" render to head, implied range and tail. */
  lemma FormatPiecesHeadRangeTail(st: seq<ItemState>, p1: seq<Piece>, join: string)
    requires st != [] && p1 == [Dir("", "h"), Dir("", "r"), Dir("", "t")]
    ensures WellFormed(p1)
    ensures FormatPieces(st, p1, join) == Ok(st[0].head + ImpliedRange(FramesOf(st)) + st[0].tail)
  {
    hide *;
    AttrPlain(st, join, true);
    var h, r, t := st[0].head, ImpliedRange(FramesOf(st)), st[0].tail;
    FormatPiecesNil(st, join);
    var p3: seq<Piece> := [Dir("", "t")];
    var p2: seq<Piece> := [Dir("", "r")] + p3;
    assert p3 == [Dir("", "t")] + [];
    FormatStrDir(st, "t", [], join, t, "");
    assert t + "" == t;
    FormatStrDir(st, "r", p3, join, r, t);
    assert p1 == [Dir("", "h")] + p2;
    FormatStrDir(st, "h", p2, join, h, r + t);
    assert h + (r + t) == h + r + t;
  }

  lemma {:induction false} WordRunToEnd(s: string, i: nat)
    requires i <= |s| && AllWord(s[i..])
    ensures WordEnd(s, i) == |s|
    decreases |s| - i
  {
    if i < |s| {
      assert s[i..][0] == s[i];
      assert s[i + 1..] == s[i..][1..];
      WordRunToEnd(s, i + 1);
    }
  }

  /** A name that is not in the table is a FormatError naming it, with the
      whole run of word characters after the '%' as the name ("%hx" is not
      "%h" followed by "x"). */
  lemma BadDirective(st: seq<ItemState>, name: string, join: string)
    requires |name| >= 1 && AllWord(name) && !IsDigit(name[0]) && CharType(name).None?
    ensures Format(st, "%" + name, join) == Err(FormatError("Bad directive: %" + name))
    ensures FormatAsWritten(st, "%" + name, join) == Err(FormatError("Bad directive: %" + name))
  {
    var s := "%" + name;
    assert s[1] == name[0] && s[0] == '%';
    assert s[1..] == name;
    assert DigitEnd(s, 1) == 1;
    WordRunToEnd(s, 1);
    assert s[1..|s|] == name && s[1..1] == "";
    assert MatchAt(s, 0) == Some(("", name, |s|));
    assert ScanFrom(s, |s|, "") == [];
    assert Scan(s) == [] + [Dir("", name)] + [];
  }

  /** "%0<n>s" renders the start frame zero-filled to n places. */
  lemma FormatStartZeroFilled(st: seq<ItemState>, join: string, n: nat)
    requires n >= 1
    ensures Format(st, "%0" + Str(n) + "s", join) == Ok(Justify(Str(Start(FramesOf(st))), n, '0'))
    ensures FormatAsWritten(st, "%0" + Str(n) + "s", join) == Ok(Justify(Str(Start(FramesOf(st))), n, '0'))
  {
    hide Format, FormatAsWritten, FramesOf, Start, ParseSpec, Justify;
    WidthSpecs(n);
    var pad := "0" + Str(n);
    assert "%0" + Str(n) + "s" == "%" + pad + "s";
    hide Str;
    StrWidth(st, "%" + pad + "s", pad, join);
    StrWidthAsWritten(st, "%" + pad + "s", pad, join);
  }

  /** "%<n>s" renders the start frame space-filled to n places. */
  lemma FormatStartSpaceFilled(st: seq<ItemState>, join: string, n: nat)
    requires n >= 1
    ensures Format(st, "%" + Str(n) + "s", join) == Ok(Justify(Str(Start(FramesOf(st))), n, ' '))
    ensures FormatAsWritten(st, "%" + Str(n) + "s", join) == Ok(Justify(Str(Start(FramesOf(st))), n, ' '))
  {
    hide Format, FormatAsWritten, FramesOf, Start, ParseSpec, Justify;
    WidthSpecs(n);
    hide Str;
    StrWidth(st, "%" + Str(n) + "s", Str(n), join);
    StrWidthAsWritten(st, "%" + Str(n) + "s", Str(n), join);
  }

  /** The pad digits "0<n>" and "<n>" ask for width n, with and without the
      zero flag. */
  lemma WidthSpecs(n: nat)
    requires n >= 1
    ensures AllDigits("0" + Str(n)) && ParseSpec("0" + Str(n)) == Spec(true, n)
    ensures ParseSpec(Str(n)) == Spec(false, n)
  {
    StrShape(n);
    Text.StrValue(n);
    var s := Str(n);
    assert s[0] != '0' by {
      if |s| == 1 {
        assert s == [DigitChar(n)];
      }
    }
    var z := "0" + s;
    assert z[1] == s[0];
    assert LeadingZeros(z, 0) == LeadingZeros(z, 1) == 1;
    assert z[1..] == s;
    assert LeadingZeros(s, 0) == 0 && s[0..] == s;
  }

  lemma StrWidth(st: seq<ItemState>, s: string, pad: string, join: string)
    requires s == "%" + pad + "s" && |pad| >= 1 && AllDigits(pad)
    ensures Format(st, s, join) == Ok(FormatInt(Start(FramesOf(st)), ParseSpec(pad)))
  {
    ScanWidth(s, pad);
    var ps: seq<Piece> := [Dir(pad, "s")];
    assert ps[1..] == [];
    assert FormatPieces(st, [], join) == Ok("");
    assert Attr(st, 's', join, true) == Ok(IntValue(Start(FramesOf(st))));
    FormatDirStep(st, ps, join, 'i', IntValue(Start(FramesOf(st))), "");
    assert !PercentInText(ps);
    assert FormatInt(Start(FramesOf(st)), ParseSpec(pad)) + "" == FormatInt(Start(FramesOf(st)), ParseSpec(pad));
    FormatOk(st, s, ps, join, FormatInt(Start(FramesOf(st)), ParseSpec(pad)) + "");
  }

  /** As written, "%<pad>s" is rewritten to "%(s)<pad>i" and `%` renders
      start() with that width: the same text as the piece-wise reading. */
  lemma StrWidthAsWritten(st: seq<ItemState>, s: string, pad: string, join: string)
    requires s == "%" + pad + "s" && |pad| >= 1 && AllDigits(pad)
    ensures FormatAsWritten(st, s, join) == Ok(FormatInt(Start(FramesOf(st)), ParseSpec(pad)))
  {
    RewriteWidth(st, s, pad, join);
    var atts: Attrs := map["s" := IntValue(Start(FramesOf(st)))];
    hide Rewrite, Scan, Percent, FormatInt, ParseSpec, FramesOf, Start;
    PercentWidth("%(s)" + pad + "i", pad, atts);
  }

  /** The rewriting half of "%<pad>s": one directive, replaced by
      "%(s)<pad>i" with start() under the key "s". */
  lemma RewriteWidth(st: seq<ItemState>, s: string, pad: string, join: string)
    requires s == "%" + pad + "s" && |pad| >= 1 && AllDigits(pad)
    ensures Rewrite(st, s, Scan(s), map[], join) == Ok(("%(s)" + pad + "i", map["s" := IntValue(Start(FramesOf(st)))]))
  {
    hide Attr, Scan, FramesOf, Start, Rewrite, ReplaceAll, Percent, FormatInt, ParseSpec;
    ScanWidth(s, pad);
    var ds := [Dir(pad, "s")];
    var v := IntValue(Start(FramesOf(st)));
    AttrPlainStart(st, join);
    var pat, rep := pad + "s", "(s)" + pad + "i";
    assert ds[0].pad + ds[0].name == pat && "(" + ds[0].name + ")" + ds[0].pad + ['i'] == rep;
    assert CharType(ds[0].name) == Some('i');
    hide CharType;
    RewriteLast(st, s, ds, map[], join, 'i', v, pat, rep);
    assert IsDigit(pat[0]);
    ReplaceAfterPercent(pat, rep);
    assert s == "%" + pat;
    assert map[][ds[0].name := v] == map["s" := v];
    assert "%" + rep == "%(s)" + pad + "i";
  }

  lemma AttrPlainStart(st: seq<ItemState>, join: string)
    ensures Attr(st, 's', join, false) == Ok(IntValue(Start(FramesOf(st))))
  {
    hide FramesOf, MissingOf, Padding, PaddingAsWritten, FrameRangeSpec, MissingRepr, IntListRepr, ImpliedRange, Dirname, Start;
  }

  /** Replacing the text after a leading '%' leaves the '%' in front. */
  lemma ReplaceAfterPercent(p: string, rep: string)
    requires |p| >= 1 && p[0] != '%'
    ensures ReplaceAll("%" + p, p, rep) == "%" + rep
  {
    var s := "%" + p;
    assert s[..|p|][0] == '%';
    assert s[1..] == p;
    ReplaceFront(p, p, rep);
    assert p[|p|..] == "";
  }

  /** The one conversion of "%(s)<pad>i": the whole text, with the value of
      "s" rendered at that width. */
  lemma ConversionWidth(f: string, pad: string, atts: Attrs)
    requires f == "%(s)" + pad + "i" && |pad| >= 1 && AllDigits(pad)
    requires "s" in atts && atts["s"].IntValue?
    ensures Conversion(f, 0, atts) == Ok(Converted(FormatInt(atts["s"].n, ParseSpec(pad)), |f|))
  {
    hide FormatInt, ParseSpec, FormatStr, ValueText, CharType, OtherConversion;
    var n := |f| - 1;
    assert f[n] == 'i' && f[4..n] == pad;
    assert KeyClose(f, 3, 1) == Some(3);
    assert KeyClose(f, 2, 1) == Some(3);
    assert f[2..3] == "s";
    var z := ZeroEnd(f, 4);
    assert f[n] != '0';
    assert z <= n;
    assert z < n ==> IsDigit(f[z]) by {
      if z < n {
        assert f[4..n][z - 4] == f[z];
      }
    }
    assert AllDigits(f[z..n]) by {
      forall q | 0 <= q < n - z
        ensures IsDigit(f[z..n][q])
      {
        assert f[z..n][q] == f[4..n][z - 4 + q];
      }
    }
    DigitRun(f, z, n);
    assert f[z] != '-' && f[z] != '+' && f[z] != ' ' && f[z] != '#' && f[z] != '*';
    assert f[n] != '.' && f[n] != 'h' && f[n] != 'l' && f[n] != 'L';
    hide KeyClose, ZeroEnd, DigitEnd;
  }

  /** "%(s)<pad>i" % atts renders the int value of "s" with that width. */
  lemma PercentWidth(f: string, pad: string, atts: Attrs)
    requires f == "%(s)" + pad + "i" && |pad| >= 1 && AllDigits(pad)
    requires "s" in atts && atts["s"].IntValue?
    ensures Percent(f, 0, atts) == Ok(FormatInt(atts["s"].n, ParseSpec(pad)))
  {
    var c := Converted(FormatInt(atts["s"].n, ParseSpec(pad)), |f|);
    ConversionWidth(f, pad, atts);
    hide Conversion, FormatInt, ParseSpec;
    PercentAtEnd(f, atts);
    PercentStep(f, 0, atts, c, "");
    assert c.text + "" == c.text;
  }

  lemma ScanWidth(s: string, pad: string)
    requires s == "%" + pad + "s" && |pad| >= 1 && AllDigits(pad)
    ensures Scan(s) == [Dir(pad, "s")]
  {
    var n := |s| - 1;
    assert s[n] == 's' && s[1..n] == pad;
    DigitRun(s, 1, n);
    assert WordEnd(s, n + 1) == n + 1;
    assert WordEnd(s, n) == n + 1;
    assert s[n..n + 1] == "s";
    assert MatchAt(s, 0) == Some((pad, "s", n + 1));
    assert ScanFrom(s, n + 1, "") == [];
    assert Pending("") == [];
  }

  lemma {:induction false} DigitRun(s: string, i: nat, n: nat)
    requires i <= n <= |s| && AllDigits(s[i..n]) && (n == |s| || !IsDigit(s[n]))
    ensures DigitEnd(s, i) == n
    decreases n - i
  {
    if i < n {
      assert s[i..n][0] == s[i];
      assert s[i + 1..n] == s[i..n][1..];
      DigitRun(s, i + 1, n);
    }
  }

  // ---------------------------------------------------------------------
  // format() as written: str.replace on the whole string, then `%`.

  /** s contains pat at k. */
  predicate OccursAt(s: string, pat: string, k: nat) {
    k + |pat| <= |s| && s[k..k + |pat|] == pat
  }

  /** str.replace(pat, rep): every occurrence of pat, left to right and not
      overlapping, replaced by rep. */
  function ReplaceAll(s: string, pat: string, rep: string): (r: string)
    requires |pat| >= 1
    decreases |s|
  {
    if |s| < |pat| then s
    else if s[..|pat|] == pat then rep + ReplaceAll(s[|pat|..], pat, rep)
    else [s[0]] + ReplaceAll(s[1..], pat, rep)
  }

  /** Without an occurrence nothing is replaced. */
  lemma {:induction false} ReplaceAbsent(s: string, pat: string, rep: string)
    requires |pat| >= 1 && forall k :: 0 <= k <= |s| - |pat| ==> !OccursAt(s, pat, k)
    ensures ReplaceAll(s, pat, rep) == s
    decreases |s|
  {
    if |s| >= |pat| {
      assert !OccursAt(s, pat, 0);
      assert s[0..|pat|] == s[..|pat|];
      forall k | 0 <= k <= |s[1..]| - |pat|
        ensures !OccursAt(s[1..], pat, k)
      {
        assert !OccursAt(s, pat, k + 1);
        assert s[1..][k..k + |pat|] == s[k + 1..k + 1 + |pat|];
      }
      ReplaceAbsent(s[1..], pat, rep);
      assert s == [s[0]] + s[1..];
    }
  }

  /** An occurrence at the front is replaced. */
  lemma ReplaceFront(s: string, pat: string, rep: string)
    requires |pat| >= 1 && OccursAt(s, pat, 0)
    ensures ReplaceAll(s, pat, rep) == rep + ReplaceAll(s[|pat|..], pat, rep)
  {
    assert s[..|pat|] == s[0..|pat|];
  }

  lemma WellFormedTail(ds: seq<Piece>)
    requires ds != [] && WellFormed(ds)
    ensures WellFormed(ds[1..])
  {
    forall k | 0 <= k < |ds[1..]| && ds[1..][k].Dir?
      ensures AllDigits(ds[1..][k].pad) && |ds[1..][k].name| >= 1 && AllWord(ds[1..][k].name)
    {
      assert ds[1..][k] == ds[k + 1];
    }
  }

  /** The attribute values evaluated so far, by directive name. */
  type Attrs = map<string, Value>

  /** The loop of format(): for each directive of the original string, look
      its type up, rewrite every "<pad><name>" of the current string to
      "(<name>)<pad><type>", and evaluate the attribute the first time its
      name comes up. */
  function Rewrite(st: seq<ItemState>, fmt: string, ds: seq<Piece>, atts: Attrs, join: string): (r: Result<(string, Attrs)>)
    requires WellFormed(ds)
    ensures r.Ok? ==> atts.Keys <= r.value.1.Keys
    decreases |ds|
  {
    if ds == [] then Ok((fmt, atts))
    else
      WellFormedTail(ds);
      match ds[0]
      case Lit(_) => Rewrite(st, fmt, ds[1..], atts, join)
      case Dir(pad, name) =>
        match CharType(name)
        case None => Err(FormatError("Bad directive: %" + name))
        case Some(t) =>
          var fmt' := ReplaceAll(fmt, pad + name, "(" + name + ")" + pad + [t]);
          if name in atts then Rewrite(st, fmt', ds[1..], atts, join)
          else
            var v :- Attr(st, name[0], join, false);
            Rewrite(st, fmt', ds[1..], atts[name := v], join)
  }

  /** The ')' that closes a mapping key opened before i, with depth the
      number of '(' still open ("%((a)b)s" has the key "(a)b"). */
  function KeyClose(s: string, i: nat, depth: nat): (r: Option<nat>)
    requires i <= |s| && depth >= 1
    ensures r.Some? ==> i <= r.value < |s| && s[r.value] == ')'
    decreases |s| - i
  {
    if i == |s| then None
    else if s[i] == ')' then (if depth == 1 then Some(i) else KeyClose(s, i + 1, depth - 1))
    else if s[i] == '(' then KeyClose(s, i + 1, depth + 1)
    else KeyClose(s, i + 1, depth)
  }

  /** The end of the run of '0' flags that starts at i. */
  function ZeroEnd(s: string, i: nat): (j: nat)
    requires i <= |s|
    ensures i <= j <= |s| && (j == |s| || s[j] != '0')
    ensures forall k :: i <= k < j ==> s[k] == '0'
    decreases |s| - i
  {
    if i < |s| && s[i] == '0' then ZeroEnd(s, i + 1) else i
  }

  lemma ZerosThenDigits(s: string, a: nat, z: nat, d: nat)
    requires a <= z <= d <= |s|
    requires forall k :: a <= k < z ==> s[k] == '0'
    requires AllDigits(s[z..d])
    ensures AllDigits(s[a..d])
  {
    forall q | 0 <= q < d - a
      ensures IsDigit(s[a..d][q])
    {
      assert s[a..d][q] == s[a + q];
      if a + q >= z {
        assert s[z..d][a + q - z] == s[a + q];
      }
    }
  }

  /** The next '%' at or after i, or the end. */
  function NextPercent(s: string, i: nat): (j: nat)
    requires i <= |s|
    ensures i <= j <= |s| && (j == |s| || s[j] == '%')
    ensures forall k :: i <= k < j ==> s[k] != '%'
    decreases |s| - i
  {
    if i == |s| || s[i] == '%' then i else NextPercent(s, i + 1)
  }

  /** The conversion letters Python knows that the model does not render. */
  predicate OtherConversion(c: char) {
    c == 'o' || c == 'x' || c == 'X' || c == 'e' || c == 'E' || c == 'f' || c == 'F'
    || c == 'g' || c == 'G' || c == 'c' || c == 'r' || c == 'a' || c == '%'
  }

  /** The text of one conversion and the index after it. */
  datatype Converted = Converted(text: string, next: nat)

  /** One conversion of Python's `fmt % mapping` that starts with the '%' at
      j: its text and the index after it.  "%%" is a '%'; a conversion takes
      its value by "(key)" from the mapping (KeyError when absent), then '0'
      flags and a width, an ignored length modifier h, l or L, and the
      conversion letter: s renders str(value), i, d and u an int (TypeError
      for a str); a missing letter or an unknown one is a ValueError. */
  function Conversion(s: string, j: nat, atts: Attrs): (r: Result<Converted>)
    requires j < |s| && s[j] == '%'
    ensures r.Ok? ==> j < r.value.next <= |s|
  {
    var k := j + 1;
    if k == |s| then Err(ValueError)
    else if s[k] == '%' then Ok(Converted("%", k + 1))
    else if s[k] != '(' then Err(Unsupported("a conversion without a mapping key"))
    else
      match KeyClose(s, k + 1, 1)
      case None => Err(ValueError)
      case Some(c) =>
        var key := s[k + 1..c];
        if key !in atts then
          (if CharType(key).Some? then Err(Unsupported("an attribute that was not evaluated")) else Err(KeyError))
        else
          var v := atts[key];
          var z := ZeroEnd(s, c + 1);
          if z < |s| && (s[z] == '-' || s[z] == '+' || s[z] == ' ' || s[z] == '#' || s[z] == '*') then
            Err(Unsupported("a flag other than 0, or a width from the arguments"))
          else
            var d := DigitEnd(s, z);
            ZerosThenDigits(s, c + 1, z, d);
            var sp := ParseSpec(s[c + 1..d]);
            if d < |s| && s[d] == '.' then Err(Unsupported("a precision"))
            else
              var m := if d < |s| && (s[d] == 'h' || s[d] == 'l' || s[d] == 'L') then d + 1 else d;
              if m == |s| then Err(ValueError)
              else if s[m] == 's' then Ok(Converted(FormatStr(ValueText(v), sp), m + 1))
              else if s[m] == 'i' || s[m] == 'd' || s[m] == 'u' then
                (if v.IntValue? then Ok(Converted(FormatInt(v.n, sp), m + 1)) else Err(TypeError))
              else if OtherConversion(s[m]) then Err(Unsupported("a conversion other than s, i, d and u"))
              else Err(ValueError)
  }

  /** `s[i..] % atts`: literal text is copied up to the next '%', then the
      conversion there is rendered; the first failing conversion is the
      error. */
  function Percent(s: string, i: nat, atts: Attrs): (r: Result<string>)
    requires i <= |s|
    decreases |s| - i
  {
    var j := NextPercent(s, i);
    if j == |s| then Ok(s[i..])
    else
      var c :- Conversion(s, j, atts);
      var rest :- Percent(s, c.next, atts);
      Ok(s[i..j] + c.text + rest)
  }

  /** One member, with frame 5 and pad 10: as written %m reports that frame as
      missing and %p gives the space-padded "%10d"; corrected, nothing is
      missing and %p is "%010d". */
  lemma AttrAsWrittenOneFrame(x: ItemState, join: string)
    requires x.frame == Some(5) && x.pad == Some(10)
    ensures Attr([x], 'm', join, false) == Ok(StrValue("[5]"))
    ensures Attr([x], 'm', join, true) == Ok(StrValue("[]"))
    ensures Attr([x], 'p', join, false) == Ok(StrValue("%10d"))
    ensures Attr([x], 'p', join, true) == Ok(StrValue("%010d"))
  {
    var fs := FramesOf([x]);
    assert FrameOpts([x]) == [Some(5)];
    assert [Some(5)][1..] == [];
    assert SetFrames([Some(5)]) == [5];
    assert multiset(fs) == multiset{5};
    assert |fs| == 1 && fs[0] in multiset(fs);
    assert fs == [5];
    assert PadsOf([x]) == [Some(10)];
    PadSpecAsWrittenAtTen();
    assert Str(5) == "5";
    assert StrsOf([5]) == ["5"];
    assert Join(["5"], ", ") == "5";
    assert MissingAsWritten([5]) == Frames([5]);
    assert IntListRepr([5]) == "[5]";
    assert Missing([5]) == Frames([]);
    assert StrsOf([]) == [];
    assert IntListRepr([]) == "[]";
  }

  /** format() as written. */
  function FormatAsWritten(st: seq<ItemState>, fmt: string, join: string): Result<string> {
    var (f, atts) :- Rewrite(st, fmt, Scan(fmt), map[], join);
    Percent(f, 0, atts)
  }

  /** Sequence.format(fmt) as the loop over the directives it is written as. */
  method FormatSequence(sq: Sequence, fmt: string, join: string) returns (r: Result<string>)
    ensures r == FormatAsWritten(sq.members, fmt, join)
  {
    hide FramesOf, MissingOf, Padding, PaddingAsWritten, FrameRangeSpec, MissingRepr, IntListRepr, ImpliedRange, Dirname;
    var st := sq.members;
    var ds := Scan(fmt);
    var f := fmt;
    var atts: Attrs := map[];
    var i := 0;
    while i < |ds|
      invariant 0 <= i <= |ds| && WellFormed(ds[i..])
      invariant Rewrite(st, fmt, ds, map[], join) == Rewrite(st, f, ds[i..], atts, join)
    {
      WellFormedTail(ds[i..]);
      assert ds[i..][1..] == ds[i + 1..];
      match ds[i] {
        case Lit(_) =>
        case Dir(pad, name) =>
          match CharType(name) {
            case None =>
              return Err(FormatError("Bad directive: %" + name));
            case Some(t) =>
              f := ReplaceAll(f, pad + name, "(" + name + ")" + pad + [t]);
              if name !in atts {
                var v := Attr(st, name[0], join, false);
                if v.Err? {
                  return Err(v.error);
                }
                atts := atts[name := v.value];
              }
          }
      }
      i := i + 1;
    }
    r := Percent(f, 0, atts);
  }

  /** A directive whose attribute is evaluated for the first time. */
  lemma RewriteFirst(st: seq<ItemState>, fmt: string, ds: seq<Piece>, atts: Attrs, join: string, t: char, v: Value)
    requires |ds| >= 1 && ds[0].Dir? && WellFormed(ds)
    requires CharType(ds[0].name) == Some(t) && ds[0].name !in atts && Attr(st, ds[0].name[0], join, false) == Ok(v)
    ensures WellFormed(ds[1..])
    ensures Rewrite(st, fmt, ds, atts, join)
         == Rewrite(st, ReplaceAll(fmt, ds[0].pad + ds[0].name, "(" + ds[0].name + ")" + ds[0].pad + [t]), ds[1..], atts[ds[0].name := v], join)
  {
    WellFormedTail(ds);
  }

  /** A directive whose attribute was evaluated before. */
  lemma RewriteAgain(st: seq<ItemState>, fmt: string, ds: seq<Piece>, atts: Attrs, join: string, t: char)
    requires |ds| >= 1 && ds[0].Dir? && WellFormed(ds)
    requires CharType(ds[0].name) == Some(t) && ds[0].name in atts
    ensures WellFormed(ds[1..])
    ensures Rewrite(st, fmt, ds, atts, join)
         == Rewrite(st, ReplaceAll(fmt, ds[0].pad + ds[0].name, "(" + ds[0].name + ")" + ds[0].pad + [t]), ds[1..], atts, join)
  {
    WellFormedTail(ds);
  }

  /** A literal piece leaves the string alone. */
  lemma RewriteLit(st: seq<ItemState>, fmt: string, ds: seq<Piece>, atts: Attrs, join: string)
    requires |ds| >= 1 && ds[0].Lit? && WellFormed(ds)
    ensures WellFormed(ds[1..])
    ensures Rewrite(st, fmt, ds, atts, join) == Rewrite(st, fmt, ds[1..], atts, join)
  {
    WellFormedTail(ds);
  }

  /** "%(key)" naming nothing evaluated and no directive either. */
  lemma PercentKeyError(s: string, c: nat, atts: Attrs)
    requires 2 <= c < |s| && s[0] == '%' && s[1] == '('
    requires KeyClose(s, 2, 1) == Some(c) && s[2..c] !in atts && CharType(s[2..c]).None?
    ensures Percent(s, 0, atts) == Err(KeyError)
  {
    assert NextPercent(s, 0) == 0;
  }

  /** "%(key)" then a character that is no flag, width or conversion. */
  lemma PercentBadConversion(s: string, c: nat, atts: Attrs)
    requires 2 <= c && c + 1 < |s| && s[0] == '%' && s[1] == '('
    requires KeyClose(s, 2, 1) == Some(c) && s[2..c] in atts
    requires !IsDigit(s[c + 1]) && !OtherConversion(s[c + 1])
    requires s[c + 1] !in "-+ #*.hlLsidu"
    ensures Percent(s, 0, atts) == Err(ValueError)
  {
    hide KeyClose, ParseSpec, FormatStr, FormatInt, ValueText, CharType;
    assert NextPercent(s, 0) == 0;
    assert ZeroEnd(s, c + 1) == c + 1;
    assert DigitEnd(s, c + 1) == c + 1;
  }

  /** Each directive name repeated: the second rewrite finds the name inside
      the first one's "(h)s" as well, and the key becomes "(h)s". */
  lemma FormatRepeatedAsWritten(st: seq<ItemState>, fmt: string, join: string)
    requires st != [] && fmt == "%h%h"
    ensures FormatAsWritten(st, fmt, join) == Err(KeyError)
  {
    hide Rewrite, Percent, Scan, ReplaceAll, Attr;
    ScanRepeated(fmt);
    RewriteRepeated(st, fmt, Scan(fmt), join);
    KeyOfRepeated("%((h)s)s%((h)s)s", map["h" := StrValue(st[0].head)]);
  }

  lemma RewriteRepeated(st: seq<ItemState>, fmt: string, ds: seq<Piece>, join: string)
    requires st != [] && fmt == "%h%h" && ds == [Dir("", "h"), Dir("", "h")]
    ensures WellFormed(ds)
    ensures Rewrite(st, fmt, ds, map[], join) == Ok(("%((h)s)s%((h)s)s", map["h" := StrValue(st[0].head)]))
  {
    AttrPlain(st, join, false);
    RewriteNil(st, "%((h)s)s%((h)s)s", map["h" := StrValue(st[0].head)], join);
    hide Rewrite, Percent, Scan, ReplaceAll, Attr, ImpliedRange, FramesOf;
    var atts: Attrs := map["h" := StrValue(st[0].head)];
    var pat, rep := ds[0].pad + ds[0].name, "(" + ds[0].name + ")" + ds[0].pad + ['s'];
    var f1, f2 := "%(h)s%(h)s", "%((h)s)s%((h)s)s";
    RewriteFirst(st, fmt, ds, map[], join, 's', StrValue(st[0].head));
    ReplaceRepeated(fmt, f1, f2, pat, rep);
    RewriteAgain(st, f1, ds[1..], atts, join, 's');
    assert ds[1..][1..] == [];
  }

  lemma RewriteNil(st: seq<ItemState>, fmt: string, atts: Attrs, join: string)
    ensures WellFormed([]) && Rewrite(st, fmt, [], atts, join) == Ok((fmt, atts))
  {
  }

  lemma ScanRepeated(fmt: string)
    requires fmt == "%h%h"
    ensures Scan(fmt) == [Dir("", "h"), Dir("", "h")]
  {
    ScanLetter(fmt, 2, "");
    ScanLetter(fmt, 0, "");
    assert ScanFrom(fmt, 4, "") == [] && Pending("") == [];
  }

  lemma KeyOfRepeated(f: string, atts: Attrs)
    requires f == "%((h)s)s%((h)s)s" && atts.Keys == {"h"}
    ensures Percent(f, 0, atts) == Err(KeyError)
  {
    assert KeyClose(f, 6, 1) == Some(6);
    assert KeyClose(f, 5, 1) == Some(6);
    assert KeyClose(f, 4, 2) == Some(6);
    assert KeyClose(f, 3, 2) == Some(6);
    assert KeyClose(f, 2, 1) == Some(6);
    assert f[2..6] == "(h)s";
    PercentKeyError(f, 6, atts);
  }

  lemma ScanHeadStart(fmt: string)
    requires fmt == "%h %s"
    ensures Scan(fmt) == [Dir("", "h"), Lit(" "), Dir("", "s")]
  {
    ScanLetter(fmt, 3, " ");
    ScanChar(fmt, 2, "");
    assert "" + [fmt[2]] == " ";
    ScanLetter(fmt, 0, "");
    assert ScanFrom(fmt, 5, "") == [] && Pending("") == [] && Pending(" ") == [Lit(" ")];
    assert ScanFrom(fmt, 2, "") == [Lit(" "), Dir("", "s")];
  }

  /** A type letter caught by a later rewrite: "%h %s" turns into
      "%(h)(s)i %(s)i", whose first conversion has '(' for its letter. */
  lemma FormatHeadStartAsWritten(st: seq<ItemState>, fmt: string, join: string)
    requires st != [] && fmt == "%h %s"
    ensures FormatAsWritten(st, fmt, join) == Err(ValueError)
  {
    hide Rewrite, Percent, Scan, ReplaceAll, Attr;
    ScanHeadStart(fmt);
    RewriteHeadStart(st, fmt, Scan(fmt), join);
    BadLetterHeadStart("%(h)(s)i %(s)i", map["h" := StrValue(st[0].head), "s" := IntValue(Start(FramesOf(st)))]);
  }

  lemma RewriteHeadStart(st: seq<ItemState>, fmt: string, ds: seq<Piece>, join: string)
    requires st != [] && fmt == "%h %s" && ds == [Dir("", "h"), Lit(" "), Dir("", "s")]
    ensures WellFormed(ds)
    ensures Rewrite(st, fmt, ds, map[], join)
         == Ok(("%(h)(s)i %(s)i", map["h" := StrValue(st[0].head), "s" := IntValue(Start(FramesOf(st)))]))
  {
    AttrPlain(st, join, false);
    var a1: Attrs := map["h" := StrValue(st[0].head)];
    var a2: Attrs := a1["s" := IntValue(Start(FramesOf(st)))];
    var f1, f2 := "%(h)s %s", "%(h)(s)i %(s)i";
    RewriteNil(st, f2, a2, join);
    hide Rewrite, Percent, Scan, ReplaceAll, Attr, ImpliedRange, FramesOf, Start;
    RewriteFirst(st, fmt, ds, map[], join, 's', StrValue(st[0].head));
    ReplaceHeadStart(fmt, f1, f2, ds[0].pad + ds[0].name, "(" + ds[0].name + ")" + ds[0].pad + ['s'],
      ds[2].pad + ds[2].name, "(" + ds[2].name + ")" + ds[2].pad + ['i']);
    RewriteLit(st, f1, ds[1..], a1, join);
    RewriteFirst(st, f1, ds[1..][1..], a1, join, 'i', IntValue(Start(FramesOf(st))));
    assert ds[1..][1..][1..] == [];
    assert map["h" := StrValue(st[0].head), "s" := IntValue(Start(FramesOf(st)))] == a2;
  }

  lemma BadLetterHeadStart(f: string, atts: Attrs)
    requires f == "%(h)(s)i %(s)i" && "h" in atts
    ensures Percent(f, 0, atts) == Err(ValueError)
  {
    assert KeyClose(f, 2, 1) == Some(3);
    assert f[2..3] == "h";
    PercentBadConversion(f, 3, atts);
  }

  /** Replacing a single character, one character at a time. */
  lemma ReplaceCharCons(x: char, b: string, c: char, rep: string)
    ensures ReplaceAll([x] + b, [c], rep) == (if x == c then rep else [x]) + ReplaceAll(b, [c], rep)
  {
    var s := [x] + b;
    assert s[..1] == [x] && s[1..] == b && s[0] == x;
  }

  lemma {:induction false} ReplaceCharConcat(a: string, b: string, c: char, rep: string)
    ensures ReplaceAll(a + b, [c], rep) == ReplaceAll(a, [c], rep) + ReplaceAll(b, [c], rep)
    decreases |a|
  {
    if a == [] {
      assert a + b == b;
    } else {
      assert a + b == [a[0]] + (a[1..] + b);
      assert a == [a[0]] + a[1..];
      ReplaceCharCons(a[0], a[1..] + b, c, rep);
      ReplaceCharCons(a[0], a[1..], c, rep);
      ReplaceCharConcat(a[1..], b, c, rep);
    }
  }

  lemma {:induction false} ReplaceCharAbsent(a: string, c: char, rep: string)
    requires c !in a
    ensures ReplaceAll(a, [c], rep) == a
    decreases |a|
  {
    if a != [] {
      assert a == [a[0]] + a[1..];
      ReplaceCharCons(a[0], a[1..], c, rep);
      ReplaceCharAbsent(a[1..], c, rep);
    }
  }

  lemma ReplaceCharOne(c: char, rep: string)
    ensures ReplaceAll([c], [c], rep) == rep
  {
    ReplaceCharCons(c, "", c, rep);
    assert [c] + "" == [c];
  }

  /** One occurrence of the character, between text without it. */
  lemma ReplaceOnce(x: string, z: string, c: char, rep: string)
    requires c !in x && c !in z
    ensures ReplaceAll(x + [c] + z, [c], rep) == x + rep + z
  {
    ReplaceCharOne(c, rep);
    ReplaceCharAbsent(x, c, rep);
    ReplaceCharAbsent(z, c, rep);
    ReplaceCharConcat(x, [c], c, rep);
    ReplaceCharConcat(x + [c], z, c, rep);
  }

  /** Two occurrences of the character, between text without it. */
  lemma ReplaceTwice(x: string, y: string, z: string, c: char, rep: string)
    requires c !in x && c !in y && c !in z
    ensures ReplaceAll(x + [c] + y + [c] + z, [c], rep) == x + rep + y + rep + z
  {
    ReplaceCharOne(c, rep);
    ReplaceCharAbsent(x, c, rep);
    ReplaceCharAbsent(y, c, rep);
    ReplaceCharAbsent(z, c, rep);
    var a1 := x + [c];
    ReplaceCharConcat(x, [c], c, rep);
    var a2 := a1 + y;
    ReplaceCharConcat(a1, y, c, rep);
    var a3 := a2 + [c];
    ReplaceCharConcat(a2, [c], c, rep);
    ReplaceCharConcat(a3, z, c, rep);
  }

  lemma ReplaceRepeated(fmt: string, f1: string, f2: string, pat: string, rep: string)
    requires fmt == "%h%h" && f1 == "%(h)s%(h)s" && f2 == "%((h)s)s%((h)s)s" && pat == "h" && rep == "(h)s"
    ensures ReplaceAll(fmt, pat, rep) == f1 && ReplaceAll(f1, pat, rep) == f2
  {
    hide *;
    ReplaceTwice("%", "%", "", 'h', rep);
    assert "%" + ['h'] + "%" + ['h'] + "" == fmt;
    ReplaceTwice("%(", ")s%(", ")s", 'h', rep);
    assert "%(" + ['h'] + ")s%(" + ['h'] + ")s" == f1;
  }

  lemma ReplaceHeadStart(fmt: string, f1: string, f2: string, p1: string, r1: string, p2: string, r2: string)
    requires fmt == "%h %s" && f1 == "%(h)s %s" && f2 == "%(h)(s)i %(s)i"
    requires p1 == "h" && r1 == "(h)s" && p2 == "s" && r2 == "(s)i"
    ensures ReplaceAll(fmt, p1, r1) == f1 && ReplaceAll(f1, p2, r2) == f2
  {
    hide *;
    ReplaceOnce("%", " %s", 'h', r1);
    assert "%" + ['h'] + " %s" == fmt;
    ReplaceTwice("%(h)", " %", "", 's', r2);
    assert "%(h)" + ['s'] + " %" + ['s'] + "" == f1;
  }

  /** Rendered piece by piece, a repeated directive repeats its value. */
  lemma FormatRepeated(st: seq<ItemState>, fmt: string, join: string)
    requires st != [] && fmt == "%h%h"
    ensures Format(st, fmt, join) == Ok(st[0].head + st[0].head)
  {
    ScanRepeated(fmt);
    var p1 := Scan(fmt);
    FormatPiecesRepeated(st, p1, join);
    assert !PercentInText(p1);
    hide FormatPieces, Scan, PercentInText;
    FormatOk(st, fmt, p1, join, st[0].head + st[0].head);
  }

  lemma FormatPiecesRepeated(st: seq<ItemState>, p1: seq<Piece>, join: string)
    requires st != [] && p1 == [Dir("", "h"), Dir("", "h")]
    ensures WellFormed(p1)
    ensures FormatPieces(st, p1, join) == Ok(st[0].head + st[0].head)
  {
    hide *;
    AttrPlain(st, join, true);
    var h := st[0].head;
    FormatPiecesNil(st, join);
    var p2: seq<Piece> := [Dir("", "h")];
    assert p2 == [Dir("", "h")] + [];
    FormatStrDir(st, "h", [], join, h, "");
    assert h + "" == h;
    assert p1 == [Dir("", "h")] + p2;
    FormatStrDir(st, "h", p2, join, h, h);
  }

  /** Rendered piece by piece, "%h %s" is the head, a space and the start
      frame. */
  lemma FormatHeadStart(st: seq<ItemState>, fmt: string, join: string)
    requires st != [] && fmt == "%h %s"
    ensures Format(st, fmt, join) == Ok(st[0].head + " " + Str(Start(FramesOf(st))))
  {
    ScanHeadStart(fmt);
    var p1 := Scan(fmt);
    FormatPiecesHeadStart(st, p1, join);
    assert !PercentInText(p1) by {
      assert p1[1].text == " ";
    }
    hide FormatPieces, Scan, PercentInText;
    FormatOk(st, fmt, p1, join, st[0].head + " " + Str(Start(FramesOf(st))));
  }

  lemma FormatPiecesHeadStart(st: seq<ItemState>, p1: seq<Piece>, join: string)
    requires st != [] && p1 == [Dir("", "h"), Lit(" "), Dir("", "s")]
    ensures WellFormed(p1)
    ensures FormatPieces(st, p1, join) == Ok(st[0].head + " " + Str(Start(FramesOf(st))))
  {
    hide *;
    AttrPlain(st, join, true);
    var h, n := st[0].head, Start(FramesOf(st));
    FormatPiecesNil(st, join);
    var p3: seq<Piece> := [Dir("", "s")];
    var p2: seq<Piece> := [Lit(" ")] + p3;
    assert p3 == [Dir("", "s")] + [];
    FormatIntDir(st, "s", [], join, n, "");
    assert Str(n) + "" == Str(n);
    FormatLit(st, " ", p3, join, Str(n));
    assert p1 == [Dir("", "h")] + p2;
    FormatStrDir(st, "h", p2, join, h, " " + Str(n));
    assert h + (" " + Str(n)) == h + " " + Str(n);
  }

  /** A plain int directive in front of a rendered rest. */
  lemma FormatIntDir(st: seq<ItemState>, name: string, rest: seq<Piece>, join: string, n: nat, x: string)
    requires name == "s" || name == "e" || name == "l"
    requires WellFormed(rest) && FormatPieces(st, rest, join) == Ok(x)
    requires Attr(st, name[0], join, true) == Ok(IntValue(n))
    ensures WellFormed([Dir("", name)] + rest)
    ensures FormatPieces(st, [Dir("", name)] + rest, join) == Ok(Str(n) + x)
  {
    hide Attr, FormatPieces, Str;
    var ps := [Dir("", name)] + rest;
    assert ps[1..] == rest;
    forall k | 0 <= k < |ps| && ps[k].Dir?
      ensures AllDigits(ps[k].pad) && |ps[k].name| >= 1 && AllWord(ps[k].name)
    {
      if k > 0 {
        assert ps[k] == rest[k - 1];
      }
    }
    assert Render(IntValue(n), "", 'i') == Str(n) by {
      assert LeadingZeros("", 0) == 0;
      assert ParseSpec("") == Spec(false, 0);
    }
    hide Render;
    FormatDirStep(st, ps, join, 'i', IntValue(n), x);
  }

  /** Literal text in front of a rendered rest. */
  lemma FormatLit(st: seq<ItemState>, text: string, rest: seq<Piece>, join: string, x: string)
    requires WellFormed(rest) && FormatPieces(st, rest, join) == Ok(x)
    ensures WellFormed([Lit(text)] + rest)
    ensures FormatPieces(st, [Lit(text)] + rest, join) == Ok(text + x)
  {
    var ps := [Lit(text)] + rest;
    assert ps[1..] == rest;
    forall k | 0 <= k < |ps| && ps[k].Dir?
      ensures AllDigits(ps[k].pad) && |ps[k].name| >= 1 && AllWord(ps[k].name)
    {
      assert ps[k] == rest[k - 1];
    }
    FormatPiecesCons(st, ps, join);
  }

  lemma ThenAssoc(x: Result<string>, y: Result<string>, z: Result<string>)
    ensures Then(x, Then(y, z)) == Then(Then(x, y), z)
  {
    if x.Ok? && y.Ok? && z.Ok? {
      assert x.value + (y.value + z.value) == x.value + y.value + z.value;
    }
  }

  /** Piece-wise rendering composes: the text of a + b is the text of a
      followed by the text of b, and the first error of a comes first. */
  lemma {:induction false} FormatPiecesConcat(st: seq<ItemState>, a: seq<Piece>, b: seq<Piece>, join: string)
    requires WellFormed(a) && WellFormed(b)
    ensures WellFormed(a + b)
    ensures FormatPieces(st, a + b, join) == Then(FormatPieces(st, a, join), FormatPieces(st, b, join))
    decreases |a|
  {
    WellFormedConcat(a, b);
    if a == [] {
      assert a + b == b;
      assert FormatPieces(st, a, join) == Ok("");
      if FormatPieces(st, b, join).Ok? {
        assert "" + FormatPieces(st, b, join).value == FormatPieces(st, b, join).value;
      }
    } else {
      WellFormedTail(a);
      assert (a + b)[0] == a[0] && (a + b)[1..] == a[1..] + b;
      FormatPiecesConcat(st, a[1..], b, join);
      ThenAssoc(FormatPiece(st, a[0], join), FormatPieces(st, a[1..], join), FormatPieces(st, b, join));
    }
  }

  lemma WellFormedConcat(a: seq<Piece>, b: seq<Piece>)
    requires WellFormed(a) && WellFormed(b)
    ensures WellFormed(a + b)
  {
    forall k | 0 <= k < |a + b| && (a + b)[k].Dir?
      ensures AllDigits((a + b)[k].pad) && |(a + b)[k].name| >= 1 && AllWord((a + b)[k].name)
    {
      if k >= |a| {
        assert (a + b)[k] == b[k - |a|];
      } else {
        assert (a + b)[k] == a[k];
      }
    }
  }

  /** "%(c)s" at j, for a one-letter key c that was evaluated. */
  lemma ConversionPlain(s: string, j: nat, atts: Attrs, key: char)
    requires j + 5 <= |s| && s[j] == '%' && s[j + 1] == '(' && s[j + 3] == ')' && s[j + 4] == 's'
    requires s[j + 2] == key && key != '(' && key != ')' && [key] in atts
    ensures Conversion(s, j, atts) == Ok(Converted(ValueText(atts[[key]]), j + 5))
  {
    assert KeyClose(s, j + 3, 1) == Some(j + 3);
    assert KeyClose(s, j + 2, 1) == Some(j + 3);
    assert s[j + 2..j + 3] == [s[j + 2]];
    assert ZeroEnd(s, j + 4) == j + 4;
    assert DigitEnd(s, j + 4) == j + 4;
    assert s[j + 4..j + 4] == "";
    assert LeadingZeros("", 0) == 0;
    assert ParseSpec("") == Spec(false, 0);
  }

  /** A conversion right at j, then the rest. */
  lemma PercentStep(s: string, j: nat, atts: Attrs, c: Converted, rest: string)
    requires j < |s| && s[j] == '%' && Conversion(s, j, atts) == Ok(c) && c.next <= |s|
    requires Percent(s, c.next, atts) == Ok(rest)
    ensures Percent(s, j, atts) == Ok(c.text + rest)
  {
    hide Conversion, NextPercent;
    assert NextPercent(s, j) == j;
    assert s[j..j] + c.text + rest == c.text + rest;
  }

  lemma ReplaceDefault(fmt: string, f1: string, f2: string, f3: string, p1: string, r1: string, p2: string, r2: string, p3: string, r3: string)
    requires fmt == "%h%r%t" && f1 == "%(h)s%r%t" && f2 == "%(h)s%(r)s%t" && f3 == "%(h)s%(r)s%(t)s"
    requires p1 == "h" && r1 == "(h)s" && p2 == "r" && r2 == "(r)s" && p3 == "t" && r3 == "(t)s"
    ensures ReplaceAll(fmt, p1, r1) == f1
    ensures ReplaceAll(f1, p2, r2) == f2
    ensures ReplaceAll(f2, p3, r3) == f3
  {
    ReplaceOnceIn(fmt, "%", "%r%t", 'h', p1, r1, f1);
    ReplaceOnceIn(f1, "%(h)s%", "%t", 'r', p2, r2, f2);
    ReplaceOnceIn(f2, "%(h)s%(r)s%", "", 't', p3, r3, f3);
  }

  lemma ReplaceOnceIn(s: string, x: string, z: string, c: char, pat: string, rep: string, out: string)
    requires s == x + [c] + z && pat == [c] && c !in x && c !in z && out == x + rep + z
    ensures ReplaceAll(s, pat, rep) == out
  {
    ReplaceOnce(x, z, c, rep);
  }

  lemma PercentAtEnd(s: string, atts: Attrs)
    ensures Percent(s, |s|, atts) == Ok("")
  {
    assert NextPercent(s, |s|) == |s| && s[|s|..] == "";
  }

  lemma ConversionAt(f: string, j: nat, atts: Attrs, key: char)
    requires f == "%(h)s%(r)s%(t)s"
    requires (j == 0 && key == 'h') || (j == 5 && key == 'r') || (j == 10 && key == 't')
    requires [key] in atts
    ensures Conversion(f, j, atts) == Ok(Converted(ValueText(atts[[key]]), j + 5))
  {
    ConversionPlain(f, j, atts, key);
  }

  lemma PercentDefault(f: string, atts: Attrs, h: string, r: string, t: string)
    requires f == "%(h)s%(r)s%(t)s"
    requires "h" in atts && "r" in atts && "t" in atts
    requires atts["h"] == StrValue(h) && atts["r"] == StrValue(r) && atts["t"] == StrValue(t)
    ensures Percent(f, 0, atts) == Ok(h + r + t)
  {
    hide Percent, Conversion, NextPercent, KeyClose, ZeroEnd, DigitEnd;
    ConversionAt(f, 0, atts, 'h');
    ConversionAt(f, 5, atts, 'r');
    ConversionAt(f, 10, atts, 't');
    PercentAtEnd(f, atts);
    assert |f| == 15;
    PercentStep(f, 10, atts, Converted(t, 15), "");
    assert t + "" == t;
    PercentStep(f, 5, atts, Converted(r, 10), t);
    PercentStep(f, 0, atts, Converted(h, 5), r + t);
    assert h + (r + t) == h + r + t;
  }

  /** The last directive of a string, evaluated for the first time. */
  lemma RewriteLast(st: seq<ItemState>, fmt: string, ds: seq<Piece>, atts: Attrs, join: string, t: char, v: Value, pat: string, rep: string)
    requires |ds| == 1 && ds[0].Dir? && WellFormed(ds)
    requires CharType(ds[0].name) == Some(t) && ds[0].name !in atts && Attr(st, ds[0].name[0], join, false) == Ok(v)
    requires pat == ds[0].pad + ds[0].name && rep == "(" + ds[0].name + ")" + ds[0].pad + [t]
    ensures Rewrite(st, fmt, ds, atts, join) == Ok((ReplaceAll(fmt, pat, rep), atts[ds[0].name := v]))
  {
    RewriteFirst(st, fmt, ds, atts, join, t, v);
    assert ds[1..] == [];
  }

  /** A directive evaluated for the first time, in front of the rest. */
  lemma RewriteNext(st: seq<ItemState>, fmt: string, ds: seq<Piece>, atts: Attrs, join: string, t: char, v: Value, pat: string, rep: string)
    requires |ds| >= 1 && ds[0].Dir? && WellFormed(ds)
    requires CharType(ds[0].name) == Some(t) && ds[0].name !in atts && Attr(st, ds[0].name[0], join, false) == Ok(v)
    requires pat == ds[0].pad + ds[0].name && rep == "(" + ds[0].name + ")" + ds[0].pad + [t]
    ensures WellFormed(ds[1..])
    ensures Rewrite(st, fmt, ds, atts, join) == Rewrite(st, ReplaceAll(fmt, pat, rep), ds[1..], atts[ds[0].name := v], join)
  {
    RewriteFirst(st, fmt, ds, atts, join, t, v);
  }

  lemma RewriteDefault(st: seq<ItemState>, fmt: string, join: string, f3: string, a3: Attrs)
    requires st != [] && fmt == "%h%r%t" && f3 == "%(h)s%(r)s%(t)s"
    requires a3 == map["h" := StrValue(st[0].head), "r" := StrValue(ImpliedRange(FramesOf(st))), "t" := StrValue(st[0].tail)]
    ensures Rewrite(st, fmt, Scan(fmt), map[], join) == Ok((f3, a3))
  {
    ScanDefault(fmt);
    var ds := Scan(fmt);
    AttrPlain(st, join, false);
    var h, r, t := st[0].head, ImpliedRange(FramesOf(st)), st[0].tail;
    hide Rewrite, ReplaceAll, Attr, Scan, ImpliedRange, FramesOf;
    var a1: Attrs := map["h" := StrValue(h)];
    var a2: Attrs := a1["r" := StrValue(r)];
    var f1, f2 := "%(h)s%r%t", "%(h)s%(r)s%t";
    var d2, d3 := ds[1..], ds[1..][1..];
    assert d2 == [Dir("", "r"), Dir("", "t")] && d3 == [Dir("", "t")];
    assert "r" !in a1 && "t" !in a2;
    var p1, r1 := ds[0].pad + ds[0].name, "(" + ds[0].name + ")" + ds[0].pad + ['s'];
    var p2, r2 := d2[0].pad + d2[0].name, "(" + d2[0].name + ")" + d2[0].pad + ['s'];
    var p3, r3 := d3[0].pad + d3[0].name, "(" + d3[0].name + ")" + d3[0].pad + ['s'];
    ReplaceDefault(fmt, f1, f2, f3, p1, r1, p2, r2, p3, r3);
    RewriteNext(st, fmt, ds, map[], join, 's', StrValue(h), p1, r1);
    RewriteNext(st, f1, d2, a1, join, 's', StrValue(r), p2, r2);
    RewriteLast(st, f2, d3, a2, join, 's', StrValue(t), p3, r3);
  }

  /** On the default format the rewrites do not interfere: str(seq) as
      written is head, implied range and tail, the same as Format. */
  lemma FormatDefaultAsWritten(st: seq<ItemState>, fmt: string, join: string)
    requires st != [] && fmt == "%h%r%t"
    ensures FormatAsWritten(st, fmt, join) == Ok(st[0].head + ImpliedRange(FramesOf(st)) + st[0].tail)
    ensures FormatAsWritten(st, fmt, join) == Format(st, fmt, join)
  {
    FormatDefault(st, join);
    var h, r, t := st[0].head, ImpliedRange(FramesOf(st)), st[0].tail;
    var atts: Attrs := map["h" := StrValue(h), "r" := StrValue(r), "t" := StrValue(t)];
    var f := "%(h)s%(r)s%(t)s";
    RewriteDefault(st, fmt, join, f, atts);
    PercentDefault(f, atts, h, r, t);
  }
}
