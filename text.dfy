/**
 * Character classes, decimal numbers and the small string and path helpers
 * the rest of the model is written with.  Characters are ASCII-classified:
 * `\d` is '0'..'9', `\s` is the six ASCII white-space characters and `\w`
 * is letters, digits and '_'.
 */
module Text {
  import opened Outcomes

  predicate IsDigit(c: char) {
    '0' <= c <= '9'
  }

  predicate IsSpace(c: char) {
    c == ' ' || c == '\t' || c == '\n' || c == '\r' || c == '\U{000B}' || c == '\U{000C}'
  }

  predicate IsWordChar(c: char) {
    IsDigit(c) || ('a' <= c <= 'z') || ('A' <= c <= 'Z') || c == '_'
  }

  predicate AllDigits(s: string) {
    forall i :: 0 <= i < |s| ==> IsDigit(s[i])
  }

  predicate NoDigits(s: string) {
    forall i :: 0 <= i < |s| ==> !IsDigit(s[i])
  }

  predicate NoSpaces(s: string) {
    forall i :: 0 <= i < |s| ==> !IsSpace(s[i])
  }

  function DigitValue(c: char): nat
    requires IsDigit(c)
  {
    c as int - '0' as int
  }

  function DigitChar(d: nat): (c: char)
    requires d < 10
    ensures IsDigit(c) && DigitValue(c) == d
  {
    ('0' as int + d) as char
  }

  /** Python's int() of a string of decimal digits (leading zeros allowed). */
  function DigitsValue(s: string): nat
    requires AllDigits(s)
  {
    if s == [] then 0 else 10 * DigitsValue(s[..|s| - 1]) + DigitValue(s[|s| - 1])
  }

  /** Python's str() of a non-negative int. */
  function Str(n: nat): (r: string)
    ensures AllDigits(r) && |r| >= 1
  {
    if n < 10 then [DigitChar(n)] else Str(n / 10) + [DigitChar(n % 10)]
  }

  /** A digit string as str() writes it: no leading zero unless it is "0". */
  predicate Canonical(s: string) {
    AllDigits(s) && |s| >= 1 && (s[0] != '0' || |s| == 1)
  }

  lemma {:induction false} StrShape(n: nat)
    ensures Canonical(Str(n))
    ensures |Str(n)| == 1 <==> n < 10
  {
    if n >= 10 {
      StrShape(n / 10);
      var s := Str(n);
      assert s == Str(n / 10) + [DigitChar(n % 10)];
      assert s[0] == Str(n / 10)[0];
      if n / 10 < 10 {
        assert Str(n / 10) == [DigitChar(n / 10)];
      }
    }
  }

  /** int(str(n)) == n. */
  lemma {:induction false} StrValue(n: nat)
    ensures AllDigits(Str(n)) && DigitsValue(Str(n)) == n
  {
    StrShape(n);
    if n >= 10 {
      StrValue(n / 10);
      var s := Str(n);
      assert s[..|s| - 1] == Str(n / 10);
    }
  }

  lemma {:induction false} NonzeroLeadValue(s: string)
    requires AllDigits(s) && |s| >= 1 && s[0] != '0'
    ensures DigitsValue(s) >= 1
  {
    if |s| > 1 {
      NonzeroLeadValue(s[..|s| - 1]);
    }
  }

  /** str(int(s)) == s for a digit string written without leading zeros. */
  lemma {:induction false} ValueStr(s: string)
    requires Canonical(s)
    ensures Str(DigitsValue(s)) == s
  {
    if |s| > 1 {
      var init := s[..|s| - 1];
      assert init[0] == s[0];
      NonzeroLeadValue(init);
      ValueStr(init);
      var n := DigitsValue(s);
      assert n / 10 == DigitsValue(init) && n % 10 == DigitValue(s[|s| - 1]);
      assert DigitChar(DigitValue(s[|s| - 1])) == s[|s| - 1];
      assert s == init + [s[|s| - 1]];
    } else {
      assert DigitChar(DigitValue(s[0])) == s[0];
    }
  }

  function Repeat(c: char, k: nat): (r: string)
    ensures |r| == k && forall i :: 0 <= i < k ==> r[i] == c
  {
    if k == 0 then [] else [c] + Repeat(c, k - 1)
  }

  /** Right-justify `s` in a field of `width` characters filled with `fill`,
      as printf-style %-formatting does; a longer `s` is not truncated. */
  function Justify(s: string, width: nat, fill: char): (r: string)
    ensures |r| == if |s| >= width then |s| else width
    ensures r[|r| - |s|..] == s
    ensures forall i :: 0 <= i < |r| - |s| ==> r[i] == fill
  {
    if |s| >= width then s else Repeat(fill, width - |s|) + s
  }

  lemma {:induction false} LeadingZerosValue(k: nat, s: string)
    requires AllDigits(s)
    ensures AllDigits(Repeat('0', k) + s) && DigitsValue(Repeat('0', k) + s) == DigitsValue(s)
  {
    if s == [] {
      ZerosValue(k);
      assert Repeat('0', k) + s == Repeat('0', k);
    } else {
      var t := Repeat('0', k) + s;
      var init := s[..|s| - 1];
      assert t[..|t| - 1] == Repeat('0', k) + init;
      LeadingZerosValue(k, init);
    }
  }

  lemma {:induction false} ZerosValue(k: nat)
    ensures AllDigits(Repeat('0', k)) && DigitsValue(Repeat('0', k)) == 0
  {
    if k > 0 {
      var z := Repeat('0', k);
      assert z[..k - 1] == Repeat('0', k - 1);
      ZerosValue(k - 1);
    }
  }

  /** Zero-padding int(t) back to the width of t gives t again: a frame
      rendered with its own field width reproduces its digit text. */
  lemma {:induction false} ZeroPadRoundTrip(t: string)
    requires AllDigits(t) && |t| >= 1
    ensures Justify(Str(DigitsValue(t)), |t|, '0') == t
  {
    var k := LeadingZeros(t, 0);
    if k == |t| {
      assert t == Repeat('0', |t|);
      ZerosValue(|t|);
      assert Str(0) == "0";
      assert Repeat('0', |t|) == Repeat('0', |t| - 1) + "0" by {
        RepeatSnoc(|t| - 1);
      }
    } else {
      var rest := t[k..];
      assert t == Repeat('0', k) + rest;
      LeadingZerosValue(k, rest);
      assert Canonical(rest);
      ValueStr(rest);
    }
  }

  /** Two digit strings of the same length with the same value are the same
      string: a fixed-width number is determined by its value. */
  lemma {:induction false} DigitsValueInjective(s: string, t: string)
    requires AllDigits(s) && AllDigits(t) && |s| == |t|
    requires DigitsValue(s) == DigitsValue(t)
    ensures s == t
  {
    if s != [] {
      var n := |s| - 1;
      var ds := DigitValue(s[n]);
      var dt := DigitValue(t[n]);
      var ps := DigitsValue(s[..n]);
      var pt := DigitsValue(t[..n]);
      assert 10 * ps + ds == 10 * pt + dt;
      assert ds < 10 && dt < 10;
      assert s[n] == t[n] by {
        assert ds == dt;
        assert s[n] as int == '0' as int + ds && t[n] as int == '0' as int + dt;
      }
      hide DigitsValue, DigitValue;
      assert ps == pt;
      DigitsValueInjective(s[..n], t[..n]);
      assert s == s[..n] + [s[n]] && t == t[..n] + [t[n]];
    }
  }

  lemma {:induction false} RepeatSnoc(k: nat)
    ensures Repeat('0', k + 1) == Repeat('0', k) + "0"
  {
  }

  /** The number of '0' characters t starts with, counted from index i. */
  function LeadingZeros(t: string, i: nat): (k: nat)
    requires i <= |t|
    requires forall j :: 0 <= j < i ==> t[j] == '0'
    ensures i <= k <= |t|
    ensures forall j :: 0 <= j < k ==> t[j] == '0'
    ensures k < |t| ==> t[k] != '0'
    decreases |t| - i
  {
    if i < |t| && t[i] == '0' then LeadingZeros(t, i + 1) else i
  }

  /** ASCII lower-casing (Python's str.lower() on ASCII text). */
  function Lower(s: string): (r: string)
    ensures |r| == |s|
  {
    if s == [] then [] else
      var c := s[0];
      [if 'A' <= c <= 'Z' then (c as int + 32) as char else c] + Lower(s[1..])
  }

  /** Python's sep.join(parts). */
  function Join(parts: seq<string>, sep: string): string
  {
    if |parts| == 0 then ""
    else if |parts| == 1 then parts[0]
    else parts[0] + sep + Join(parts[1..], sep)
  }

  /** The first index j >= i at which `sep` occurs in `s`. */
  function Find(s: string, sep: string, i: nat): (r: Option<nat>)
    requires |sep| > 0
    ensures r.Some? ==> i <= r.value && r.value + |sep| <= |s| && s[r.value..r.value + |sep|] == sep
    decreases |s| - i
  {
    if i + |sep| > |s| then None
    else if s[i..i + |sep|] == sep then Some(i)
    else Find(s, sep, i + 1)
  }

  /** Python's s.split(sep) for a non-empty separator. */
  function Split(s: string, sep: string): (r: seq<string>)
    requires |sep| > 0
    ensures |r| >= 1
    decreases |s|
  {
    match Find(s, sep, 0)
    case None => [s]
    case Some(i) => [s[..i]] + Split(s[i + |sep|..], sep)
  }

  /** Splitting and joining on the same separator gives the string back. */
  lemma {:induction false} JoinSplit(s: string, sep: string)
    requires |sep| > 0
    ensures Join(Split(s, sep), sep) == s
    decreases |s|
  {
    match Find(s, sep, 0)
    case None =>
    case Some(i) =>
      var rest := s[i + |sep|..];
      var tail := Split(rest, sep);
      assert Split(s, sep) == [s[..i]] + tail;
      assert ([s[..i]] + tail)[1..] == tail;
      JoinSplit(rest, sep);
      assert s == s[..i] + sep + rest;
  }

  /** Python's str.strip() with no argument, on ASCII white space. */
  function Strip(s: string): (r: string)
    ensures |r| <= |s|
  {
    if |s| > 0 && IsSpace(s[0]) then Strip(s[1..])
    else if |s| > 0 && IsSpace(s[|s| - 1]) then Strip(s[..|s| - 1])
    else s
  }

  /** Python's int() on a string: surrounding white space is ignored; anything
      but a non-empty run of decimal digits is a ValueError (None here). */
  function ParseInt(s: string): (r: Option<nat>)
    ensures r.Some? ==> AllDigits(Strip(s)) && |Strip(s)| >= 1 && r.value == DigitsValue(Strip(s))
  {
    var t := Strip(s);
    if |t| >= 1 && AllDigits(t) then Some(DigitsValue(t)) else None
  }

  /** The index of the last c in p (str.rfind). */
  function LastIndexOf(p: string, c: char): (r: Option<nat>)
    ensures r.Some? ==> r.value < |p| && p[r.value] == c && c !in p[r.value + 1..]
    ensures r.None? ==> c !in p
  {
    if p == [] then None
    else if p[|p| - 1] == c then Some(|p| - 1)
    else
      var r := LastIndexOf(p[..|p| - 1], c);
      assert r.Some? ==> p[r.value + 1..] == p[..|p| - 1][r.value + 1..] + [p[|p| - 1]];
      assert r.None? ==> p == p[..|p| - 1] + [p[|p| - 1]];
      r
  }

  /** os.path.basename: the text after the last '/'. */
  function Basename(p: string): (r: string)
    ensures '/' !in r
  {
    match LastIndexOf(p, '/')
    case None => p
    case Some(i) => p[i + 1..]
  }

  /** os.path.dirname, simplified: the text before the last '/'. */
  function Dirname(p: string): string
  {
    match LastIndexOf(p, '/')
    case None => ""
    case Some(i) => p[..i]
  }

  /** os.path.join of a directory and a name. */
  function PathJoin(dir: string, name: string): string
  {
    if |name| > 0 && name[0] == '/' then name
    else if dir == [] || dir[|dir| - 1] == '/' then dir + name
    else dir + "/" + name
  }

  /** A name of a slash-free head, digits and a slash-free tail is its own
      basename. */
  lemma BasenameOfPlain(h: string, d: string, t: string)
    requires '/' !in h && '/' !in t && AllDigits(d)
    ensures Basename(h + d + t) == h + d + t
  {
    var p := h + d + t;
    forall i | 0 <= i < |p| ensures p[i] != '/' {
      if i < |h| {
        assert p[i] == h[i];
      } else if i < |h| + |d| {
        assert p[i] == d[i - |h|];
      } else {
        assert p[i] == t[i - |h| - |d|];
      }
    }
    assert LastIndexOf(p, '/').None?;
  }

  /** Joining a directory and a slash-free name, the name is the basename. */
  lemma BasenameOfJoin(dir: string, name: string)
    requires '/' !in name
    ensures Basename(PathJoin(dir, name)) == name
  {
    var p := PathJoin(dir, name);
    if dir == [] {
      assert p == name;
    } else {
      var i := |p| - |name| - 1;
      assert p[i] == '/';
      assert p[i + 1..] == name;
      var r := LastIndexOf(p, '/');
      assert r.Some?;
      assert r.value == i;
    }
  }
}
