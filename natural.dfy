/**
 * The natural-order sort keys: a name becomes the list of its non-digit parts
 * (lower-cased) alternating with the values of its digit runs, and keys are
 * compared the way Python compares lists.  The extension key puts the file
 * extension in front.
 */
module NaturalSort {
  import opened Outcomes
  import opened Text
  import opened Sorting
  import opened Tokenizer

  /** An element of a key list: a str or an int. */
  datatype Piece = Word(text: string) | Number(value: nat)

  /** Python's a < b on two key elements.  Two keys built by NaturalKey never
      put a str against an int at the same position (KindsAgree), where Python
      would raise TypeError; the order given to that case is never consulted. */
  predicate PieceLt(a: Piece, b: Piece) {
    match (a, b)
    case (Word(x), Word(y)) => SeqLt(x, y, CharLt)
    case (Number(m), Number(n)) => m < n
    case (Word(_), Number(_)) => true
    case (Number(_), Word(_)) => false
  }

  lemma PieceLtStrictTotal()
    ensures StrictTotal(PieceLt)
  {
    CharLtStrictTotal();
    forall a: Piece, b: Piece | a != b ensures PieceLt(a, b) || PieceLt(b, a) {
      if a.Word? && b.Word? {
        SeqLeTotal(a.text, b.text, CharLt);
      }
    }
    forall a: Piece, b: Piece, c: Piece | PieceLt(a, b) && PieceLt(b, c)
      ensures PieceLt(a, c)
    {
      if a.Word? && b.Word? && c.Word? {
        SeqLeTrans(a.text, b.text, c.text, CharLt);
        if a.text == c.text {
          SeqLeAntisym(a.text, b.text, CharLt);
        }
      }
    }
  }

  /** The key of parts interleaved with digit runs: parts lower-cased, runs as ints. */
  function KeyOf(parts: seq<string>, digits: seq<string>): seq<Piece>
    requires |parts| == |digits| + 1
    requires forall k :: 0 <= k < |digits| ==> AllDigits(digits[k])
  {
    [Word(Lower(parts[0]))]
    + if digits == [] then [] else [Number(DigitsValue(digits[0]))] + KeyOf(parts[1..], digits[1..])
  }

  lemma DigitsAreDigits(x: string)
    ensures |Parts(x)| == |Digits(x)| + 1
    ensures forall k :: 0 <= k < |Digits(x)| ==> AllDigits(Digits(x)[k])
  {
    PartsAndDigits(x);
    RunsSpec(x);
  }

  /** _natural_key: re.split on `(\d+)`, digit pieces to int, the rest lower-cased. */
  function NaturalKey(x: string): seq<Piece>
  {
    DigitsAreDigits(x);
    KeyOf(Parts(x), Digits(x))
  }

  lemma {:induction false} KeyOfShape(parts: seq<string>, digits: seq<string>)
    requires |parts| == |digits| + 1
    requires forall k :: 0 <= k < |digits| ==> AllDigits(digits[k])
    ensures |KeyOf(parts, digits)| == 2 * |digits| + 1
    ensures forall k :: 0 <= k < |parts| ==> KeyOf(parts, digits)[2 * k] == Word(Lower(parts[k]))
    ensures forall k :: 0 <= k < |digits| ==>
      KeyOf(parts, digits)[2 * k + 1] == Number(DigitsValue(digits[k]))
  {
    hide Lower, DigitsValue, AllDigits;
    if digits != [] {
      KeyOfShape(parts[1..], digits[1..]);
      var key := KeyOf(parts, digits);
      var rest := KeyOf(parts[1..], digits[1..]);
      assert key == [Word(Lower(parts[0])), Number(DigitsValue(digits[0]))] + rest;
      forall k | 1 <= k < |parts| ensures key[2 * k] == Word(Lower(parts[k])) {
        assert key[2 * k] == rest[2 * (k - 1)];
        assert parts[1..][k - 1] == parts[k];
      }
      forall k | 1 <= k < |digits| ensures key[2 * k + 1] == Number(DigitsValue(digits[k])) {
        assert key[2 * k + 1] == rest[2 * (k - 1) + 1];
        assert digits[1..][k - 1] == digits[k];
      }
    }
  }

  /** The key alternates: a str (possibly empty) at every even position, an int
      at every odd one, and it has 2 * (number of digit runs) + 1 elements. */
  lemma NaturalKeyShape(x: string)
    ensures |NaturalKey(x)| == 2 * |Runs(x)| + 1
    ensures forall i :: 0 <= i < |NaturalKey(x)| ==> (NaturalKey(x)[i].Word? <==> i % 2 == 0)
  {
    DigitsAreDigits(x);
    KeyOfShape(Parts(x), Digits(x));
    forall i | 0 <= i < |NaturalKey(x)| ensures NaturalKey(x)[i].Word? <==> i % 2 == 0 {
      var k := i / 2;
      if i % 2 == 0 {
        assert i == 2 * k;
        assert NaturalKey(x)[i] == Word(Lower(Parts(x)[k]));
      } else {
        assert i == 2 * k + 1;
        assert NaturalKey(x)[i] == Number(DigitsValue(Digits(x)[k]));
      }
    }
  }

  /** So two keys hold the same kind of element at every common position, and
      Python never compares a str with an int when sorting by them. */
  lemma KindsAgree(x: string, y: string, i: nat)
    requires i < |NaturalKey(x)| && i < |NaturalKey(y)|
    ensures NaturalKey(x)[i].Word? == NaturalKey(y)[i].Word?
  {
    NaturalKeyShape(x);
    NaturalKeyShape(y);
  }

  /** The comparison sorted(key=_natural_key) makes: "not key(b) < key(a)". */
  predicate NaturalLe(a: string, b: string) {
    SeqLe(NaturalKey(a), NaturalKey(b), PieceLt)
  }

  lemma NaturalLeTotalPreorder()
    ensures TotalPreorder(NaturalLe)
  {
    PieceLtStrictTotal();
    forall a: string, b: string ensures NaturalLe(a, b) || NaturalLe(b, a) {
      SeqLeTotal(NaturalKey(a), NaturalKey(b), PieceLt);
    }
    forall a: string, b: string, c: string | NaturalLe(a, b) && NaturalLe(b, c)
      ensures NaturalLe(a, c)
    {
      SeqLeTrans(NaturalKey(a), NaturalKey(b), NaturalKey(c), PieceLt);
    }
  }

  /** natural_sort: a permutation of the items, in natural order. */
  function NaturalSorted(items: seq<string>): (r: seq<string>)
    ensures multiset(r) == multiset(items)
    ensures SortedBy(r, NaturalLe)
  {
    NaturalLeTotalPreorder();
    SortBySorted(items, NaturalLe);
    SortBy(items, NaturalLe)
  }

  /** The key of a name with a single number. */
  lemma OneNumberKey(h: string, d: string, t: string)
    requires NoDigits(h) && NoDigits(t)
    requires AllDigits(d) && |d| >= 1
    ensures NaturalKey(h + d + t) == [Word(Lower(h)), Number(DigitsValue(d)), Word(Lower(t))]
  {
    OneNumber(h, d, t);
    DigitsAreDigits(h + d + t);
    assert KeyOf([t], []) == [Word(Lower(t))];
    assert [h, t][1..] == [t] && [d][1..] == [];
    assert KeyOf([h, t], [d]) == [Word(Lower(h))] + [Number(DigitsValue(d))] + KeyOf([t], []);
  }

  /** Natural order: with the same text around the number, the name with the
      smaller number sorts first ("x2" before "x10"), although as plain strings
      "x10" < "x2". */
  lemma NumbersCompareByValue(h: string, t: string, m: nat, n: nat)
    requires NoDigits(h) && NoDigits(t)
    requires m < n
    ensures SeqLt(NaturalKey(h + Str(m) + t), NaturalKey(h + Str(n) + t), PieceLt)
  {
    hide NaturalKey, Lower, Str, DigitsValue, NoDigits, AllDigits;
    StrValue(m);
    StrValue(n);
    StrShape(m);
    StrShape(n);
    OneNumberKey(h, Str(m), t);
    OneNumberKey(h, Str(n), t);
    var a := [Word(Lower(h)), Number(m), Word(Lower(t))];
    var b := [Word(Lower(h)), Number(n), Word(Lower(t))];
    assert a[1..] == [Number(m), Word(Lower(t))];
    assert b[1..] == [Number(n), Word(Lower(t))];
    assert SeqLe(a[1..], b[1..], PieceLt);
  }

  /** Where the file name of p starts: after its last '/'. */
  function NameStart(p: string): (r: nat)
    ensures r <= |p| && '/' !in p[r..]
    ensures r > 0 ==> p[r - 1] == '/'
  {
    match LastIndexOf(p, '/')
    case None => 0
    case Some(sep) => sep + 1
  }

  /** The file name of p holds a '.' after some character other than '.'. */
  predicate Dotted(p: string) {
    exists k, j :: NameStart(p) <= k < j < |p| && p[k] != '.' && p[j] == '.'
  }

  /** The last '.' of the file name of p that is preceded by a non-dot
      somewhere in that name (posixpath.splitext). */
  function ExtDot(p: string): (r: Option<nat>)
    ensures r.Some? ==> NameStart(p) < r.value < |p| && p[r.value] == '.' && '.' !in p[r.value + 1..]
    ensures r.Some? <==> Dotted(p)
  {
    var start := NameStart(p);
    match LastIndexOf(p, '.')
    case None => None
    case Some(dot) =>
      if dot > start && exists k :: start <= k < dot && p[k] != '.' then Some(dot)
      else
        assert !exists k, j :: start <= k < j < |p| && p[k] != '.' && p[j] == '.';
        None
  }

  /** os.path.splitext: (root, ext) with root + ext == p; the extension is
      non-empty exactly when the file name holds a '.' after some other
      character, and it then runs from the last '.' to the end. */
  function SplitExt(p: string): (r: (string, string))
    ensures r.0 + r.1 == p
    ensures r.1 != [] <==> Dotted(p)
    ensures r.1 != [] ==> r.1[0] == '.' && '.' !in r.1[1..] && |r.0| > NameStart(p)
    ensures r.1 == [] || '/' !in r.1
  {
    match ExtDot(p)
    case None => (p, [])
    case Some(dot) =>
      assert p == p[..dot] + p[dot..];
      assert p[dot..][1..] == p[dot + 1..];
      assert '/' !in p[dot..] by {
        assert p[dot..] == p[NameStart(p)..][dot - NameStart(p)..];
      }
      (p[..dot], p[dot..])
  }

  /** _ext_key: the extension (as is) followed by the natural key of the root. */
  function ExtKey(x: string): seq<Piece>
  {
    var (root, ext) := SplitExt(x);
    [Word(ext)] + NaturalKey(root)
  }

  predicate ExtLe(a: string, b: string) {
    SeqLe(ExtKey(a), ExtKey(b), PieceLt)
  }

  lemma ExtLeTotalPreorder()
    ensures TotalPreorder(ExtLe)
  {
    PieceLtStrictTotal();
    forall a: string, b: string ensures ExtLe(a, b) || ExtLe(b, a) {
      SeqLeTotal(ExtKey(a), ExtKey(b), PieceLt);
    }
    forall a: string, b: string, c: string | ExtLe(a, b) && ExtLe(b, c)
      ensures ExtLe(a, c)
    {
      SeqLeTrans(ExtKey(a), ExtKey(b), ExtKey(c), PieceLt);
    }
  }

  /** Extension first: an extension that is smaller as a string puts the name
      first whatever the rest of the names are; equal extensions leave the
      decision to the natural keys of the roots. */
  lemma ExtensionFirst(a: string, b: string)
    ensures SeqLt(SplitExt(a).1, SplitExt(b).1, CharLt) ==> SeqLt(ExtKey(a), ExtKey(b), PieceLt)
    ensures SplitExt(a).1 == SplitExt(b).1 ==>
      (ExtLe(a, b) <==> SeqLe(NaturalKey(SplitExt(a).0), NaturalKey(SplitExt(b).0), PieceLt))
  {
    hide SplitExt, NameStart, Dotted, NaturalKey;
    var ka := ExtKey(a);
    var kb := ExtKey(b);
    assert ka[1..] == NaturalKey(SplitExt(a).0);
    assert kb[1..] == NaturalKey(SplitExt(b).0);
  }

  /** A sorted list by the extension key has its extensions in string order. */
  lemma ExtSortedGroupsExtensions(r: seq<string>, i: nat, j: nat)
    requires SortedBy(r, ExtLe)
    requires i < j < |r|
    ensures StrLe(SplitExt(r[i]).1, SplitExt(r[j]).1)
  {
    CharLtStrictTotal();
    var ea := SplitExt(r[i]).1;
    var eb := SplitExt(r[j]).1;
    assert ExtLe(r[i], r[j]);
    if !StrLe(ea, eb) {
      SeqLeTotal(ea, eb, CharLt);
      ExtensionFirst(r[j], r[i]);
      assert SeqLt(ExtKey(r[j]), ExtKey(r[i]), PieceLt);
      PieceLtStrictTotal();
      SeqLeAntisym(ExtKey(r[i]), ExtKey(r[j]), PieceLt);
    }
  }

  /** The sort iget_sequences applies: by extension key. */
  function ExtSorted(items: seq<string>): (r: seq<string>)
    ensures multiset(r) == multiset(items)
    ensures SortedBy(r, ExtLe)
  {
    ExtLeTotalPreorder();
    SortBySorted(items, ExtLe);
    SortBy(items, ExtLe)
  }
}
