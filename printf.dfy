/**
 * The part of Python's printf-style `%` formatting the library relies on:
 * a conversion with an optional run of '0' flags and a decimal width, applied
 * to an int (`%04d`, `%(s)4i`) or to a str (`%(R)8s`).
 */
module Printf {
  import opened Outcomes
  import opened Text

  /** The flags-and-width of a conversion: zero fill or not, minimum width. */
  datatype Spec = Spec(zero: bool, width: nat)

  /** Read the digits between '%' and the conversion letter: leading '0's are
      the zero flag, the remaining digits (if any) the width. */
  function ParseSpec(digits: string): (sp: Spec)
    requires AllDigits(digits)
    ensures sp.zero <==> |digits| > 0 && digits[0] == '0'
  {
    var k := LeadingZeros(digits, 0);
    Spec(k > 0, DigitsValue(digits[k..]))
  }

  /** "%d" % n with the given flags and width. */
  function FormatInt(n: nat, sp: Spec): (r: string)
    ensures |r| == if |Str(n)| >= sp.width then |Str(n)| else sp.width
  {
    Justify(Str(n), sp.width, if sp.zero then '0' else ' ')
  }

  /** "%s" % s with the given width; the zero flag does not apply to str. */
  function FormatStr(s: string, sp: Spec): (r: string)
    ensures |r| >= |s| && r[|r| - |s|..] == s
  {
    Justify(s, sp.width, ' ')
  }

  /** A padding string "%<digits>d", as the padding directive writes it and the
      number-synthesis of uncompress applies it. */
  function PercentD(pad: string): (r: Option<Spec>)
  {
    if |pad| >= 2 && pad[0] == '%' && pad[|pad| - 1] == 'd' && AllDigits(pad[1..|pad| - 1])
    then Some(ParseSpec(pad[1..|pad| - 1]))
    else None
  }

  /** `pad % n` for a padding string pad. */
  function ApplyPad(pad: string, n: nat): Result<string>
  {
    match PercentD(pad)
    case Some(sp) => Ok(FormatInt(n, sp))
    case None => Err(ValueError)
  }

  lemma ParseSpecEmpty()
    ensures ParseSpec("") == Spec(false, 0)
  {
    assert LeadingZeros("", 0) == 0;
    assert ""[0..] == "";
  }

  lemma ParseSpecOfWidth(m: nat)
    requires m >= 1
    ensures ParseSpec("0" + Str(m)) == Spec(true, m)
    ensures ParseSpec(Str(m)) == Spec(false, m)
  {
    StrShape(m);
    StrValue(m);
    var z := "0" + Str(m);
    var k := LeadingZeros(z, 0);
    assert Str(m)[0] != '0';
    assert k == 1 by {
      assert z[1] == Str(m)[0];
      assert LeadingZeros(z, 1) == 1;
    }
    assert z[1..] == Str(m);
    assert LeadingZeros(Str(m), 0) == 0;
    assert Str(m)[0..] == Str(m);
  }
}
