/** Decimal text to number, the part of Go's float parsing that the runtime's
    string-to-float conversion relies on: an optional sign, then digits with
    an optional fractional part. */
module Decimal {

  import opened Wrappers

  predicate IsDigit(c: char)
  {
    '0' <= c <= '9'
  }

  predicate AllDigits(s: string)
  {
    forall i :: 0 <= i < |s| ==> IsDigit(s[i])
  }

  function Pow10(n: nat): (p: nat)
    ensures p >= 1
  {
    if n == 0 then 1 else 10 * Pow10(n - 1)
  }

  /** The number a digit string denotes, most significant digit first. */
  function DigitsValue(s: string): (n: nat)
    requires AllDigits(s)
    ensures n < Pow10(|s|)
  {
    if |s| == 0 then 0
    else
      var init := s[..|s| - 1];
      assert forall i :: 0 <= i < |init| ==> init[i] == s[i];
      DigitsValue(init) * 10 + (s[|s| - 1] as int - '0' as int)
  }

  /** The position of the first '.', or the length when there is none. */
  function DotIndex(s: string): (r: nat)
    ensures r <= |s|
    ensures r < |s| ==> s[r] == '.'
    ensures forall j :: 0 <= j < r ==> s[j] != '.'
  {
    if |s| == 0 || s[0] == '.' then 0 else 1 + DotIndex(s[1..])
  }

  /** Digits with an optional fractional part after a '.', at least one digit
      in all. */
  function ParseUnsigned(s: string): (r: Option<real>)
    ensures r.Some? ==> r.value >= 0.0
    ensures r.Some? ==> |s| > 0 && (IsDigit(s[0]) || s[0] == '.')
  {
    var i := DotIndex(s);
    var whole := s[..i];
    var frac := if i < |s| then s[i + 1..] else [];
    if AllDigits(whole) && AllDigits(frac) && |whole| + |frac| > 0 then
      Some(DigitsValue(whole) as real + DigitsValue(frac) as real / Pow10(|frac|) as real)
    else None
  }

  /** Go's float parsing restricted to plain decimal notation: a leading '-'
      negates, a leading '+' is dropped, and anything else must be digits with
      an optional fraction. */
  function ParseFloat(s: string): (r: Option<real>)
    ensures r.Some? ==> |s| > 0
    ensures |s| > 0 && IsDigit(s[0]) ==> r == ParseUnsigned(s)
    ensures |s| > 0 && s[0] == '-' ==>
      r == if ParseUnsigned(s[1..]).Some? then Some(-ParseUnsigned(s[1..]).value) else None
  {
    if |s| > 0 && s[0] == '-' then
      match ParseUnsigned(s[1..])
      case Some(v) => Some(-v)
      case None => None
    else if |s| > 0 && s[0] == '+' then ParseUnsigned(s[1..])
    else ParseUnsigned(s)
  }

  /** The decimal digits of a natural number, without leading zeros. */
  function FormatNat(n: nat): (s: string)
    ensures |s| > 0 && AllDigits(s)
    ensures n >= 10 ==> s[0] != '0'
  {
    if n < 10 then [('0' as int + n) as char]
    else FormatNat(n / 10) + [('0' as int + n % 10) as char]
  }

  /** Reading back the digits of `n` gives `n`. */
  lemma {:induction false} DigitsValueFormat(n: nat)
    ensures DigitsValue(FormatNat(n)) == n
  {
    if n >= 10 {
      var s := FormatNat(n);
      assert s[..|s| - 1] == FormatNat(n / 10);
      DigitsValueFormat(n / 10);
    }
  }

  /** The digits of `n` read as an unsigned decimal give `n`. */
  lemma ParseUnsignedFormat(n: nat)
    ensures ParseUnsigned(FormatNat(n)) == Some(n as real)
  {
    var s := FormatNat(n);
    DigitsValueFormat(n);
    assert DotIndex(s) == |s|;
    assert s[..|s|] == s;
  }

  /** Parsing the digits of `n` gives `n`; with a leading '-', gives `-n`. */
  lemma ParseFormatNat(n: nat)
    ensures ParseFloat(FormatNat(n)) == Some(n as real)
    ensures ParseFloat("-" + FormatNat(n)) == Some(-(n as real))
  {
    ParseUnsignedFormat(n);
    assert ("-" + FormatNat(n))[1..] == FormatNat(n);
  }

  /** A text holding a character that is neither a digit, a sign nor a '.'
      does not parse. */
  lemma {:induction false} ParseFloatRejects(s: string, k: nat)
    requires k < |s| && !IsDigit(s[k]) && s[k] !in "+-."
    ensures ParseFloat(s) == None
  {
    var t := if s[0] == '-' || s[0] == '+' then s[1..] else s;
    var k' := if s[0] == '-' || s[0] == '+' then k - 1 else k;
    assert t[k'] == s[k];
    var i := DotIndex(t);
    if k' < i {
      assert t[..i][k'] == t[k'];
    } else {
      assert k' != i;
      assert t[i + 1..][k' - i - 1] == t[k'];
    }
  }
}
