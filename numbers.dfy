/** Decimal digit strings: their value, the canonical rendering of a natural number, and
    Python's `int(text)` on a string (base 10). Digits are ASCII `0`-`9`. */
module Numbers {
  import opened Text

  predicate IsDigit(c: char) {
    '0' <= c <= '9'
  }

  predicate AllDigits(ds: string) {
    forall i :: 0 <= i < |ds| ==> IsDigit(ds[i])
  }

  /** The value of a string of decimal digits, most significant first. */
  function Value(ds: string): nat
    requires AllDigits(ds)
  {
    if ds == [] then 0 else 10 * Value(ds[..|ds| - 1]) + (ds[|ds| - 1] as int - '0' as int)
  }

  /** The decimal rendering of `n` that `str(n)` produces: no sign, no leading zero. */
  function Decimal(n: nat): (ds: string)
    ensures ds != [] && AllDigits(ds)
    ensures ds[0] == '0' ==> n == 0
  {
    var d := ['0' + ((n % 10) as char)];
    if n < 10 then d else Decimal(n / 10) + d
  }

  /** Reading back what `Decimal` wrote gives the number again. */
  lemma {:induction false} ValueOfDecimal(n: nat)
    ensures Value(Decimal(n)) == n
  {
    var ds := Decimal(n);
    if n >= 10 {
      ValueOfDecimal(n / 10);
      assert ds[..|ds| - 1] == Decimal(n / 10);
    }
  }

  /** The digits of a digit string in which single underscores may separate digits
      (Python's grouping syntax, `1_000`), or None when the string is not of that form. */
  function GroupedDigits(t: string): (r: Option<string>)
    ensures r.Some? ==> AllDigits(r.value) && r.value != [] && |r.value| <= |t|
    ensures r.Some? ==> t != [] && IsDigit(t[0]) && IsDigit(t[|t| - 1])
    ensures AllDigits(t) && t != [] ==> r == Some(t)
  {
    if t == [] || !IsDigit(t[0]) then None
    else if |t| == 1 then Some(t)
    else if IsDigit(t[1]) then
      match GroupedDigits(t[1..])
      case None => None
      case Some(rest) =>
        assert AllDigits(t) ==> [t[0]] + rest == t by {
          if AllDigits(t) { assert AllDigits(t[1..]); }
        }
        Some([t[0]] + rest)
    else if t[1] == '_' && |t| >= 3 && IsDigit(t[2]) then
      match GroupedDigits(t[2..])
      case None => None
      case Some(rest) => Some([t[0]] + rest)
    else None
  }

  /** Python's `int(text)`: surrounding whitespace, an optional `+` or `-`, then decimal
      digits with optional single underscores between them; None where Python raises
      `ValueError`. */
  function ParseInt(text: string): (r: Option<int>)
    ensures r.Some? ==> Strip(text) != []
  {
    ParseSigned(Strip(text))
  }

  /** `int` on a string without surrounding whitespace. */
  function ParseSigned(t: string): (r: Option<int>)
    ensures r.Some? ==> t != []
  {
    var negative := t != [] && t[0] == '-';
    var body := if t != [] && (t[0] == '-' || t[0] == '+') then t[1..] else t;
    match GroupedDigits(body)
    case None => None
    case Some(ds) =>
      var v: int := Value(ds);
      Some(if negative then -v else v)
  }

  /** `int(str(n)) == n`, also with blanks around. */
  lemma ParseIntOfDecimal(n: nat, pad: string)
    requires forall i :: 0 <= i < |pad| ==> IsSpace(pad[i])
    ensures ParseInt(pad + Decimal(n) + pad) == Some(n)
  {
    var ds := Decimal(n);
    StripAroundSolid(ds, pad);
    assert ds[0] != '-' && ds[0] != '+';
    assert GroupedDigits(ds) == Some(ds);
    ValueOfDecimal(n);
  }

  /** Stripping blanks around a string without blanks at its ends gives the string back. */
  lemma StripAroundSolid(t: string, pad: string)
    requires t != [] && !IsSpace(t[0]) && !IsSpace(t[|t| - 1])
    requires forall i :: 0 <= i < |pad| ==> IsSpace(pad[i])
    ensures Strip(pad + t + pad) == t
  {
    var s := pad + t + pad;
    var r := Strip(s);
    var a := LeadingSpaces(s);
    StripCuts(s);
    assert !IsSpace(s[|pad|]);
    assert !IsSpace(s[|pad| + |t| - 1]);
    assert a <= |pad| && |pad| + |t| <= a + |r|;
    assert r != [];
    assert s[a] == r[0];
    assert s[a + |r| - 1] == r[|r| - 1];
    assert r == s[|pad|..|pad| + |t|];
  }
}
