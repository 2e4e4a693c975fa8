/**
 * Python's `math.ceil`, the built-in `round` (round half to even) and a
 * decimal subset of `float(str)`, over exact reals.
 */
module PyNumbers {
  import opened Wrappers

  /** `max(a, b)` on numbers. */
  function Max(a: real, b: real): real { if a >= b then a else b }

  /** `max(a, b)` on integers. */
  function MaxInt(a: int, b: int): int { if a >= b then a else b }

  /** `math.ceil(x)`: the least integer not below `x`. */
  function Ceil(x: real): (r: int)
    ensures r as real - 1.0 < x <= r as real
  {
    if x.Floor as real == x then x.Floor else x.Floor + 1
  }

  /** `round(x)` with no digits argument: the nearest integer, a tie going to
      the even neighbour. */
  function RoundHalfEven(x: real): (r: int)
    ensures x - 0.5 <= r as real <= x + 0.5
    ensures (r as real == x - 0.5 || r as real == x + 0.5) ==> r % 2 == 0
  {
    var f := x.Floor;
    var d := x - f as real;
    if d < 0.5 then f
    else if d > 0.5 then f + 1
    else if f % 2 == 0 then f
    else f + 1
  }

  /** The two clauses of `RoundHalfEven`'s contract determine its result. */
  lemma RoundHalfEvenUnique(x: real, n: int)
    requires x - 0.5 <= n as real <= x + 0.5
    requires (n as real == x - 0.5 || n as real == x + 0.5) ==> n % 2 == 0
    ensures n == RoundHalfEven(x)
  {
  }

  /** Rounding is monotonic. */
  lemma RoundHalfEvenMonotonic(x: real, y: real)
    requires x <= y
    ensures RoundHalfEven(x) <= RoundHalfEven(y)
  {
  }

  /** An integer rounds to itself. */
  lemma RoundHalfEvenOfInt(n: int)
    ensures RoundHalfEven(n as real) == n
  {
    RoundHalfEvenUnique(n as real, n);
  }

  predicate IsDigit(c: char) { '0' <= c <= '9' }

  predicate AllDigits(s: string) {
    forall i :: 0 <= i < |s| ==> IsDigit(s[i])
  }

  /** The value of a string of decimal digits. */
  function DigitsValue(s: string): (v: nat)
    requires AllDigits(s)
  {
    if s == [] then 0
    else DigitsValue(s[..|s| - 1]) * 10 + (s[|s| - 1] as int - '0' as int)
  }

  function Pow10(n: nat): (p: nat)
    ensures p >= 1
  {
    if n == 0 then 1 else 10 * Pow10(n - 1)
  }

  /** Index of the first '.' in `s`, or `|s|` when there is none. */
  function DotIndex(s: string): (k: nat)
    ensures k <= |s|
    ensures k < |s| ==> s[k] == '.'
    ensures forall i :: 0 <= i < k ==> s[i] != '.'
  {
    if s == [] || s[0] == '.' then 0 else 1 + DotIndex(s[1..])
  }

  /** An unsigned decimal numeral: digits, optionally a point and more digits,
      with at least one digit in all ("7", "7.", ".5", "7.25"). */
  function ParseUnsigned(s: string): (r: Option<real>)
    ensures r.Some? ==> r.value >= 0.0
    ensures r.Some? ==> s != [] && forall i :: 0 <= i < |s| ==> IsDigit(s[i]) || s[i] == '.'
  {
    var k := DotIndex(s);
    var whole, frac := s[..k], if k < |s| then s[k + 1..] else [];
    if AllDigits(whole) && AllDigits(frac) && |whole| + |frac| > 0 then
      assert forall i :: k < i < |s| ==> s[i] == frac[i - k - 1];
      Some(DecimalValue(whole, frac))
    else None
  }

  /** The value of the numeral `whole.frac`. */
  function DecimalValue(whole: string, frac: string): (v: real)
    requires AllDigits(whole) && AllDigits(frac)
    ensures v >= 0.0
  {
    DigitsValue(whole) as real + DigitsValue(frac) as real / Pow10(|frac|) as real
  }

  /** `float(tok)` for a token without surrounding whitespace: an optional
      sign followed by an unsigned decimal numeral; anything else fails, as
      Python's `ValueError` does. */
  function ParseReal(tok: string): (r: Option<real>)
    ensures r.Some? ==> tok != [] && forall i :: 0 <= i < |tok| ==> IsNumeralChar(tok[i])
    ensures r.Some? && tok[0] != '-' ==> r.value >= 0.0
    ensures r.Some? && tok[0] == '-' ==> r.value <= 0.0
  {
    if tok != [] && (tok[0] == '+' || tok[0] == '-') then
      match ParseUnsigned(tok[1..])
      case None => None
      case Some(v) => Some(if tok[0] == '-' then -v else v)
    else ParseUnsigned(tok)
  }

  predicate IsNumeralChar(c: char) {
    IsDigit(c) || c == '.' || c == '+' || c == '-'
  }

  /** A string of digits reads as its decimal value. */
  lemma ParseDigits(s: string)
    requires s != [] && AllDigits(s)
    ensures ParseReal(s) == Some(DigitsValue(s) as real)
  {
    assert DotIndex(s) == |s|;
    assert s[..|s|] == s;
  }

  /** A numeral with a fraction, such as the example width "3.5". */
  lemma ParseFraction()
    ensures ParseReal("3.5") == Some(3.5)
  {
    assert DotIndex("3.5") == 1;
    assert "3.5"[..1] == "3" && "3.5"[2..] == "5";
    assert DigitsValue("3") == 3 && DigitsValue("5") == 5;
  }

  /** A minus sign negates the value of a numeral. */
  lemma ParseNegative(s: string)
    requires s != [] && AllDigits(s)
    ensures ParseReal("-" + s) == Some(-(DigitsValue(s) as real))
  {
    var t := "-" + s;
    assert t[0] == '-' && t[1..] == s;
    ParseDigits(s);
    assert ParseUnsigned(s) == Some(DigitsValue(s) as real);
  }
}
