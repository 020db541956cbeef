/** Decimal rendering and reading of integers, as Python's `str` and `int` do for plain digits. */
module Text {

  /** The digit character for 0..9. */
  function DigitChar(d: nat): char
    requires d < 10
  {
    "0123456789"[d]
  }

  predicate IsDigit(c: char) {
    '0' <= c <= '9'
  }

  predicate AllDigits(s: string) {
    forall i :: 0 <= i < |s| ==> IsDigit(s[i])
  }

  /** Decimal digits of `n` without leading zeros (`str(n)` for n >= 0). */
  function NatToString(n: nat): (s: string)
    ensures |s| >= 1
    ensures forall i :: 0 <= i < |s| ==> IsDigit(s[i])
    ensures n >= 1 ==> s[0] != '0'
    decreases n
  {
    if n < 10 then [DigitChar(n)] else NatToString(n / 10) + [DigitChar(n % 10)]
  }

  /** `str(i)` for any integer: a leading '-' for negatives. */
  function IntToString(i: int): string {
    if i < 0 then "-" + NatToString(-i) else NatToString(i)
  }

  /** The value of a string of decimal digits (0 for the empty string). */
  function ParseDigits(s: string): nat
    requires forall i :: 0 <= i < |s| ==> IsDigit(s[i])
  {
    if |s| == 0 then 0
    else
      assert IsDigit(s[|s| - 1]);
      ParseDigits(s[..|s| - 1]) * 10 + ((s[|s| - 1] as int) - ('0' as int))
  }

  /** Reading back the digits of `n` gives `n`. */
  lemma {:induction false} ParseNatToString(n: nat)
    ensures ParseDigits(NatToString(n)) == n
    decreases n
  {
    var s := NatToString(n);
    if n >= 10 {
      ParseNatToString(n / 10);
      assert s[..|s| - 1] == NatToString(n / 10);
    }
  }

  /** Python's `s[-2:]`: the last two characters, or all of a shorter string. */
  function LastTwo(s: string): (r: string)
    ensures |r| == if |s| < 2 then |s| else 2
    ensures r == s[|s| - |r|..]
  {
    if |s| < 2 then s else s[|s| - 2..]
  }

  /** The last two characters of `str(n)` for `n >= 10` are the digits of `n % 100`. */
  lemma LastTwoDigits(n: nat)
    requires n >= 10
    ensures var s := LastTwo(NatToString(n));
      && |s| == 2 && IsDigit(s[0]) && IsDigit(s[1])
      && ParseDigits(s) == n % 100
  {
    var hi := NatToString(n / 10);
    var units := n % 10;
    assert NatToString(n) == hi + [DigitChar(units)];
    LastDigit(n / 10);
    LastTwoOfAppend(hi, DigitChar(units));
    ParseTwoDigits((n / 10) % 10, units);
    TensAndUnits(n);
  }

  /** The last two characters of a non-empty string extended by `c`. */
  lemma LastTwoOfAppend(hi: string, c: char)
    requires |hi| >= 1
    ensures LastTwo(hi + [c]) == [hi[|hi| - 1], c]
  {
  }

  /** Reading two digit characters gives tens and units. */
  lemma ParseTwoDigits(tens: nat, units: nat)
    requires tens < 10 && units < 10
    ensures IsDigit(DigitChar(tens)) && IsDigit(DigitChar(units))
    ensures ParseDigits([DigitChar(tens), DigitChar(units)]) == tens * 10 + units
  {
    var t := [DigitChar(tens), DigitChar(units)];
    DigitValue(tens);
    DigitValue(units);
    assert t[..1] == [DigitChar(tens)];
    assert [DigitChar(tens)][..0] == [];
    assert ParseDigits([DigitChar(tens)]) == tens;
  }

  /** Reading a digit character back gives its value. */
  lemma DigitValue(d: nat)
    requires d < 10
    ensures IsDigit(DigitChar(d))
    ensures (DigitChar(d) as int) - ('0' as int) == d
  {
    if d == 0 {} else if d == 1 {} else if d == 2 {} else if d == 3 {} else if d == 4 {}
    else if d == 5 {} else if d == 6 {} else if d == 7 {} else if d == 8 {} else {}
  }

  /** The last character of `str(n)` is the digit of `n % 10`. */
  lemma LastDigit(n: nat)
    ensures NatToString(n)[|NatToString(n)| - 1] == DigitChar(n % 10)
  {
  }

  lemma TensAndUnits(n: nat)
    ensures n % 100 == ((n / 10) % 10) * 10 + n % 10
  {
  }
}
