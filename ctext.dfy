/**
 * Text helpers shared by the C++ and Python code: the part of a C string a
 * `while (s[i])` loop visits, decimal digits, and decimal rendering of integers
 * (`std::to_string`, Python's `f"{n}"`).
 */
module CText {

  /** The characters before the first NUL: what `while (in[i]) ... i++` scans. */
  function CString(s: string): (t: string)
    ensures |t| <= |s| && t == s[..|t|]
    ensures forall i :: 0 <= i < |t| ==> t[i] != '\0'
    ensures |t| < |s| ==> s[|t|] == '\0'
  {
    if s == [] || s[0] == '\0' then [] else [s[0]] + CString(s[1..])
  }

  /** Every character is 7-bit, so a signed `char` used as an array index is never negative. */
  predicate Ascii(s: string)
  {
    forall i :: 0 <= i < |s| ==> s[i] as int < 128
  }

  predicate IsDigit(c: char)
  {
    '0' <= c <= '9'
  }

  predicate AllDigits(s: string)
  {
    forall i :: 0 <= i < |s| ==> IsDigit(s[i])
  }

  function DigitChar(d: int): (c: char)
    requires 0 <= d < 10
    ensures IsDigit(c) && c as int - '0' as int == d
  {
    ('0' as int + d) as char
  }

  /**
   * The accumulation `r = r * 10 + c - '0'` run over the characters of s,
   * whatever they are (the C++ loops do not check that c is a digit).
   */
  function Accumulate(r: int, s: string): int
    decreases |s|
  {
    if s == [] then r
    else Accumulate(r, s[..|s| - 1]) * 10 + (s[|s| - 1] as int - '0' as int)
  }

  /** The value of a string of decimal digits. */
  function DigitsValue(s: string): int
  {
    Accumulate(0, s)
  }

  /** Decimal rendering of a natural number without leading zeros (`std::to_string`, `f"{n}"`). */
  function NatToString(n: nat): (s: string)
    ensures |s| >= 1 && AllDigits(s)
    ensures |s| > 1 ==> s[0] != '0'
    ensures DigitsValue(s) == n
    decreases n
  {
    if n < 10 then
      var s := [DigitChar(n)];
      assert s[..0] == [] && Accumulate(0, []) == 0;
      assert Accumulate(0, s) == n;
      s
    else
      var init := NatToString(n / 10);
      var s := init + [DigitChar(n % 10)];
      assert s[..|s| - 1] == init;
      s
  }

  /** `std::to_string` of a possibly negative int. */
  function IntToString(n: int): (s: string)
    ensures n < 0 <==> (|s| > 0 && s[0] == '-')
  {
    if n < 0 then "-" + NatToString(-n) else NatToString(n)
  }

  function Pow10(k: nat): (p: nat)
    ensures p >= 1
  {
    if k == 0 then 1 else 10 * Pow10(k - 1)
  }

  /** A count already in the accumulator is shifted left by one decimal place per further character. */
  lemma {:induction false} AccumulateShift(r: int, s: string)
    ensures Accumulate(r, s) == r * Pow10(|s|) + DigitsValue(s)
    decreases |s|
  {
    if s != [] {
      var init := s[..|s| - 1];
      AccumulateShift(r, init);
      AccumulateShift(0, init);
      assert Pow10(|s|) == 10 * Pow10(|init|);
      calc {
        Accumulate(r, s);
        Accumulate(r, init) * 10 + (s[|s| - 1] as int - '0' as int);
        (r * Pow10(|init|) + DigitsValue(init)) * 10 + (s[|s| - 1] as int - '0' as int);
        r * (10 * Pow10(|init|)) + (DigitsValue(init) * 10 + (s[|s| - 1] as int - '0' as int));
      }
    }
  }

  /** The value of a non-empty digit string: its first digit, then the rest accumulated onto it. */
  lemma AccumulateSplit(ds: string)
    requires |ds| >= 1
    ensures Accumulate(ds[0] as int - '0' as int, ds[1..]) == DigitsValue(ds)
  {
    AccumulateShift(ds[0] as int - '0' as int, ds[1..]);
    AccumulateShift(0, ds);
    AccumulateShift(0, ds[1..]);
    assert Accumulate(0, [ds[0]]) == ds[0] as int - '0' as int by {
      assert [ds[0]][..0] == [];
    }
    AccumulateAppend(0, [ds[0]], ds[1..]);
    assert [ds[0]] + ds[1..] == ds;
  }

  /** Accumulating over a concatenation accumulates over the second part from where the first left off. */
  lemma {:induction false} AccumulateAppend(r: int, p: string, q: string)
    ensures Accumulate(r, p + q) == Accumulate(Accumulate(r, p), q)
    decreases |q|
  {
    if q == [] {
      assert p + q == p;
    } else {
      assert (p + q)[..|p + q| - 1] == p + q[..|q| - 1];
      AccumulateAppend(r, p, q[..|q| - 1]);
    }
  }

  /** Repetition of a string: `for (_ < n) out += p`, Python's `p * n`. */
  function RepeatText(p: string, n: nat): (r: string)
    ensures |r| == n * |p|
  {
    if n == 0 then [] else RepeatText(p, n - 1) + p
  }

  /** A non-empty repetition starts with the repeated text. */
  lemma {:induction false} RepeatTextPrefix(p: string, n: nat)
    requires n >= 1
    ensures RepeatText(p, n)[..|p|] == p
  {
    if n > 1 {
      RepeatTextPrefix(p, n - 1);
    }
  }
}
