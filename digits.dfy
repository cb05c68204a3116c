/**
 * Base-10 digit strings: reading them as numbers, and writing numbers as
 * Python's `str(n)` does (no leading zeros) or zero-padded to a fixed width.
 */
module Digits {

  predicate IsDigit(c: char) {
    '0' <= c <= '9'
  }

  predicate IsDigits(s: string) {
    forall i | 0 <= i < |s| :: IsDigit(s[i])
  }

  /** A digit string as `str(n)` writes it: non-empty, no leading zero unless it is "0". */
  predicate IsCanonical(s: string) {
    s != [] && IsDigits(s) && (s[0] == '0' ==> |s| == 1)
  }

  function Pow10(k: nat): (p: nat)
    ensures p >= 1
  {
    if k == 0 then 1 else 10 * Pow10(k - 1)
  }

  function DigitChar(d: nat): (c: char)
    requires d < 10
    ensures IsDigit(c)
  {
    ('0' as int + d) as char
  }

  /** The number a digit string denotes, most significant digit first. */
  function Value(s: string): (n: nat)
    requires IsDigits(s)
    ensures n < Pow10(|s|)
  {
    if s == [] then 0 else Value(s[..|s| - 1]) * 10 + (s[|s| - 1] as int - '0' as int)
  }

  /** `str(n)` for a natural number n. */
  function NatToString(n: nat): (s: string)
    ensures IsCanonical(s)
  {
    if n < 10 then [DigitChar(n)] else NatToString(n / 10) + [DigitChar(n % 10)]
  }

  /** n written with exactly w digits, keeping its w low-order digits. */
  function PadDigits(n: nat, w: nat): (s: string)
    ensures |s| == w && IsDigits(s)
  {
    if w == 0 then "" else PadDigits(n / 10, w - 1) + [DigitChar(n % 10)]
  }

  lemma ValueSnoc(s: string, c: char)
    requires IsDigits(s) && IsDigit(c)
    ensures IsDigits(s + [c]) && Value(s + [c]) == Value(s) * 10 + (c as int - '0' as int)
  {
    assert (s + [c])[..|s|] == s;
  }

  /** Reading back what NatToString writes gives the number. */
  lemma {:induction false} ValueOfNatToString(n: nat)
    ensures Value(NatToString(n)) == n
  {
    if n < 10 {
      assert NatToString(n)[..0] == [];
    } else {
      ValueOfNatToString(n / 10);
      ValueSnoc(NatToString(n / 10), DigitChar(n % 10));
    }
  }

  /** NatToString never writes the same text for two numbers. */
  lemma NatToStringInjective(m: nat, n: nat)
    requires NatToString(m) == NatToString(n)
    ensures m == n
  {
    ValueOfNatToString(m);
    ValueOfNatToString(n);
  }

  lemma {:induction false} ValuePositive(s: string)
    requires IsDigits(s) && s != [] && s[0] != '0'
    ensures Value(s) >= 1
  {
    if |s| > 1 {
      ValuePositive(s[..|s| - 1]);
    }
  }

  /** Writing the number a canonical digit string denotes gives the string back. */
  lemma {:induction false} NatToStringOfValue(s: string)
    requires IsCanonical(s)
    ensures NatToString(Value(s)) == s
  {
    if |s| > 1 {
      var p := s[..|s| - 1];
      var d := s[|s| - 1] as int - '0' as int;
      ValuePositive(p);
      NatToStringOfValue(p);
      assert Value(s) / 10 == Value(p) && Value(s) % 10 == d;
      assert DigitChar(d) == s[|s| - 1];
      assert s == p + [s[|s| - 1]];
    } else {
      assert Value(s) == Value(s[..0]) * 10 + (s[0] as int - '0' as int);
      assert [DigitChar(Value(s))] == s;
    }
  }

  /** Reading back a zero-padded number that fits in the width gives the number. */
  lemma {:induction false} ValueOfPadDigits(n: nat, w: nat)
    requires n < Pow10(w)
    ensures Value(PadDigits(n, w)) == n
  {
    if w > 0 {
      assert n / 10 < Pow10(w - 1);
      ValueOfPadDigits(n / 10, w - 1);
      ValueSnoc(PadDigits(n / 10, w - 1), DigitChar(n % 10));
    }
  }

  /** Zero-padding the value of a digit string to its own length gives the string back. */
  lemma {:induction false} PadDigitsOfValue(s: string)
    requires IsDigits(s)
    ensures PadDigits(Value(s), |s|) == s
  {
    if s != [] {
      var p := s[..|s| - 1];
      var d := s[|s| - 1] as int - '0' as int;
      PadDigitsOfValue(p);
      assert Value(s) / 10 == Value(p) && Value(s) % 10 == d;
      assert DigitChar(d) == s[|s| - 1];
      assert s == p + [s[|s| - 1]];
    }
  }

  /** v * 10^k, as k decimal shifts to the left. */
  function Shift(v: nat, k: nat): nat {
    if k == 0 then v else 10 * Shift(v, k - 1)
  }

  /** n / 10^k: n with its k low-order digits dropped. */
  function DropDigits(n: nat, k: nat): nat {
    if k == 0 then n else DropDigits(n / 10, k - 1)
  }

  lemma {:induction false} ShiftIsProduct(v: nat, k: nat)
    ensures Shift(v, k) == v * Pow10(k)
  {
    if k > 0 {
      ShiftIsProduct(v, k - 1);
      assert v * (10 * Pow10(k - 1)) == 10 * (v * Pow10(k - 1));
    }
  }

  /**
   * Writing f < 10^k as the k low digits below v: dropping those digits gives
   * v back, and padding to k keeps exactly f's digits.
   */
  lemma {:induction false} ShiftSplits(v: nat, f: nat, k: nat)
    requires f < Pow10(k)
    ensures DropDigits(Shift(v, k) + f, k) == v
    ensures PadDigits(Shift(v, k) + f, k) == PadDigits(f, k)
  {
    if k > 0 {
      var n := Shift(v, k) + f;
      assert n / 10 == Shift(v, k - 1) + f / 10 && n % 10 == f % 10;
      ShiftSplits(v, f / 10, k - 1);
    }
  }

  /** Shifting a positive number keeps it positive. */
  lemma {:induction false} ShiftPositive(v: nat, k: nat)
    requires v > 0
    ensures Shift(v, k) > 0
  {
    if k > 0 {
      ShiftPositive(v, k - 1);
    }
  }

  /** The digits PadDigits keeps and the ones it drops make up the whole number. */
  lemma {:induction false} PadDigitsSplitsNumber(n: nat, w: nat)
    ensures IsDigits(PadDigits(n, w))
    ensures Shift(DropDigits(n, w), w) + Value(PadDigits(n, w)) == n
  {
    if w > 0 {
      PadDigitsSplitsNumber(n / 10, w - 1);
      ValueSnoc(PadDigits(n / 10, w - 1), DigitChar(n % 10));
    }
  }
}
