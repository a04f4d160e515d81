/** Decimal notation, and the reversed-digit buffer that produces it. */
module Decimal {
  import opened Bytes

  function Digit(d: nat): char
    requires d < 10
  {
    '0' + d as char
  }

  function Digits(v: nat): (s: string)
    ensures s != ""
  {
    if v < 10 then [Digit(v)] else Digits(v / 10) + [Digit(v % 10)]
  }

  /** The number a decimal string denotes. */
  function ReadBack(s: string): nat
    requires forall i :: 0 <= i < |s| ==> '0' <= s[i] <= '9'
  {
    if s == "" then 0 else 10 * ReadBack(s[..|s| - 1]) + (s[|s| - 1] - '0') as nat
  }

  function Pow10(n: nat): nat {
    if n == 0 then 1 else 10 * Pow10(n - 1)
  }

  /** The digits denote the number, and there is no leading zero. */
  lemma {:induction false} DigitsDenote(v: nat)
    ensures forall i :: 0 <= i < |Digits(v)| ==> '0' <= Digits(v)[i] <= '9'
    ensures ReadBack(Digits(v)) == v
    ensures Digits(v)[0] == '0' <==> v == 0
  {
    if v < 10 {
      assert [Digit(v)][..0] == "";
    } else {
      DigitsDenote(v / 10);
      assert Digits(v)[..|Digits(v)| - 1] == Digits(v / 10);
    }
  }

  /** The digits are as few as the size of the number allows. */
  lemma {:induction false} DigitCount(v: nat, n: nat)
    requires 0 < n
    ensures |Digits(v)| <= n <==> v < Pow10(n)
    decreases n
  {
    if 1 < n {
      if v >= 10 { DigitCount(v / 10, n - 1); }
      PowPositive(n - 1);
    }
  }

  lemma {:induction false} PowPositive(n: nat)
    ensures 0 < Pow10(n)
  {
    if n > 0 { PowPositive(n - 1); }
  }

  /** At most 10 digits for 32 bits and 20 for 64, and both can occur. */
  lemma WordDigits()
    ensures forall v: Word32 :: |Digits(v)| <= 10
    ensures forall v: Word :: |Digits(v)| <= 20
    ensures |Digits(0xFFFF_FFFF)| == 10 && |Digits(WORD_LIMIT - 1)| == 20
  {
    assert Pow10(9) == 1_000_000_000 && Pow10(10) == 10_000_000_000;
    assert Pow10(15) == 1_000_000_000_000_000;
    assert Pow10(19) == 10_000_000_000_000_000_000 && Pow10(20) == 100_000_000_000_000_000_000;
    forall v: Word32 ensures |Digits(v)| <= 10 { DigitCount(v, 10); }
    forall v: Word ensures |Digits(v)| <= 20 { DigitCount(v, 20); }
    DigitCount(0xFFFF_FFFF, 9);
    DigitCount(WORD_LIMIT - 1, 19);
  }

  function Reversed(s: string): (r: string)
    ensures |r| == |s|
  {
    if s == "" then "" else Reversed(s[1..]) + [s[0]]
  }

  lemma {:induction false} ReversedAppend(s: string, c: char)
    ensures Reversed(s + [c]) == [c] + Reversed(s)
  {
    if s == "" {
      assert s + [c] == [c];
    } else {
      assert (s + [c])[1..] == s[1..] + [c];
      ReversedAppend(s[1..], c);
    }
  }
}
