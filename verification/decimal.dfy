/** Decimal text of integers, as the protocol and the stored counters use it. */
module Decimals {
  import opened ByteStrings

  predicate IsDigit(c: byte) { 48 <= c <= 57 }

  predicate AllDigits(s: Bytes) { forall i :: 0 <= i < |s| ==> IsDigit(s[i]) }

  function Digits(n: nat): (s: Bytes)
    ensures s != [] && AllDigits(s)
  {
    if n < 10 then [48 + n] else Digits(n / 10) + [48 + n % 10]
  }

  function DigitsValue(s: Bytes): nat
    requires AllDigits(s)
  {
    if s == [] then 0 else 10 * DigitsValue(s[..|s| - 1]) + (s[|s| - 1] - 48)
  }

  lemma {:induction false} DigitsRoundTrip(n: nat)
    ensures DigitsValue(Digits(n)) == n
  {
    var s := Digits(n);
    if n < 10 {
      assert s[..0] == [];
    } else {
      DigitsRoundTrip(n / 10);
      assert s[..|s| - 1] == Digits(n / 10);
    }
  }

  /** The text of an integer: a minus sign when it is negative, no leading zeros. */
  function IntText(n: int): (s: Bytes)
    ensures s != []
    ensures forall i :: 0 <= i < |s| ==> s[i] == 45 || IsDigit(s[i])
  {
    if n < 0 then [45] + Digits(-n) else Digits(n)
  }

  function InRange(n: int): Option<i64> {
    if -SIGN_BIT <= n < SIGN_BIT then Some(n) else None
  }

  /** A 64-bit integer read from text: one optional sign, then at least one digit and
      nothing else; a value out of range is refused. */
  function ParseI64(s: Bytes): Option<i64> {
    if s == [] then None
    else
      var signed := s[0] == 43 || s[0] == 45;
      var digits := if signed then s[1..] else s;
      if digits == [] || !AllDigits(digits) then None
      else if s[0] == 45 then InRange(0 - DigitsValue(digits))
      else InRange(DigitsValue(digits))
  }

  /** Integers are written in one way only: zero as one digit, no other text with a leading
      zero, and a minus sign exactly in front of negative ones. */
  lemma IntTextCanonical(n: int)
    ensures IntText(0) == [48]
    ensures IntText(n)[0] == 45 <==> n < 0
    ensures n > 0 ==> IntText(n)[0] != 48 && IntText(-n)[1..] == IntText(n)
  {
    if n > 0 { FirstDigit(n); }
    if n < 0 { FirstDigit(-n); }
  }

  lemma {:induction false} FirstDigit(n: nat)
    requires n > 0
    ensures Digits(n)[0] != 48
  {
    if n >= 10 { FirstDigit(n / 10); }
  }

  /** A plus sign and leading zeros make no difference, a sign alone is no number, and neither
      is text with another character. */
  lemma ParseForms(n: nat, s: Bytes, i: nat)
    ensures ParseI64([43] + Digits(n)) == ParseI64([48] + Digits(n)) == InRange(n)
    ensures ParseI64([]).None? && ParseI64([43]).None? && ParseI64([45]).None?
    ensures i < |s| && !('0' as int <= s[i] <= '9' as int) && !(i == 0 && s[i] in [43, 45]) ==> ParseI64(s).None?
  {
    hide Digits;
    DigitsRoundTrip(n);
    ZeroInFront(Digits(n));
    assert ([43] + Digits(n))[1..] == Digits(n);
    if i < |s| && !IsDigit(s[i]) {
      if s[0] == 43 || s[0] == 45 {
        if i > 0 { assert s[1..][i - 1] == s[i]; }
      }
    }
  }

  lemma {:induction false} ZeroInFront(s: Bytes)
    requires AllDigits(s)
    ensures AllDigits([48] + s) && DigitsValue([48] + s) == DigitsValue(s)
  {
    var t := [48] + s;
    if s == [] {
      assert t[..0] == [];
    } else {
      var n := |s| - 1;
      ZeroInFront(s[..n]);
      assert t[..n + 1] == [48] + s[..n] && t[n + 1] == s[n];
    }
  }

  /** Text reads back as the integer exactly when the integer fits 64 bits. */
  lemma IntTextRoundTrip(n: int)
    ensures ParseI64(IntText(n)) == InRange(n)
  {
    hide Digits, DigitsValue;
    if n < 0 {
      DigitsRoundTrip(-n);
      assert IntText(n)[1..] == Digits(-n);
    } else {
      DigitsRoundTrip(n);
      assert IsDigit(Digits(n)[0]);
    }
  }
}
