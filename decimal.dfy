/**
 Decimal text of JVM integers: `Int.toString()` and Kotlin's `String.toInt()`,
 used for the width and height arguments of FRAME_REQUEST and FRAME.
 */
module Decimal {
  import opened Base

  predicate IsDigit(c: char) {
    '0' <= c <= '9'
  }

  predicate AllDigits(s: string) {
    forall i :: 0 <= i < |s| ==> IsDigit(s[i])
  }

  function DigitChar(d: nat): (c: char)
    requires d < 10
    ensures IsDigit(c) && (c as int) - ('0' as int) == d
  {
    (('0' as int) + d) as char
  }

  /** Decimal digits of a natural number, most significant first, no leading zero. */
  function NatToString(n: nat): string
    decreases n
  {
    if n < 10 then [DigitChar(n)] else NatToString(n / 10) + [DigitChar(n % 10)]
  }

  /** `Int.toString()`: a minus sign for negative numbers, then the digits. */
  function IntToString(n: int): (r: string)
    ensures |r| >= 1 && (r[0] == '-' <==> n < 0)
    ensures AllDigits(if n < 0 then r[1..] else r)
  {
    NatToStringDigits(if n < 0 then -n else n);
    if n < 0 then
      assert ("-" + NatToString(-n))[1..] == NatToString(-n);
      "-" + NatToString(-n)
    else NatToString(n)
  }

  /** Value of a string of decimal digits, read left to right. */
  function DigitsValue(s: string): nat
    requires AllDigits(s)
    decreases |s|
  {
    if |s| == 0 then 0
    else DigitsValue(s[..|s| - 1]) * 10 + ((s[|s| - 1] as int) - ('0' as int))
  }

  /**
   `String.toInt()`: an optional leading `-` or `+`, then at least one digit,
   and a value inside the `Int` range; anything else is a
   `NumberFormatException`, here `None`.
   */
  function ToInt(s: string): (r: Option<int>)
    ensures r.Some? ==> IsInt32(r.value)
  {
    if |s| == 0 then None
    else
      var negative := s[0] == '-';
      var start := if s[0] == '-' || s[0] == '+' then 1 else 0;
      var digits := s[start..];
      if |digits| == 0 || !AllDigits(digits) then None
      else
        var m: int := DigitsValue(digits);
        var v := if negative then -m else m;
        if IsInt32(v) then Some(v) else None
  }

  lemma {:induction false} NatToStringDigits(n: nat)
    ensures |NatToString(n)| >= 1
    ensures AllDigits(NatToString(n))
    ensures DigitsValue(NatToString(n)) == n
    decreases n
  {
    if n >= 10 {
      NatToStringDigits(n / 10);
      var a := NatToString(n / 10);
      var s := a + [DigitChar(n % 10)];
      assert s[..|s| - 1] == a;
    }
  }

  /** `toInt` undoes `toString` on every `Int`. */
  lemma IntRoundTrip(n: int)
    requires IsInt32(n)
    ensures ToInt(IntToString(n)) == Some(n)
  {
    var s := IntToString(n);
    if n < 0 {
      var t := NatToString(-n);
      NatToStringDigits(-n);
      assert s[0] == '-' && s[1..] == t;
    } else {
      NatToStringDigits(n);
      assert IsDigit(s[0]) && s[0..] == s;
    }
  }

  /** The decimal text of an `Int` is a single word: it holds no space. */
  lemma IntToStringHasNoSpace(n: int)
    ensures ' ' !in IntToString(n)
  {
    var d := if n < 0 then -n else n;
    NatToStringDigits(d);
    if n < 0 {
      assert forall i :: 1 <= i < |IntToString(n)| ==> IntToString(n)[i] == NatToString(d)[i - 1];
    }
  }

  /** Ten to the power `k`. */
  function Pow10(k: nat): nat {
    if k == 0 then 1 else 10 * Pow10(k - 1)
  }

  /** A number below `10^k` has at most `k + 1` digits. */
  lemma {:induction false} NatToStringLength(n: nat, k: nat)
    requires n < Pow10(k)
    ensures |NatToString(n)| <= k + 1
    decreases n
  {
    if n >= 10 {
      assert k >= 1;
      assert n / 10 < Pow10(k - 1);
      NatToStringLength(n / 10, k - 1);
    }
  }

  /** The decimal text of an `Int` is at most twelve characters long. */
  lemma IntToStringLength(n: int)
    requires IsInt32(n)
    ensures |IntToString(n)| <= 12
  {
    assert Pow10(10) == 10000000000;
    NatToStringLength(if n < 0 then -n else n, 10);
  }
}
