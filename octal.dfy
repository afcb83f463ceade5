/** Octal text of a non-negative integer, as Python's `"%04o" % n` produces it. */
module Octal {

  /** The character for one octal digit. */
  function Digit(d: nat): (c: char)
    requires d < 8
    ensures '0' <= c <= '7'
    ensures (c as int) - ('0' as int) == d
  {
    (('0' as int) + d) as char
  }

  predicate IsOctal(s: string)
  {
    forall k :: 0 <= k < |s| ==> '0' <= s[k] <= '7'
  }

  /** The number an octal digit string denotes (most significant digit first). */
  function Value(s: string): nat
    requires IsOctal(s)
  {
    if s == [] then 0
    else Value(s[..|s| - 1]) * 8 + ((s[|s| - 1] as int) - ('0' as int))
  }

  /** The octal digits of `n` without leading zeros ("0" for zero), as Python's `%o`. */
  function Digits(n: nat): (s: string)
    ensures 1 <= |s|
    ensures IsOctal(s)
    decreases n
  {
    if n < 8 then [Digit(n)] else Digits(n / 8) + [Digit(n % 8)]
  }

  function Zeros(k: nat): (s: string)
    ensures |s| == k
    ensures forall j :: 0 <= j < k ==> s[j] == '0'
  {
    seq(k, _ => '0')
  }

  /** `"%04o" % n`: the octal digits of `n`, zero-padded on the left to at least four. */
  function Pad04(n: nat): (s: string)
    ensures IsOctal(s)
    ensures |s| >= 4
  {
    var d := Digits(n);
    if |d| < 4 then Zeros(4 - |d|) + d else d
  }

  lemma {:induction false} DigitsValue(n: nat)
    ensures Value(Digits(n)) == n
    decreases n
  {
    if n >= 8 {
      DigitsValue(n / 8);
      var s := Digits(n / 8) + [Digit(n % 8)];
      assert s[..|s| - 1] == Digits(n / 8);
    }
  }

  /** `n` has at most `k + 1` octal digits exactly when `n < 8^(k + 1)`. */
  lemma {:induction false} DigitsLength(n: nat, k: nat)
    ensures |Digits(n)| <= k + 1 <==> n < Pow8(k + 1)
    decreases n
  {
    if n >= 8 {
      if k > 0 {
        DigitsLength(n / 8, k - 1);
      } else {
        assert |Digits(n)| >= 2 by { assert |Digits(n)| == |Digits(n / 8)| + 1; }
      }
    } else {
      Pow8Positive(k);
      assert Pow8(k + 1) == 8 * Pow8(k);
    }
  }

  function Pow8(k: nat): nat
  {
    if k == 0 then 1 else 8 * Pow8(k - 1)
  }

  lemma {:induction false} Pow8Positive(k: nat)
    ensures Pow8(k) >= 1
  {
    if k > 0 { Pow8Positive(k - 1); }
  }

  /** Leading zeros do not change the value. */
  lemma {:induction false} ZerosValue(k: nat, s: string)
    requires IsOctal(s)
    ensures IsOctal(Zeros(k) + s)
    ensures Value(Zeros(k) + s) == Value(s)
    decreases |s|
  {
    var t := Zeros(k) + s;
    if s == [] {
      assert t == Zeros(k);
      ZerosOnly(k);
    } else {
      var s' := s[..|s| - 1];
      assert t[..|t| - 1] == Zeros(k) + s';
      ZerosValue(k, s');
    }
  }

  lemma {:induction false} ZerosOnly(k: nat)
    ensures IsOctal(Zeros(k))
    ensures Value(Zeros(k)) == 0
  {
    if k > 0 {
      assert Zeros(k)[..k - 1] == Zeros(k - 1);
      ZerosOnly(k - 1);
    }
  }

  /** `"%04o" % n` denotes `n`, and is exactly four digits long precisely when `n < 4096`. */
  lemma Pad04Correct(n: nat)
    ensures Value(Pad04(n)) == n
    ensures |Pad04(n)| >= 4
    ensures |Pad04(n)| == 4 <==> n < 4096
  {
    DigitsValue(n);
    DigitsLength(n, 3);
    var d := Digits(n);
    if |d| < 4 {
      ZerosValue(4 - |d|, d);
    }
  }
}
