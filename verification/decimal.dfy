/**
 * Python's decimal rendering of integers, as used by the format specifiers
 * `{:02d}`, `{:03d}` and `{:04d}`, and Python's `int(s)` on a string, which
 * the size comparison relies on.
 */
module Decimal {
  import opened Optional

  predicate IsDigit(c: char) { '0' <= c <= '9' }

  predicate AllDigits(s: string) { forall i :: 0 <= i < |s| ==> IsDigit(s[i]) }

  /** The whitespace `int()` skips around a number (the ASCII part of it). */
  predicate IsSpace(c: char) { c == ' ' || 9 <= c as int <= 13 }

  function DigitValue(c: char): (d: nat)
    requires IsDigit(c)
    ensures d < 10
  {
    c as int - '0' as int
  }

  function DigitChar(d: nat): (c: char)
    requires d < 10
    ensures IsDigit(c) && DigitValue(c) == d
  {
    ('0' as int + d) as char
  }

  function Pow10(k: nat): (p: nat)
    ensures p >= 1
  {
    if k == 0 then 1 else 10 * Pow10(k - 1)
  }

  /** `str(n)` for a natural number: its digits, without leading zeros. */
  function Digits(n: nat): (s: string)
    ensures |s| > 0 && AllDigits(s)
    ensures |s| > 1 ==> s[0] != '0'
  {
    if n < 10 then [DigitChar(n)] else Digits(n / 10) + [DigitChar(n % 10)]
  }

  function Zeros(k: nat): (s: string)
    ensures |s| == k && AllDigits(s)
  {
    seq(k, _ => '0')
  }

  /** Digits of `m`, with zeros in front up to `w` characters; never truncated. */
  function PadDigits(m: nat, w: nat): string
  {
    var d := Digits(m);
    if |d| < w then Zeros(w - |d|) + d else d
  }

  /**
   * `'{:0<w>d}'.format(n)`: the sign comes first and counts towards the
   * width, zeros fill the rest of the width, a longer number is kept whole.
   */
  function ZeroPad(n: int, w: nat): string
  {
    if n < 0 then "-" + PadDigits(-n, if w > 0 then w - 1 else 0) else PadDigits(n, w)
  }

  /** The field is never empty and holds only digits, after a '-' for a negative number. */
  lemma ZeroPadChars(n: int, w: nat)
    ensures var s := ZeroPad(n, w);
      && |s| > 0
      && (n >= 0 ==> AllDigits(s))
      && (n < 0 ==> s[0] == '-' && AllDigits(s[1..]))
  {
    if n < 0 {
      assert ZeroPad(n, w)[1..] == PadDigits(-n, if w > 0 then w - 1 else 0);
    }
  }

  /** The value of a string of decimal digits, leading zeros allowed. */
  function DigitsValue(s: string): nat
    requires AllDigits(s)
  {
    if s == [] then 0 else 10 * DigitsValue(s[..|s| - 1]) + DigitValue(s[|s| - 1])
  }

  function StripLeft(s: string): string
  {
    if |s| > 0 && IsSpace(s[0]) then StripLeft(s[1..]) else s
  }

  function StripRight(s: string): string
  {
    if |s| > 0 && IsSpace(s[|s| - 1]) then StripRight(s[..|s| - 1]) else s
  }

  /**
   * Python's `int(s)`: surrounding whitespace, an optional sign and at least
   * one decimal digit; anything else raises `ValueError`, modelled as `None`.
   */
  function ParseInt(s: string): Option<int>
  {
    var t := StripRight(StripLeft(s));
    if |t| > 0 && (t[0] == '+' || t[0] == '-') then
      var body := t[1..];
      if |body| > 0 && AllDigits(body) then
        var v: int := DigitsValue(body);
        Some(if t[0] == '-' then -v else v)
      else None
    else if |t| > 0 && AllDigits(t) then Some(DigitsValue(t))
    else None
  }

  /** `int()` of one character succeeds exactly on a digit, giving 0 to 9. */
  lemma ParseChar(c: char)
    ensures ParseInt([c]) == if IsDigit(c) then Some(DigitValue(c)) else None
  {
    if IsSpace(c) {
      assert [c][1..] == [];
      assert StripLeft([c]) == [];
    } else {
      assert StripRight(StripLeft([c])) == [c];
      assert [c][1..] == [] && [c][..0] == [];
      if IsDigit(c) {
        assert DigitsValue([c]) == DigitValue(c);
      }
    }
  }

  lemma {:induction false} DigitsValueAppend(a: string, b: string)
    requires AllDigits(a) && AllDigits(b)
    ensures AllDigits(a + b)
    ensures DigitsValue(a + b) == DigitsValue(a) * Pow10(|b|) + DigitsValue(b)
    decreases |b|
  {
    if b == [] {
      assert a + b == a;
    } else {
      var b' := b[..|b| - 1];
      assert (a + b)[..|a + b| - 1] == a + b';
      DigitsValueAppend(a, b');
      var last := DigitValue(b[|b| - 1]);
      assert DigitsValue(a + b) == 10 * DigitsValue(a + b') + last;
      assert DigitsValue(b) == 10 * DigitsValue(b') + last;
      ShiftDigit(DigitsValue(a), Pow10(|b'|), DigitsValue(b'), last);
    }
  }

  lemma ShiftDigit(x: int, p: int, y: int, d: int)
    ensures 10 * (x * p + y) + d == x * (10 * p) + (10 * y + d)
  {
  }

  lemma {:induction false} ZerosValue(k: nat)
    ensures DigitsValue(Zeros(k)) == 0
  {
    if k > 0 {
      assert Zeros(k)[..k - 1] == Zeros(k - 1);
      ZerosValue(k - 1);
    }
  }

  /** Reading back `str(n)` gives `n`. */
  lemma {:induction false} DigitsValueOfDigits(n: nat)
    ensures DigitsValue(Digits(n)) == n
  {
    if n >= 10 {
      var s := Digits(n);
      assert s[..|s| - 1] == Digits(n / 10);
      DigitsValueOfDigits(n / 10);
    }
  }

  /** Zeros in front do not change the value read back. */
  lemma PadDigitsValue(m: nat, w: nat)
    ensures AllDigits(PadDigits(m, w))
    ensures DigitsValue(PadDigits(m, w)) == m
  {
    var d := Digits(m);
    DigitsValueOfDigits(m);
    if |d| < w {
      DigitsValueAppend(Zeros(w - |d|), d);
      ZerosValue(w - |d|);
    }
  }

  lemma StripNoSpace(s: string)
    requires |s| > 0 && !IsSpace(s[0]) && !IsSpace(s[|s| - 1])
    ensures StripRight(StripLeft(s)) == s
  {
  }

  /** `int('{:0<w>d}'.format(n)) == n` for every integer `n` and width `w`. */
  lemma ParseZeroPad(n: int, w: nat)
    ensures ParseInt(ZeroPad(n, w)) == Some(n)
  {
    var s := ZeroPad(n, w);
    ZeroPadChars(n, w);
    StripNoSpace(s);
    if n < 0 {
      var w' := if w > 0 then w - 1 else 0;
      PadDigitsValue(-n, w');
      assert s[1..] == PadDigits(-n, w');
    } else {
      PadDigitsValue(n, w);
    }
  }

  /** `str(n)` fits in `w` characters exactly when `n < 10^w`. */
  lemma {:induction false} DigitsLength(n: nat, w: nat)
    requires w >= 1
    ensures |Digits(n)| <= w <==> n < Pow10(w)
  {
    if n >= 10 {
      if w == 1 {
        assert |Digits(n)| == |Digits(n / 10)| + 1;
      } else {
        DigitsLength(n / 10, w - 1);
      }
    }
  }

  /**
   * For `0 <= n`, the field `'{:0<w>d}'.format(n)` is exactly `w` characters
   * wide if and only if `n < 10^w`; wider numbers overflow the field.
   */
  lemma ZeroPadWidth(n: nat, w: nat)
    requires w >= 1
    ensures |ZeroPad(n, w)| == w <==> n < Pow10(w)
    ensures |ZeroPad(n, w)| >= w
  {
    DigitsLength(n, w);
    if |Digits(n)| > w {
      assert PadDigits(n, w) == Digits(n);
    }
  }

  /** Distinct integers never share a zero-padded rendering. */
  lemma ZeroPadInjective(a: int, b: int, w: nat)
    requires ZeroPad(a, w) == ZeroPad(b, w)
    ensures a == b
  {
    ParseZeroPad(a, w);
    ParseZeroPad(b, w);
  }
}
