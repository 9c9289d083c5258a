/** Decimal rendering of integers as .NET's `int.ToString()` and the
    composite format `{n:Dw}` produce it (minimum width `w`, zero padding on
    the left, never truncated, a leading '-' for negative values), with a
    parser as its partner. */
module Decimal {
  import opened Wrappers

  predicate IsDigit(c: char) {
    '0' <= c <= '9'
  }

  predicate AllDigits(s: string) {
    forall i :: 0 <= i < |s| ==> IsDigit(s[i])
  }

  function DigitChar(d: nat): (c: char)
    requires d < 10
    ensures IsDigit(c) && c as int - '0' as int == d
  {
    (d + '0' as int) as char
  }

  /** The shortest decimal numeral of `n`: never empty, no leading zero. */
  function Digits(n: nat): (r: string)
    ensures |r| >= 1 && AllDigits(r)
    ensures |r| == 1 || r[0] != '0'
  {
    if n < 10 then [DigitChar(n)] else Digits(n / 10) + [DigitChar(n % 10)]
  }

  /** The value of a numeral, leading zeros allowed. */
  function Value(s: string): nat
    requires AllDigits(s)
  {
    if s == [] then 0 else 10 * Value(s[..|s| - 1]) + (s[|s| - 1] as int - '0' as int)
  }

  lemma {:induction false} ValueOfDigits(n: nat)
    ensures Value(Digits(n)) == n
  {
    if n >= 10 {
      var d := Digits(n);
      assert d[..|d| - 1] == Digits(n / 10);
      ValueOfDigits(n / 10);
    }
  }

  function Zeros(k: nat): (r: string)
    ensures |r| == k && AllDigits(r)
    ensures forall i :: 0 <= i < k ==> r[i] == '0'
  {
    if k == 0 then [] else Zeros(k - 1) + "0"
  }

  lemma DigitsConcat(a: string, b: string)
    requires AllDigits(a) && AllDigits(b)
    ensures AllDigits(a + b)
  {
    forall i | 0 <= i < |a + b| ensures IsDigit((a + b)[i]) {
      if i < |a| {
        assert (a + b)[i] == a[i];
      } else {
        assert (a + b)[i] == b[i - |a|];
      }
    }
  }

  lemma {:induction false} ValueOfZeros(k: nat)
    ensures Value(Zeros(k)) == 0
  {
    if k > 0 {
      assert Zeros(k)[..k - 1] == Zeros(k - 1);
      ValueOfZeros(k - 1);
    }
  }

  /** Leading zeros do not change the value of a numeral. */
  lemma {:induction false} ValueAfterZeros(k: nat, s: string)
    requires AllDigits(s)
    ensures AllDigits(Zeros(k) + s) && Value(Zeros(k) + s) == Value(s)
    decreases |s|
  {
    DigitsConcat(Zeros(k), s);
    var t := Zeros(k) + s;
    if s == [] {
      assert t == Zeros(k);
      ValueOfZeros(k);
    } else {
      var s' := s[..|s| - 1];
      assert t[..|t| - 1] == Zeros(k) + s';
      assert t[|t| - 1] == s[|s| - 1];
      ValueAfterZeros(k, s');
    }
  }

  /** Left-pads a numeral with zeros to at least `w` characters. */
  function PadZeros(s: string, w: nat): string {
    if |s| < w then Zeros(w - |s|) + s else s
  }

  /** `n.ToString("D" + w)`: at least `w` digits, zero-padded, never
      truncated, with a '-' in front of a negative value. */
  function FormatD(n: int, w: nat): (r: string)
    ensures n >= 0 ==> AllDigits(r) && |r| == if |Digits(n)| < w then w else |Digits(n)|
    ensures n < 0 ==> |r| >= 2 && r[0] == '-' && AllDigits(r[1..])
  {
    if n < 0 then "-" + PadZeros(Digits(-n), w) else PadZeros(Digits(n), w)
  }

  function Pow10(w: nat): nat {
    if w == 0 then 1 else 10 * Pow10(w - 1)
  }

  /** A number below 10^w needs at most `w` digits, so `{n:Dw}` renders it
      in exactly `w` characters. */
  lemma {:induction false} DigitsFit(n: nat, w: nat)
    requires 1 <= w && n < Pow10(w)
    ensures |Digits(n)| <= w
    ensures |FormatD(n, w)| == w
  {
    if n >= 10 {
      assert w >= 2;
      DigitsFit(n / 10, w - 1);
    }
  }

  /** `n.ToString()`: the plain numeral. */
  function Show(n: int): string {
    FormatD(n, 0)
  }

  /** Reads an optional '-' followed by one or more decimal digits. */
  function ParseInt(s: string): Option<int> {
    if |s| >= 2 && s[0] == '-' && AllDigits(s[1..]) then var v: int := Value(s[1..]); Some(-v)
    else if |s| >= 1 && AllDigits(s) then Some(Value(s))
    else None
  }

  lemma PaddedValue(m: nat, w: nat)
    ensures var p := PadZeros(Digits(m), w);
      |p| >= 1 && AllDigits(p) && Value(p) == m
  {
    var d := Digits(m);
    ValueOfDigits(m);
    if |d| < w {
      ValueAfterZeros(w - |d|, d);
    }
  }

  /** Formatting then parsing gives back the number, whatever the width:
      the zero padding never loses or changes a digit. */
  lemma FormatRoundTrip(n: int, w: nat)
    ensures ParseInt(FormatD(n, w)) == Some(n)
  {
    var m := if n < 0 then -n else n;
    var p := PadZeros(Digits(m), w);
    PaddedValue(m, w);
    if n < 0 {
      var s := FormatD(n, w);
      assert s == "-" + p;
      assert s[1..] == p;
    } else {
      assert p[0] != '-' by {
        assert IsDigit(p[0]);
      }
    }
  }
}
