// Decimal digit sequences: their values, their suffixes, and the texts printf makes of numbers.
module Digits {
  import opened CText

  function Pow10(n: nat): (p: nat)
    ensures p >= 1
  {
    if n == 0 then 1 else 10 * Pow10(n - 1)
  }

  lemma {:induction false} Pow10Add(a: nat, b: nat)
    ensures Pow10(a + b) == Pow10(a) * Pow10(b)
  {
    if a > 0 {
      Pow10Add(a - 1, b);
      assert Pow10(a) == 10 * Pow10(a - 1) && Pow10(a + b) == 10 * Pow10(a - 1 + b);
      hide Pow10;
      TenTimes(Pow10(a - 1), Pow10(b));
    }
  }

  lemma TenTimes(x: int, y: int)
    ensures 10 * (x * y) == (10 * x) * y
  {
  }

  /** The value of a sequence of nibbles, read as decimal digits. */
  function Value(s: seq<bv8>): nat
  {
    if s == [] then 0 else 10 * Value(s[..|s| - 1]) + (s[|s| - 1] as int)
  }

  predicate AreDigits(s: seq<bv8>) { forall i :: 0 <= i < |s| ==> s[i] < 10 }

  lemma {:induction false} ValueBound(s: seq<bv8>)
    requires AreDigits(s)
    ensures Value(s) < Pow10(|s|)
  {
    if s != [] {
      ValueBound(s[..|s| - 1]);
    }
  }

  lemma Distribute(x: int, p: int, v: int, l: int)
    ensures 10 * (x * p + v) + l == x * (10 * p) + (10 * v + l)
  {
  }

  lemma ValueSnoc(s: seq<bv8>, l: bv8)
    ensures Value(s + [l]) == 10 * Value(s) + (l as int)
  {
    assert (s + [l])[..|s|] == s;
  }

  lemma {:induction false} ValueAppend(a: seq<bv8>, b: seq<bv8>)
    ensures Value(a + b) == Value(a) * Pow10(|b|) + Value(b)
  {
    if b == [] {
      assert a + b == a;
    } else {
      var front, last := b[..|b| - 1], b[|b| - 1];
      ValueAppend(a, front);
      ValueSnoc(a + front, last);
      ValueSnoc(front, last);
      assert a + b == a + front + [last] && b == front + [last];
      var x, p, v := Value(a), Pow10(|front|), Value(front);
      assert Pow10(|b|) == 10 * p;
      hide Value, Pow10;
      Distribute(x, p, v, last as int);
    }
  }

  lemma SmallMultiple(k: int, p: int)
    requires -p < k * p < p
    ensures k == 0
  {
    assert k >= 1 ==> k * p >= p;
    assert k <= -1 ==> k * p <= -p;
  }

  /** Quotient and remainder are unique. */
  lemma ModUnique(x: nat, p: nat, q: nat, r: nat)
    requires p > 0 && x == q * p + r && r < p
    ensures x % p == r && x / p == q
  {
    var d, e := x / p, x % p;
    assert x == d * p + e;
    assert (d - q) * p == r - e;
    SmallMultiple(d - q, p);
  }

  lemma DivNat(n: nat, p: nat)
    requires p > 0
    ensures n / p >= 0 && 0 <= n % p < p
  {
    var q: int := n / p;
    assert n == q * p + n % p;
    assert q <= -1 ==> q * p + p <= 0;
  }

  /** The number the last k digits of n make. */
  function LastDigits(n: nat, k: nat): (r: nat)
    ensures r < Pow10(k)
    ensures r == n <==> n < Pow10(k)
  {
    DivNat(n, Pow10(k));
    assert n < Pow10(k) ==> n % Pow10(k) == n by {
      if n < Pow10(k) { ModUnique(n, Pow10(k), 0, n); }
    }
    n % Pow10(k)
  }

  /** The last k digits are the value modulo 10^k. */
  lemma ValueSuffix(s: seq<bv8>, k: nat)
    requires AreDigits(s) && k <= |s|
    ensures Value(s[|s| - k..]) == LastDigits(Value(s), k)
  {
    var a, b := s[..|s| - k], s[|s| - k..];
    assert s == a + b;
    ValueAppend(a, b);
    ValueBound(b);
    ModUnique(Value(s), Pow10(k), Value(a), Value(b));
  }

  lemma {:induction false} ValueZeros(n: nat, s: seq<bv8>)
    ensures Value(seq(n, _ => 0) + s) == Value(s)
  {
    var zeros := seq(n, _ => 0 as bv8);
    ValueAppend(zeros, s);
    ZerosValue(n);
  }

  lemma {:induction false} ZerosValue(n: nat)
    ensures Value(seq(n, _ => 0 as bv8)) == 0
  {
    if n > 0 {
      ZerosValue(n - 1);
      assert seq(n, _ => 0 as bv8)[..n - 1] == seq(n - 1, _ => 0 as bv8);
    }
  }

  // Characters to nibbles.

  /** `c - '0'` in an unsigned char. */
  function Minus0(c: char): bv8 { ((c as int + 208) % 256) as bv8 }

  function Nibbles(s: string): (r: seq<bv8>)
    ensures |r| == |s| && forall i :: 0 <= i < |s| ==> r[i] == Minus0(s[i]) & 0x0f
  {
    seq(|s|, i requires 0 <= i < |s| => Minus0(s[i]) & 0x0f)
  }

  lemma SmallNibble(d: nat)
    requires d < 10
    ensures (d as bv8) as int == d && d as bv8 < 10 && (d as bv8) & 0x0f == d as bv8
  {
    if d < 5 {
      assert d == 0 || d == 1 || d == 2 || d == 3 || d == 4;
    } else {
      assert d == 5 || d == 6 || d == 7 || d == 8 || d == 9;
    }
  }

  lemma DigitNibble(c: char)
    requires IsDigit(c)
    ensures Minus0(c) as int == DigitValue(c) && Minus0(c) < 10 && Minus0(c) & 0x0f == Minus0(c)
  {
    assert (c as int + 208) % 256 == DigitValue(c);
    SmallNibble(DigitValue(c));
  }

  lemma {:induction false} NibblesValue(s: string)
    requires AllDigits(s)
    ensures AreDigits(Nibbles(s)) && Value(Nibbles(s)) == DigitsValue(s)
  {
    if s != [] {
      NibblesValue(s[..|s| - 1]);
      DigitNibble(s[|s| - 1]);
      assert Nibbles(s)[..|s| - 1] == Nibbles(s[..|s| - 1]);
      forall i | 0 <= i < |s| ensures Nibbles(s)[i] < 10 {
        DigitNibble(s[i]);
      }
    }
  }

  // printf.

  /** Zeros in front, up to the width w. */
  function PadLeft(s: string, w: int): (r: string)
    ensures |r| == if w > |s| then w else |s|
  {
    seq(if w > |s| then w - |s| else 0, _ => '0') + s
  }

  /** "%0wd" of n: zero-padded to w characters, the sign first. */
  function Decimal(n: int, w: nat): string
  {
    if n < 0 then ['-'] + PadLeft(Dec(-n), w - 1) else PadLeft(Dec(n), w)
  }

  function FixedText(whole: nat, frac: nat, m: nat, w: nat): string
  {
    PadLeft(if m == 0 then Dec(whole) else Dec(whole) + ['.'] + PadLeft(Dec(frac), m), w)
  }

  /** "%0w.mlf" of n / 10^m: n is the magnitude scaled by 10^m and rounded to an integer. */
  function Fixed(n: nat, m: nat, w: nat): string
  {
    var p := Pow10(m);
    DivNat(n, p);
    FixedText(n / p, n % p, m, w)
  }

  lemma NibblesAppend(a: string, b: string)
    ensures Nibbles(a + b) == Nibbles(a) + Nibbles(b)
  {
    hide Minus0;
  }

  lemma {:induction false} DigitsValueAppend(a: string, b: string)
    requires AllDigits(a) && AllDigits(b)
    ensures AllDigits(a + b) && DigitsValue(a + b) == DigitsValue(a) * Pow10(|b|) + DigitsValue(b)
  {
    hide Value, Pow10, DigitsValue, Nibbles;
    NibblesValue(a);
    NibblesValue(b);
    NibblesValue(a + b);
    NibblesAppend(a, b);
    ValueAppend(Nibbles(a), Nibbles(b));
  }

  lemma {:induction false} ZeroDigits(n: nat)
    ensures var z := seq(n, _ => '0'); AllDigits(z) && DigitsValue(z) == 0
  {
    if n > 0 {
      ZeroDigits(n - 1);
      var z := seq(n, _ => '0');
      assert z[..n - 1] == seq(n - 1, _ => '0');
    }
  }

  lemma PadLeftDigits(s: string, w: int)
    requires AllDigits(s)
    ensures AllDigits(PadLeft(s, w)) && DigitsValue(PadLeft(s, w)) == DigitsValue(s)
  {
    hide DigitsValue;
    var n := if w > |s| then w - |s| else 0;
    ZeroDigits(n);
    DigitsValueAppend(seq(n, _ => '0'), s);
  }

  lemma {:induction false} DecLength(n: nat, k: nat)
    ensures |Dec(n)| <= k <==> k > 0 && n < Pow10(k)
    decreases n
  {
    if n < 10 {
      if k > 0 {
        assert Pow10(k) >= 10 by { assert Pow10(k) == 10 * Pow10(k - 1); }
      }
    } else if k == 0 {
    } else {
      DecLength(n / 10, k - 1);
      assert Pow10(k) == 10 * Pow10(k - 1);
      if k == 1 {
        assert Pow10(0) == 1;
      }
    }
  }
}
