// Reading back packed and zoned decimal fields: what returns, and exactly when it is what was written.
module DecimalRoundTrip {
  import opened CText
  import opened Digits
  import opened ParmBuffer

  function Signed(negative: bool, x: real): real { if negative then -x else x }

  /** The nibbles in front of the sign: zeros, the digits, and one more zero if they end low. */
  lemma PackedNibbles(l: seq<bv8>, leng: nat, digits: seq<bv8>, negative: bool)
    requires IsPacked(l, leng, digits, negative) && AreDigits(digits)
    ensures var s, j, next := AllNibbles(l), SignAt(leng, |digits|), Start(leng) + |digits|;
            && SignPos(s) == j && s[j] == SignNibble(negative)
            && s[..j] == seq(Start(leng), _ => 0 as bv8) + digits + if j == next then [] else [0]
  {
    hide Nibble;
    var s, j := AllNibbles(l), SignAt(leng, |digits|);
    forall k | 0 <= k < j ensures !IsSign(s[k]) {
      assert s[k] == Nibble(l, k);
    }
    SignPosIs(s, j);
  }

  lemma PackedValue(l: seq<bv8>, leng: nat, digits: seq<bv8>, negative: bool)
    requires IsPacked(l, leng, digits, negative) && AreDigits(digits)
    ensures var s, j := AllNibbles(l), SignAt(leng, |digits|);
            Value(s[..j]) == if (Start(leng) + |digits|) % 2 == 1 then Value(digits) else 10 * Value(digits)
  {
    hide Value, IsPacked;
    PackedNibbles(l, leng, digits, negative);
    var zeros := seq(Start(leng), _ => 0 as bv8);
    ValueZeros(Start(leng), digits);
    if (Start(leng) + |digits|) % 2 == 1 {
      assert zeros + digits + [] == zeros + digits;
    } else {
      ValueSnoc(zeros + digits, 0);
    }
  }

  lemma PackedSign(l: seq<bv8>, leng: nat, digits: seq<bv8>, negative: bool)
    requires IsPacked(l, leng, digits, negative)
    ensures SignAt(leng, |digits|) < 20 == 2 * |l|
  {
  }

  lemma PowZero()
    ensures Pow10(0) == 1
  {
  }

  /** v with its last m digits behind the point. */
  function OverPow(v: nat, m: nat): real { v as real / Pow10(m) as real }

  lemma UnpackAt(l: seq<bv8>, m: nat, j: nat)
    requires j == SignPos(AllNibbles(l)) < 2 * |l| && m <= j
    ensures var s := AllNibbles(l); Unpack(l, m) == Signed(s[j] == 13, OverPow(Value(s[..j]), m))
  {
    hide AllNibbles, SignPos, Value, Pow10;
  }

  /** ReadPack on what WritePack wrote: the last leng digits of the rounded number with its m
      decimals; without decimals the digits stand one place too high. */
  lemma PackedRoundTrip(l: seq<bv8>, leng: nat, m: nat, n: nat, negative: bool)
    requires m < leng && |Fixed(n, m, leng + 1)| >= leng + 1
    requires IsPacked(l, leng, PackDigits(Fixed(n, m, leng + 1), leng), negative)
    ensures Unpack(l, m) == Signed(negative,
              if m == 0 then (10 * LastDigits(n, leng + 1)) as real else LastDigits(n, leng) as real / Pow10(m) as real)
  {
    hide *;
    PackedReads(l, leng, m, n, negative);
    OverPowIs(LastDigits(n, leng), m);
    OverPowIs(10 * LastDigits(n, leng + 1), 0);
    PowZero();
    OverOne(10 * LastDigits(n, leng + 1));
  }

  lemma PackedReads(l: seq<bv8>, leng: nat, m: nat, n: nat, negative: bool)
    requires m < leng && |Fixed(n, m, leng + 1)| >= leng + 1
    requires IsPacked(l, leng, PackDigits(Fixed(n, m, leng + 1), leng), negative)
    ensures Unpack(l, m) == Signed(negative, OverPow(if m == 0 then 10 * LastDigits(n, leng + 1) else LastDigits(n, leng), m))
  {
    hide *;
    var digits := PackDigits(Fixed(n, m, leng + 1), leng);
    PrintedDigits(n, m, leng);
    PackedSign(l, leng, digits, negative);
    PackedNibbles(l, leng, digits, negative);
    PackedValue(l, leng, digits, negative);
    UnpackAt(l, m, SignAt(leng, |digits|));
    SignSays(negative);
    StartOf(leng);
  }

  lemma OverPowIs(v: nat, m: nat)
    ensures OverPow(v, m) == v as real / Pow10(m) as real
  {
  }

  lemma SignSays(negative: bool)
    ensures SignNibble(negative) == 13 <==> negative
  {
  }

  lemma StartOf(leng: nat)
    ensures Start(leng) == if leng % 2 == 1 then 0 else 1
  {
  }

  lemma OverOne(a: nat)
    ensures a as real / 1 as real == a as real
  {
  }

  lemma DivideEqual(a: nat, b: nat, p: nat)
    requires p > 0
    ensures a as real / p as real == b as real / p as real <==> a == b
  {
    assert a as real / p as real * p as real == a as real && b as real / p as real * p as real == b as real;
  }

  /** With decimals the number itself comes back exactly when it has at most leng digits. */
  lemma PackedExact(l: seq<bv8>, leng: nat, m: nat, n: nat, negative: bool)
    requires 1 <= m < leng && |Fixed(n, m, leng + 1)| >= leng + 1
    requires IsPacked(l, leng, PackDigits(Fixed(n, m, leng + 1), leng), negative)
    ensures Unpack(l, m) == Signed(negative, n as real / Pow10(m) as real) <==> n < Pow10(leng)
  {
    hide IsPacked, Fixed, Pow10, Unpack, LastDigits;
    PackedRoundTrip(l, leng, m, n, negative);
    DivideEqual(LastDigits(n, leng), n, Pow10(m));
  }

  lemma MoreNines(p: nat)
    ensures (10 * p) % 9 == p % 9
  {
  }

  lemma {:induction false} Pow10Mod9(k: nat)
    ensures Pow10(k) % 9 == 1
  {
    if k > 0 {
      Pow10Mod9(k - 1);
      var p := Pow10(k - 1);
      assert Pow10(k) == 10 * p;
      hide Pow10;
      MoreNines(p);
    }
  }

  /** Ten times the last k digits of a number is the number only for 0. */
  lemma TenfoldSuffix(n: nat, k: nat)
    ensures 10 * LastDigits(n, k) == n <==> n == 0
  {
    hide Pow10;
    var p := Pow10(k);
    DivNat(n, p);
    var q, r := n / p, n % p;
    assert n == q * p + r && LastDigits(n, k) == r;
    Pow10Mod9(k);
    var c := p / 9;
    if 10 * r == n {
      NineTimes(q, r, c, p);
    }
  }

  lemma NineTimes(q: nat, r: nat, c: nat, p: nat)
    requires p == 9 * c + 1 && p >= 1 && q * p == 9 * r && r < p
    ensures q == 0
  {
    assert q * p == 9 * (q * c) + q;
    var t := r - q * c;
    assert q == 9 * t;
    assert t >= 1 ==> q * p >= 9 * p;
  }

  /** Without decimals the round trip fails for every number but 0. */
  lemma PackedWholeFails(l: seq<bv8>, leng: nat, n: nat, negative: bool)
    requires 1 <= leng && |Fixed(n, 0, leng + 1)| >= leng + 1
    requires IsPacked(l, leng, PackDigits(Fixed(n, 0, leng + 1), leng), negative)
    ensures Unpack(l, 0) == Signed(negative, n as real) <==> n == 0
  {
    hide IsPacked, Fixed, Pow10, Unpack, LastDigits;
    PackedRoundTrip(l, leng, 0, n, negative);
    TenfoldSuffix(n, leng + 1);
  }

  /** Within range, a packed field returns the number to half a unit of its last decimal. */
  lemma PackedAccuracy(l: seq<bv8>, leng: nat, m: nat, n: nat, dbl: real)
    requires 1 <= m < leng && n < Pow10(leng) && IsRounded(n, Abs(dbl), m)
    requires |Fixed(n, m, leng + 1)| >= leng + 1
    requires IsPacked(l, leng, PackDigits(Fixed(n, m, leng + 1), leng), dbl < 0.0)
    ensures -0.5 <= (Unpack(l, m) - dbl) * Pow10(m) as real <= 0.5
  {
    hide IsPacked, Fixed, Pow10, Unpack, LastDigits;
    PackedExact(l, leng, m, n, dbl < 0.0);
    var p := Pow10(m) as real;
    assert n as real / p * p == n as real;
    if dbl < 0.0 {
      assert (-(n as real / p) - dbl) * p == -(n as real) + Abs(dbl) * p;
    } else {
      assert (n as real / p - dbl) * p == n as real - Abs(dbl) * p;
    }
  }

  // Zoned fields.

  lemma ZonedNibble(c: char)
    ensures ZonedByte(c) & 0x0f == Minus0(c) & 0x0f
    ensures (ZonedByte(c) & 0xcf) & 0x0f == Minus0(c) & 0x0f && (ZonedByte(c) & 0xcf) >> 4 == 12
    ensures (ZonedByte(c) & 0xdf) & 0x0f == Minus0(c) & 0x0f && (ZonedByte(c) & 0xdf) >> 4 == 13
  {
    hide Minus0;
  }

  /** A zoned field reads as the last leng characters of the printed number, '-' counting 13. */
  lemma ZonedReads(printed: string, negative: bool, leng: nat)
    requires 1 <= leng <= |printed|
    ensures var v := Value(Nibbles(printed[|printed| - leng..]));
            UnzoneLong(Zoned(printed, negative, leng)) == if negative then -(v as int) else v
  {
    hide Minus0, Value;
    var l, tail := Zoned(printed, negative, leng), printed[|printed| - leng..];
    forall i | 0 <= i < leng ensures l[i] & 0x0f == Minus0(tail[i]) & 0x0f {
      ZonedNibble(tail[i]);
    }
    assert LowNibbles(l) == Nibbles(tail);
    ZonedNibble(tail[leng - 1]);
  }

  /** A zoned digit is 0xF0 and the digit; as the last one of its field 0xC0 and the digit, or 0xD0 for a negative number. */
  lemma ZonedDigit(c: char)
    requires IsDigit(c)
    ensures ZonedByte(c) as int == 240 + DigitValue(c)
    ensures (ZonedByte(c) & 0xcf) as int == 192 + DigitValue(c) && (ZonedByte(c) & 0xdf) as int == 208 + DigitValue(c)
  {
    DigitNibble(c);
    var d := Minus0(c);
    hide Minus0;
    assert d == 0 || d == 1 || d == 2 || d == 3 || d == 4 || d == 5 || d == 6 || d == 7 || d == 8 || d == 9;
  }

  /** The bytes of a field for a number of at least leng digits or padded to them: its last digits, zoned. */
  lemma ZonedForm(printed: string, negative: bool, leng: nat)
    requires 1 <= leng <= |printed| && AllDigits(printed[|printed| - leng..])
    ensures var l, t := Zoned(printed, negative, leng), printed[|printed| - leng..];
            && (forall i :: 0 <= i < leng - 1 ==> l[i] as int == 240 + DigitValue(t[i]))
            && l[leng - 1] as int == (if negative then 208 else 192) + DigitValue(t[leng - 1])
  {
    hide ZonedByte, AllDigits, DigitValue;
    var l, t := Zoned(printed, negative, leng), printed[|printed| - leng..];
    forall i | 0 <= i < leng
      ensures IsDigit(t[i]) && t[i] == printed[|printed| - leng + i]
    {
      DigitAt(t, i);
    }
    forall i | 0 <= i < leng - 1
      ensures l[i] as int == 240 + DigitValue(t[i])
    {
      ZonedDigit(t[i]);
    }
    ZonedDigit(t[leng - 1]);
  }

  lemma DigitAt(s: string, i: nat)
    requires AllDigits(s) && i < |s|
    ensures IsDigit(s[i])
  {
  }

  lemma MinusNibble()
    ensures Minus0('-') & 0x0f == 13
  {
  }

  /** What ReadNum(leng) returns for the number WriteLong was given. */
  function ZonedResult(v: int, leng: nat): int
    requires leng >= 1
  {
    if v >= 0 then LastDigits(v, leng)
    else if -v >= Pow10(leng - 1) then -(LastDigits(-v, leng) as int)
    else -(13 * Pow10(leng - 1) - v)
  }

  lemma {:induction false} ZonedRoundTrip(v: int, leng: nat)
    requires leng >= 1
    ensures var t := Decimal(v, leng);
            |t| >= leng && UnzoneLong(Zoned(t, v < 0, leng)) == ZonedResult(v, leng)
  {
    hide Zoned, UnzoneLong, Dec, DigitsValue, Value, Nibbles;
    var t := Decimal(v, leng);
    ZonedReads(t, v < 0, leng);
    if v >= 0 {
      PadLeftDigits(Dec(v), leng);
      SuffixDigits(t, leng);
    } else {
      ZonedNegative(-v, leng);
    }
  }

  lemma ZonedNegative(n: nat, leng: nat)
    requires leng >= 1 && n > 0
    ensures var t := Decimal(-(n as int), leng);
            Value(Nibbles(t[|t| - leng..])) == if n >= Pow10(leng - 1) then LastDigits(n, leng) else 13 * Pow10(leng - 1) + n
  {
    hide Dec, DigitsValue, Value, Nibbles, Pow10;
    var d := PadLeft(Dec(n), leng - 1);
    var t := Decimal(-(n as int), leng);
    assert t == ['-'] + d;
    PadLeftDigits(Dec(n), leng - 1);
    DecLength(n, leng - 1);
    if n >= Pow10(leng - 1) {
      assert t[|t| - leng..] == d[|d| - leng..];
      SuffixDigits(d, leng);
    } else {
      PowPositive(leng - 1, n);
      assert |d| == leng - 1 && t[|t| - leng..] == t;
      NibblesAppend(['-'], d);
      NibblesValue(d);
      MinusNibble();
      NibblesAt(['-'], 0);
      assert Nibbles(['-']) == [13];
      ValueOne(13);
      ValueAppend([13], Nibbles(d));
    }
  }

  lemma ValueOne(d: bv8)
    ensures Value([d]) == d as int
  {
    assert [d][..0] == [];
  }

  lemma PowPositive(k: nat, n: nat)
    requires 0 < n < Pow10(k)
    ensures k > 0
  {
  }

  /** The number itself comes back exactly when it fits the field; a negative one must fill it. */
  lemma ZonedExact(v: int, leng: nat)
    requires leng >= 1
    ensures ZonedResult(v, leng) == v <==> if v >= 0 then v < Pow10(leng) else Pow10(leng - 1) <= -v < Pow10(leng)
  {
    hide LastDigits;
    assert Pow10(leng) == 10 * Pow10(leng - 1);
  }

  datatype Field = Field(value: int, leng: nat)

  /** The bytes one WriteLong call appends. */
  function FieldBytes(f: Field): (l: seq<bv8>)
    requires f.leng >= 1
    ensures |l| == f.leng
  {
    assert |Decimal(f.value, f.leng)| >= f.leng;
    Zoned(Decimal(f.value, f.leng), f.value < 0, f.leng)
  }

  /** The bytes a run of WriteLong calls appends. */
  function Written(fs: seq<Field>): seq<bv8>
    requires forall i :: 0 <= i < |fs| ==> fs[i].leng >= 1
  {
    if fs == [] then [] else FieldBytes(fs[0]) + Written(fs[1..])
  }

  /** The values a run of ReadNum(leng) calls returns, and the bytes it leaves. */
  function ReadRun(l: seq<bv8>, lengs: seq<nat>): (seq<int>, seq<bv8>)
    requires forall i :: 0 <= i < |lengs| ==> lengs[i] >= 1
  {
    if lengs == [] || lengs[0] > |l| then ([], l)
    else
      var (vs, rest) := ReadRun(l[lengs[0]..], lengs[1..]);
      ([UnzoneLong(l[..lengs[0]])] + vs, rest)
  }

  /** A list of numbers written and read with the same widths comes back value by value, and the
      read position ends where the writing ended. */
  lemma {:induction false} ZonedSequence(fs: seq<Field>, lengs: seq<nat>, tail: seq<bv8>)
    requires |lengs| == |fs| && forall i :: 0 <= i < |fs| ==> fs[i].leng == lengs[i] >= 1
    ensures var (vs, rest) := ReadRun(Written(fs) + tail, lengs);
            rest == tail && |vs| == |fs| && forall i :: 0 <= i < |fs| ==> vs[i] == ZonedResult(fs[i].value, fs[i].leng)
  {
    hide ZonedResult, UnzoneLong, Zoned, Decimal;
    if fs == [] {
      assert Written(fs) + tail == tail;
    } else {
      var f := fs[0];
      ZonedRoundTrip(f.value, f.leng);
      var head, later := Zoned(Decimal(f.value, f.leng), f.value < 0, f.leng), Written(fs[1..]) + tail;
      assert Written(fs) + tail == head + later;
      assert (head + later)[..f.leng] == head && (head + later)[f.leng..] == later;
      ZonedSequence(fs[1..], lengs[1..], tail);
    }
  }

  // Decimals of a zoned field.

  /** The digits behind the point, each counted as a tenth, against their true weight. */
  lemma {:induction false} TenthsBound(f: seq<bv8>)
    requires f != []
    ensures Value(f) <= DigitSum(f) * Pow10(|f| - 1)
    ensures Value(f) == DigitSum(f) * Pow10(|f| - 1) <==> forall i :: 1 <= i < |f| ==> f[i] == 0
  {
    var front, d := f[..|f| - 1], f[|f| - 1];
    if front == [] {
      assert Value(front) == 0 && DigitSum(front) == 0 && Pow10(0) == 1;
    } else {
      TenthsBound(front);
      var p, s, x := Pow10(|front| - 1), DigitSum(front), d as int;
      assert Pow10(|f| - 1) == 10 * p;
      TenthsStep(Value(front), s, p, x);
      assert forall i :: 1 <= i < |front| ==> f[i] == front[i];
      assert d == 0 <==> x == 0;
    }
  }

  lemma TenthsStep(v: nat, s: nat, p: nat, d: nat)
    requires v <= s * p && p >= 1
    ensures 10 * v + d <= (s + d) * (10 * p)
    ensures 10 * v + d == (s + d) * (10 * p) <==> v == s * p && d == 0
  {
    assert (s + d) * (10 * p) == 10 * (s * p) + d * (10 * p);
    assert d * (10 * p) >= 10 * d;
  }

  /** The digits read with m of them behind the point. */
  function TrueValue(s: seq<bv8>, m: nat): real { Value(s) as real / Pow10(m) as real }

  lemma TenthsAgainstTrue(s: seq<bv8>, m: nat)
    requires 1 <= m <= |s|
    ensures var f := s[|s| - m..];
            TenthsValue(s, m) == TrueValue(s, m) <==> Value(f) == DigitSum(f) * Pow10(m - 1)
  {
    hide Value, DigitSum, Pow10;
    var a, f := s[..|s| - m], s[|s| - m..];
    assert s == a + f;
    ValueAppend(a, f);
    PowStep(m);
    TenthsReal(Value(a), Value(f), DigitSum(f), Pow10(m - 1), Pow10(m), Value(s));
  }

  /** ReadNum(leng, m) weighs every decimal as a tenth: the result is right exactly when all but
      the first decimal are 0. */
  lemma TenthsExact(s: seq<bv8>, m: nat)
    requires 1 <= m <= |s|
    ensures TenthsValue(s, m) == TrueValue(s, m) <==> forall i :: |s| - m + 1 <= i < |s| ==> s[i] == 0
  {
    hide Value, DigitSum, Pow10, TenthsValue, TrueValue;
    TenthsAgainstTrue(s, m);
    TenthsBound(s[|s| - m..]);
    TailZeros(s, |s| - m);
  }

  lemma TailZeros(s: seq<bv8>, p: nat)
    requires p <= |s|
    ensures var f := s[p..]; (forall i :: 1 <= i < |f| ==> f[i] == 0) <==> (forall i :: p + 1 <= i < |s| ==> s[i] == 0)
  {
    var f := s[p..];
    assert forall i :: 1 <= i < |f| ==> f[i] == s[p + i];
    assert forall i :: p + 1 <= i < |s| ==> s[i] == f[i - p];
  }

  lemma PowStep(m: nat)
    requires m >= 1
    ensures Pow10(m) == 10 * Pow10(m - 1)
  {
  }

  lemma TenthsReal(a: nat, v: nat, s: nat, q: nat, p: nat, w: nat)
    requires q >= 1 && p == 10 * q && w == a * p + v
    ensures a as real + s as real * 0.1 == w as real / p as real <==> v == s * q
  {
    var lhs, rhs := a as real + s as real * 0.1, w as real / p as real;
    assert rhs * p as real == w as real;
    assert lhs * p as real == (a * p) as real + (s * q) as real by {
      assert a as real * p as real == (a * p) as real;
      assert s as real * 0.1 * p as real == s as real * q as real;
    }
    if lhs * p as real == rhs * p as real {
      assert (lhs - rhs) * p as real == 0.0;
    }
  }

  // The codec in use: a buffer written and then read.

  /** A packed field of any width behind others: what its ten bytes are worth, for widths up to 18, and for more as for 18. */
  method PackBehind(parm: CMTParm2, dbl: real, leng: nat, m: nat, rounded: nat) returns (r: Access)
    requires parm.Valid() && leng >= 1 && m >= 1
    requires var w := if leng < 18 then leng else 18;
      w >= 2 && IsRounded(rounded, Abs(dbl), if m < w then m else w - 1)
    modifies parm`m_length, parm.m_Buffer
    ensures parm.Valid() && (r == Done ==> parm.m_length == old(parm.m_length) + 10)
    ensures r == Done ==>
      var w := if leng < 18 then leng else 18;
      var d := if m < w then m else w - 1;
      Unpack(parm.Contents()[old(parm.m_length)..], d)
        == Signed(dbl < 0.0, LastDigits(rounded, w) as real / Pow10(d) as real)
  {
    hide IsPacked, Fixed, Pow10, Unpack, LastDigits, PackDigits, IsRounded, PackLength, PackDecimals;
    PackSizes(leng, m);
    r := parm.WritePack(dbl, leng, m, rounded);
    if r == Done {
      PackedRoundTrip(parm.Contents()[old(parm.m_length)..], PackLength(leng), PackDecimals(leng, m), rounded, dbl < 0.0);
    }
  }

  /** One packed field, alone in a buffer: up to ten digits come back.  A wider one is refused, because ReadPack asks
      for a byte for each digit and the field has ten. */
  method PackThenRead(parm: CMTParm2, dbl: real, leng: nat, m: nat, rounded: nat) returns (r: Access, value: real)
    requires parm.Valid() && parm.Contents() == [] && parm.m_readPtr == 0
    requires 1 <= m < leng <= 18 && IsRounded(rounded, Abs(dbl), m)
    modifies parm, parm.m_Buffer
    ensures parm.Valid() && (r == Overrun <==> leng < old(parm.m_allocLength) && parm.m_Buffer.Length < PACK_SIZE)
    ensures r == Done <==> leng < old(parm.m_allocLength) && parm.m_Buffer.Length >= PACK_SIZE && leng <= PACK_SIZE
    ensures r == Done ==> value == Signed(dbl < 0.0, LastDigits(rounded, leng) as real / Pow10(m) as real)
  {
    hide IsPacked, Fixed, Pow10, Unpack, LastDigits, PackDigits, IsRounded;
    r := parm.WritePack(dbl, leng, m, rounded);
    value := 0.0;
    if r == Done {
      ghost var l := parm.Contents();
      PackedRoundTrip(l, leng, m, rounded, dbl < 0.0);
      assert l == parm.m_Buffer[0..PACK_SIZE];
      r, value := parm.ReadPack(leng, m);
    }
  }

  /** A list of numbers written by WriteLong and read by ReadNum with the same widths. */
  method ZoneThenRead(parm: CMTParm2, fs: seq<Field>) returns (vs: seq<int>)
    requires parm.Valid() && parm.Contents() == [] && parm.m_readPtr == 0 && parm.m_allocLength <= parm.m_Buffer.Length
    requires (forall i :: 0 <= i < |fs| ==> fs[i].leng >= 1) && |Written(fs)| < parm.m_allocLength
    modifies parm, parm.m_Buffer
    ensures parm.Valid() && |vs| == |fs| && parm.m_readPtr == parm.m_length == |Written(fs)|
    ensures forall i :: 0 <= i < |fs| ==> vs[i] == ZonedResult(fs[i].value, fs[i].leng)
  {
    hide Zoned, Decimal, ZonedResult, UnzoneLong;
    var i := 0;
    assert fs[..0] == [];
    while i < |fs|
      invariant 0 <= i <= |fs| && parm.Valid() && parm.Contents() == Written(fs[..i])
      invariant parm.m_readPtr == 0 && parm.m_allocLength == old(parm.m_allocLength)
    {
      var f := fs[i];
      WrittenSnoc(fs, i);
      ZonedRoundTrip(f.value, f.leng);
      var ok := parm.WriteLong(f.value, f.leng, Decimal(f.value, f.leng));
      i := i + 1;
    }
    assert fs[..i] == fs;
    ghost var l := Written(fs);
    vs, i := [], 0;
    assert fs[0..] == fs && l[0..] == l && Written(fs[..0]) == [];
    while i < |fs|
      invariant 0 <= i <= |fs| && parm.Valid() && parm.Contents() == l
      invariant parm.m_readPtr == |Written(fs[..i])| && |vs| == i
      invariant forall k :: 0 <= k < i ==> vs[k] == ZonedResult(fs[k].value, fs[k].leng)
    {
      var f := fs[i];
      WrittenSnoc(fs, i);
      ZonedRoundTrip(f.value, f.leng);
      var ok, v := parm.ReadLong(f.leng);
      vs := vs + [v];
      i := i + 1;
    }
    assert fs[..i] == fs;
  }

  /** The i-th field stands behind the first i in all that is written. */
  lemma WrittenSnoc(fs: seq<Field>, i: nat)
    requires i < |fs| && forall k :: 0 <= k < |fs| ==> fs[k].leng >= 1
    ensures var z := Zoned(Decimal(fs[i].value, fs[i].leng), fs[i].value < 0, fs[i].leng);
      var a := |Written(fs[..i])|;
      && Written(fs[..i + 1]) == Written(fs[..i]) + z && |z| == fs[i].leng
      && a + fs[i].leng <= |Written(fs)| && Written(fs)[a..a + fs[i].leng] == z
  {
    hide Zoned, Decimal;
    var f := fs[i];
    assert |Decimal(f.value, f.leng)| >= f.leng by { ZonedRoundTrip(f.value, f.leng); }
    var z := Zoned(Decimal(f.value, f.leng), f.value < 0, f.leng);
    WrittenAppend(fs[..i], [f]);
    assert fs[..i] + [f] == fs[..i + 1] && Written([f]) == z + [];
    WrittenAppend(fs[..i + 1], fs[i + 1..]);
    assert fs[..i + 1] + fs[i + 1..] == fs;
  }

  lemma {:induction false} WrittenAppend(a: seq<Field>, b: seq<Field>)
    requires forall k :: 0 <= k < |a| ==> a[k].leng >= 1
    requires forall k :: 0 <= k < |b| ==> b[k].leng >= 1
    ensures Written(a + b) == Written(a) + Written(b)
  {
    hide FieldBytes;
    if a == [] {
      assert a + b == b;
    } else {
      assert (a + b)[1..] == a[1..] + b && (a + b)[0] == a[0];
      WrittenAppend(a[1..], b);
      var head := FieldBytes(a[0]);
      assert head + (Written(a[1..]) + Written(b)) == head + Written(a[1..]) + Written(b);
    }
  }
}
