// CMTParm2: packed and zoned decimal fields in a byte buffer with a write and a read position.
module ParmBuffer {
  import opened CText
  import opened Digits

  const PACK_SIZE: nat := 10

  // Packed form, as 20 nibbles: two to a byte, the high one first.

  function Nibble(l: seq<bv8>, k: nat): bv8
    requires k < 2 * |l|
  {
    if k % 2 == 0 then l[k / 2] >> 4 else l[k / 2] & 0x0f
  }

  function AllNibbles(l: seq<bv8>): (s: seq<bv8>)
    ensures |s| == 2 * |l| && forall k :: 0 <= k < |s| ==> s[k] == Nibble(l, k)
  {
    seq(2 * |l|, k requires 0 <= k < 2 * |l| => Nibble(l, k))
  }

  /** The nibble the first digit goes to: an odd number of digits starts in a high nibble. */
  function Start(leng: nat): nat { if leng % 2 == 1 then 0 else 1 }

  /** The sign nibble: the low half of the byte the digits end in, or of the next one. */
  function SignAt(leng: nat, digits: nat): nat
  {
    var next := Start(leng) + digits;
    if next % 2 == 1 then next else next + 1
  }

  function SignNibble(negative: bool): bv8 { if negative then 13 else 12 }

  /** Byte l is the packed field with these digits. */
  ghost predicate IsPacked(l: seq<bv8>, leng: nat, digits: seq<bv8>, negative: bool)
  {
    && |l| == PACK_SIZE
    && SignAt(leng, |digits|) < 20
    && forall k :: 0 <= k < 20 ==>
         Nibble(l, k) == if Start(leng) <= k < Start(leng) + |digits| then digits[k - Start(leng)]
                         else if k == SignAt(leng, |digits|) then SignNibble(negative) else 0
  }

  function Min(a: int, b: int): int { if a < b then a else b }

  /** The field length and the number of decimals WritePack works with. */
  function PackLength(leng: nat): nat { Min(leng, 18) }

  function PackDecimals(leng: nat, m: nat): (d: nat)
    requires leng >= 1
    ensures d < PackLength(leng)
  {
    Min(m, PackLength(leng) - 1)
  }

  lemma PackSizes(leng: nat, m: nat)
    requires leng >= 1
    ensures var w := if leng < 18 then leng else 18;
            PackLength(leng) == w && PackDecimals(leng, m) == if m < w then m else w - 1
  {
  }

  /** The last leng + 1 characters of the printed number, without the point, as nibbles. */
  function PackDigits(printed: string, leng: nat): seq<bv8>
    requires |printed| >= leng + 1
  {
    Nibbles(WithoutPoint(printed[|printed| - leng - 1..]))
  }

  function WithoutPoint(s: string): (r: string)
    ensures |r| <= |s|
  {
    if s == [] then [] else (if s[0] == '.' then [] else [s[0]]) + WithoutPoint(s[1..])
  }

  predicate IsSign(n: bv8) { n == 12 || n == 13 }

  /** The first sign nibble, or the length. */
  function SignPos(s: seq<bv8>): (j: nat)
    ensures j <= |s| && (forall k :: 0 <= k < j ==> !IsSign(s[k])) && (j < |s| ==> IsSign(s[j]))
  {
    if s == [] || IsSign(s[0]) then 0 else 1 + SignPos(s[1..])
  }

  /** What ReadPack makes of a field: the digits in front of the sign with m decimals (or as many
      as there are); 0 without a sign. */
  function Unpack(l: seq<bv8>, m: nat): real
  {
    var s := AllNibbles(l);
    var j := SignPos(s);
    if j == |s| then 0.0
    else
      var v := Value(s[..j]) as real / Pow10(Min(m, j)) as real;
      if s[j] == 13 then -v else v
  }

  /** The bytes of a packed field with leng digits: they end in front of the low half of byte leng / 2, which holds the
      sign, 12 or 13; everything else is 0. */
  lemma PackedForm(l: seq<bv8>, leng: nat, digits: seq<bv8>, negative: bool)
    requires IsPacked(l, leng, digits, negative) && |digits| == leng <= 18
    ensures |l| == 10 && l[leng / 2] & 0x0f == if negative then 13 else 12
    ensures var first := 2 * (leng / 2) + 1 - leng;
            forall k :: 0 <= k < 20 && k != first + leng ==>
              Nibble(l, k) == if first <= k < first + leng then digits[k - first] else 0
  {
    hide Nibble;
    NibblesOf(l, leng / 2);
    assert leng == 2 * (leng / 2) + leng % 2;
  }

  /** With one digit more, as a field without decimals has, the sign stands a byte further and a 0 in front of it. */
  lemma PackedFormWhole(l: seq<bv8>, leng: nat, digits: seq<bv8>, negative: bool)
    requires IsPacked(l, leng, digits, negative) && |digits| == leng + 1 <= 18
    ensures |l| == 10 && l[leng / 2 + 1] & 0x0f == if negative then 13 else 12
    ensures var first := 2 * (leng / 2) + 1 - leng;
            forall k :: 0 <= k < 20 && k != 2 * (leng / 2) + 3 ==>
              Nibble(l, k) == if first <= k < first + leng + 1 then digits[k - first] else 0
  {
    hide Nibble;
    NibblesOf(l, leng / 2 + 1);
    assert leng == 2 * (leng / 2) + leng % 2;
  }

  /** A field in which no nibble is a sign is 0. */
  lemma NoSign(l: seq<bv8>, m: nat)
    requires forall k :: 0 <= k < 2 * |l| ==> Nibble(l, k) != 12 && Nibble(l, k) != 13
    ensures Unpack(l, m) == 0.0
  {
    hide Nibble, Value, Pow10;
    var s := AllNibbles(l);
    assert SignPos(s) < |s| ==> !IsSign(s[SignPos(s)]);
  }

  /** A zoned field is negative exactly when the last byte says so by 0xD0 to 0xDF. */
  lemma {:induction false} ZonedSign(l: seq<bv8>, m: nat)
    requires l != []
    ensures 208 <= l[|l| - 1] as int <= 223 ==> Unzone(l, m) == -TenthsValue(LowNibbles(l), m)
    ensures !(208 <= l[|l| - 1] as int <= 223) ==> Unzone(l, m) == TenthsValue(LowNibbles(l), m)
    ensures TenthsValue(LowNibbles(l), m) >= 0.0
  {
    hide TenthsValue, LowNibbles;
    HighNibble(l[|l| - 1]);
    TenthsPositive(LowNibbles(l), m);
  }

  lemma TenthsPositive(s: seq<bv8>, m: nat)
    ensures TenthsValue(s, m) >= 0.0
  {
    hide Value, DigitSum;
  }

  lemma HighNibble(b: bv8)
    ensures b >> 4 == 13 <==> 208 <= b <= 223
  {
  }

  lemma OrNibble(b: bv8, c: bv8)
    requires c < 16
    ensures (b | (c << 4)) >> 4 == (b >> 4) | c && (b | (c << 4)) & 0x0f == b & 0x0f
    ensures (b | c) >> 4 == b >> 4 && (b | c) & 0x0f == (b & 0x0f) | c
  {
  }

  lemma NibblesOf(l: seq<bv8>, j: nat)
    requires j < |l|
    ensures Nibble(l, 2 * j) == l[j] >> 4 && Nibble(l, 2 * j + 1) == l[j] & 0x0f
  {
  }

  lemma OrZero(c: bv8)
    ensures 0 | c == c
  {
  }

  /** Writing one nibble into an empty place changes no other. */
  lemma NibbleUpdate(l: seq<bv8>, i: nat, c: bv8, high: bool)
    requires i < |l| && c < 16 && Nibble(l, 2 * i + if high then 0 else 1) == 0
    ensures var r := l[i := l[i] | if high then c << 4 else c];
            forall k :: 0 <= k < 2 * |l| ==> Nibble(r, k) == if k == 2 * i + (if high then 0 else 1) then c else Nibble(l, k)
  {
    hide Nibble;
    OrNibble(l[i], c);
    OrZero(c);
    NibblesOf(l, i);
    var r := l[i := l[i] | if high then c << 4 else c];
    forall k | 0 <= k < 2 * |l|
      ensures Nibble(r, k) == if k == 2 * i + (if high then 0 else 1) then c else Nibble(l, k)
    {
      var j := k / 2;
      assert k == 2 * j || k == 2 * j + 1;
      NibblesOf(l, j);
      NibblesOf(r, j);
    }
  }

  predicate Printed(s: string) { forall i :: 0 <= i < |s| ==> IsDigit(s[i]) || s[i] == '.' }

  /** n is x scaled by 10^m and rounded to a nearest integer. */
  predicate IsRounded(n: nat, x: real, m: nat)
  {
    var y := x * Pow10(m) as real;
    n as real - 0.5 <= y <= n as real + 0.5
  }

  function Abs(x: real): real { if x < 0.0 then -x else x }

  /** lData[idx] |= c, or |= c << 4 for the high nibble, where the nibble is still empty. */
  method PutNibble(lData: array<bv8>, idx: nat, high: bool, c: bv8)
    requires idx < lData.Length && c < 16 && Nibble(lData[..], 2 * idx + if high then 0 else 1) == 0
    modifies lData
    ensures forall k :: 0 <= k < 2 * lData.Length ==>
              Nibble(lData[..], k) == if k == 2 * idx + (if high then 0 else 1) then c else old(Nibble(lData[..], k))
  {
    ghost var before := lData[..];
    NibbleUpdate(before, idx, c, high);
    lData[idx] := lData[idx] | if high then c << 4 else c;
    assert lData[..] == before[idx := before[idx] | if high then c << 4 else c];
  }

  /** The first n digits are in place, everything else is still 0. */
  ghost predicate Filled(l: seq<bv8>, leng: nat, digits: seq<bv8>, n: nat)
  {
    && |l| == PACK_SIZE && n <= |digits|
    && forall k :: 0 <= k < 20 ==>
         Nibble(l, k) == if Start(leng) <= k < Start(leng) + n then digits[k - Start(leng)] else 0
  }

  /** The loop of WritePack that spreads the digits over the nibbles of lData. */
  method SpreadDigits(pData: string, leng: nat, negative: bool) returns (lData: array<bv8>)
    requires Printed(pData) && SignAt(leng, |WithoutPoint(pData)|) < 20
    ensures fresh(lData) && lData.Length == PACK_SIZE
    ensures IsPacked(lData[..], leng, Nibbles(WithoutPoint(pData)), negative)
  {
    hide Nibbles, Minus0, WithoutPoint, Nibble;
    lData := new bv8[PACK_SIZE](_ => 0);
    var digit := leng % 2 == 1;
    var idx, i := 0, 0;
    ghost var digits := Nibbles(WithoutPoint(pData));
    ghost var n: nat := 0;
    ZeroNibbles(lData[..]);
    WithoutPointStart(pData);
    while i < |pData|
      invariant i <= |pData| && n == |WithoutPoint(pData[..i])|
      invariant 2 * idx + (if digit then 0 else 1) == Start(leng) + n
      invariant Filled(lData[..], leng, digits, n)
    {
      WithoutPointStep(pData, i);
      if pData[i] != '.' {
        var c := Minus0(pData[i]);
        DigitNibble(pData[i]);
        NibblesAt(WithoutPoint(pData), n);
        PutNibble(lData, idx, digit, c);
        if !digit {
          idx := idx + 1;
        }
        digit := !digit;
        n := n + 1;
      }
      i := i + 1;
    }
    assert pData[..i] == pData;
    PutNibble(lData, idx, false, SignNibble(negative));
  }

  lemma ZeroNibbles(l: seq<bv8>)
    requires forall i :: 0 <= i < |l| ==> l[i] == 0
    ensures forall k :: 0 <= k < 2 * |l| ==> Nibble(l, k) == 0
  {
  }

  lemma WithoutPointStart(s: string)
    ensures |WithoutPoint(s[..0])| == 0
  {
  }

  lemma NibblesAt(s: string, n: nat)
    requires n < |s|
    ensures Nibbles(s)[n] == Minus0(s[n]) & 0x0f
  {
  }

  /** One more character of the printed number. */
  lemma {:induction false} WithoutPointStep(s: string, i: nat)
    requires i <= |s|
    ensures WithoutPoint(s[..i]) <= WithoutPoint(s)
    ensures i < |s| ==> WithoutPoint(s[..i + 1]) == WithoutPoint(s[..i]) + if s[i] == '.' then [] else [s[i]]
    ensures i < |s| && s[i] != '.' ==>
              |WithoutPoint(s[..i])| < |WithoutPoint(s)| && WithoutPoint(s)[|WithoutPoint(s[..i])|] == s[i]
  {
    WithoutPointAppend(s[..i], s[i..]);
    assert s[..i] + s[i..] == s;
    if i < |s| {
      WithoutPointAppend(s[..i], [s[i]]);
      assert s[..i] + [s[i]] == s[..i + 1];
      assert WithoutPoint([s[i]]) == if s[i] == '.' then [] else [s[i]] by { assert [s[i]][1..] == []; }
      WithoutPointAppend(s[..i + 1], s[i + 1..]);
      assert s[..i + 1] + s[i + 1..] == s;
    }
  }

  lemma {:induction false} WithoutPointAppend(a: string, b: string)
    ensures WithoutPoint(a + b) == WithoutPoint(a) + WithoutPoint(b)
  {
    if a == [] {
      assert a + b == b;
    } else {
      assert (a + b)[1..] == a[1..] + b;
      WithoutPointAppend(a[1..], b);
    }
  }

  // Zoned form: one digit to a byte, 0xF in the high nibble, the sign in that of the last byte.

  function ZonedByte(c: char): bv8 { Minus0(c) | 0xf0 }

  /** The last leng characters of the printed number, zoned. */
  function Zoned(printed: string, negative: bool, leng: nat): (l: seq<bv8>)
    requires 1 <= leng <= |printed|
    ensures |l| == leng
  {
    var cut := |printed| - leng;
    seq(leng, i requires 0 <= i < leng =>
      if i < leng - 1 then ZonedByte(printed[cut + i])
      else ZonedByte(printed[cut + i]) & if negative then 0xdf else 0xcf)
  }

  function LowNibbles(l: seq<bv8>): (s: seq<bv8>)
    ensures |s| == |l| && forall i :: 0 <= i < |l| ==> s[i] == l[i] & 0x0f
  {
    seq(|l|, i requires 0 <= i < |l| => l[i] & 0x0f)
  }

  function DigitSum(s: seq<bv8>): nat
  {
    if s == [] then 0 else DigitSum(s[..|s| - 1]) + (s[|s| - 1] as int)
  }

  /** Digits with m of them behind the point, each of those weighing one tenth. */
  function TenthsValue(s: seq<bv8>, m: nat): real
  {
    var p := if m < |s| then |s| - m else 0;
    Value(s[..p]) as real + DigitSum(s[p..]) as real * 0.1
  }

  /** What ReadNum makes of a field. */
  function Unzone(l: seq<bv8>, m: nat): real
    requires l != []
  {
    var v := TenthsValue(LowNibbles(l), m);
    if l[|l| - 1] >> 4 == 13 then -v else v
  }

  /** The packed field of a number rounded to m decimals. */
  method PackField(rounded: nat, leng: nat, m: nat, negative: bool) returns (lData: array<bv8>)
    requires m < leng <= 18 && (m >= 1 || leng < 18)
    ensures var t := Fixed(rounded, m, leng + 1);
            |t| >= leng + 1 && fresh(lData) && lData.Length == PACK_SIZE &&
            IsPacked(lData[..], leng, PackDigits(t, leng), negative)
  {
    hide Fixed, Nibbles, IsPacked, WithoutPoint, AreDigits, Value, Pow10, Printed;
    var sTemp := Fixed(rounded, m, leng + 1);
    PrintedDigits(rounded, m, leng);
    var pData := sTemp[|sTemp| - leng - 1..];
    lData := SpreadDigits(pData, leng, negative);
  }

  /** sTemp as WriteLong rewrites it, cut to the field. */
  method ZoneText(printed: string, negative: bool, leng: nat) returns (field: array<bv8>)
    requires 1 <= leng <= |printed|
    ensures fresh(field) && field.Length == leng && field[..] == Zoned(printed, negative, leng)
  {
    hide Minus0;
    var bSign: bv8 := if negative then 0xdf else 0xcf;
    var ll := |printed|;
    var sTemp := new bv8[ll](_ => 0);
    for i := 0 to ll
      invariant forall k :: 0 <= k < i ==> sTemp[k] == ZonedByte(printed[k])
    {
      sTemp[i] := Minus0(printed[i]) | 0xf0;
    }
    sTemp[ll - 1] := sTemp[ll - 1] & bSign;
    var cut := if ll > leng then ll - leng else 0;
    field := new bv8[leng](i requires 0 <= i < leng reads sTemp => sTemp[cut + i]);
  }

  /** Refused is the exception "Max length exceeded.", Overrun an access out of bounds. */
  datatype Access = Done | Refused | Overrun

  class CMTParm2 {
    const m_Buffer: array<bv8>
    var m_allocLength: int
    var m_length: int
    var m_readPtr: int

    ghost predicate Valid()
      reads this
    {
      0 <= m_readPtr <= m_length <= m_Buffer.Length
    }

    /** The bytes written so far. */
    ghost function Contents(): seq<bv8>
      requires Valid()
      reads this, m_Buffer
    {
      m_Buffer[..m_length]
    }

    constructor (maxSize: int, pBuffer: array<bv8>)
      ensures Valid() && m_Buffer == pBuffer && m_allocLength == maxSize && Contents() == []
    {
      m_Buffer, m_allocLength, m_length, m_readPtr := pBuffer, maxSize, 0, 0;
    }

    method Clear()
      requires Valid()
      modifies this`m_length, this`m_readPtr
      ensures Valid() && Contents() == [] && m_readPtr == 0
    {
      m_length, m_readPtr := 0, 0;
    }

    /** A negative length is stored like any other; the buffer is then not valid any more. */
    method SetLength(leng: int) returns (rc: int)
      requires Valid() && m_allocLength <= m_Buffer.Length
      modifies this`m_length, this`m_readPtr
      ensures rc == (if leng > m_allocLength then -1 else 0) && (Valid() <==> leng >= 0 || rc == -1)
      ensures if rc == 0 then m_length == leng && m_readPtr == 0 else m_length == old(m_length) && m_readPtr == old(m_readPtr)
    {
      if leng > m_allocLength {
        return -1;
      }
      m_length, m_readPtr := leng, 0;
      return 0;
    }

    /** False is the exception "Max length exceeded."; printed is what sprintf left in sTemp. */
    method WriteLong(lVal: int, leng: nat, printed: string) returns (ok: bool)
      requires Valid() && 1 <= leng <= |printed| && m_allocLength <= m_Buffer.Length
      modifies this`m_length, m_Buffer
      ensures Valid() && ok == (old(m_length) + leng < m_allocLength)
      ensures Contents() == if ok then old(Contents()) + Zoned(printed, lVal < 0, leng) else old(Contents())
    {
      if m_length + leng >= m_allocLength {
        return false;
      }
      var field := ZoneText(printed, lVal < 0, leng);
      CopyIn(field, 0, leng);
      return true;
    }

    /** memcpy to the write position, which moves behind the copied bytes. */
    method CopyIn(a: array<bv8>, from: nat, n: nat)
      requires Valid() && a != m_Buffer && from + n <= a.Length && m_length + n <= m_Buffer.Length
      modifies this`m_length, m_Buffer
      ensures Valid() && Contents() == old(Contents()) + a[from..from + n]
    {
      forall i | 0 <= i < n {
        m_Buffer[m_length + i] := a[from + i];
      }
      m_length := m_length + n;
      assert m_Buffer[..m_length] == old(m_Buffer[..m_length]) + a[from..from + n];
    }

    /** An accepted write stays within the ten bytes of lData and within the buffer. */
    predicate PackFits(leng: nat, m: nat)
      requires leng >= 1
      reads this
    {
      m_length + PACK_SIZE <= m_Buffer.Length && (PackDecimals(leng, m) >= 1 || PackLength(leng) < 18)
    }

    /** rounded is |dbl| scaled to the decimals in use and rounded, as "%lf" prints it. */
    method WritePack(dbl: real, leng: nat, m: nat, rounded: nat) returns (r: Access)
      requires Valid() && leng >= 1 && IsRounded(rounded, Abs(dbl), PackDecimals(leng, m))
      modifies this`m_length, m_Buffer
      ensures Valid() && (r == Refused <==> old(m_length) + leng >= m_allocLength)
      ensures r == Overrun <==>
        old(m_length) + leng < m_allocLength && (old(m_length) + 10 > m_Buffer.Length || (leng >= 18 && m == 0))
      ensures r != Done ==> Contents() == old(Contents())
      ensures r == Done ==> m_length == old(m_length) + PACK_SIZE && Contents()[..old(m_length)] == old(Contents())
      ensures r == Done ==>
        var w, d := PackLength(leng), PackDecimals(leng, m);
        && |Fixed(rounded, d, w + 1)| >= w + 1
        && IsPacked(Contents()[old(m_length)..], w, PackDigits(Fixed(rounded, d, w + 1), w), dbl < 0.0)
    {
      if m_length + leng >= m_allocLength {
        return Refused;
      }
      PackSizes(leng, m);
      if !PackFits(leng, m) {
        return Overrun;
      }
      hide Fixed, Nibbles, IsPacked, WithoutPoint, IsRounded, PackDigits, Pow10, PackLength, PackDecimals;
      var lData := PackField(rounded, PackLength(leng), PackDecimals(leng, m), dbl < 0.0);
      CopyIn(lData, 0, PACK_SIZE);
      assert Contents()[old(m_length)..] == lData[..];
      return Done;
    }

    /** The test is made for leng bytes, but ten are copied. */
    method ReadPack(leng: nat, m: nat) returns (r: Access, value: real)
      requires Valid()
      modifies this`m_readPtr
      ensures Valid() && (r == Refused <==> old(m_readPtr) + leng > m_length)
      ensures r == Overrun <==> old(m_readPtr) + leng <= m_length && old(m_readPtr) + 10 > m_Buffer.Length
      ensures m_readPtr == if r == Done then old(m_readPtr) + leng else old(m_readPtr)
      ensures r == Done ==> value == Unpack(m_Buffer[old(m_readPtr)..old(m_readPtr) + PACK_SIZE], m)
    {
      if m_readPtr + leng > m_length {
        return Refused, 0.0;
      }
      if m_readPtr + PACK_SIZE > m_Buffer.Length {
        return Overrun, 0.0;
      }
      var sBuf := m_Buffer[m_readPtr..m_readPtr + PACK_SIZE];
      m_readPtr := m_readPtr + leng;
      r := Done;
      value := UnpackBytes(sBuf, m);
    }

    lemma FieldIs(from: nat, leng: nat)
      requires Valid() && from + leng <= m_length
      ensures m_Buffer[from..from + leng] == Contents()[from..from + leng]
    {
    }

    method ReadNum(leng: nat, m: nat) returns (ok: bool, value: real)
      requires Valid() && leng >= 1
      modifies this`m_readPtr
      ensures Valid() && ok == old(m_readPtr + leng <= m_length)
      ensures m_readPtr == if ok then old(m_readPtr) + leng else old(m_readPtr)
      ensures ok ==> value == Unzone(old(Contents())[old(m_readPtr)..old(m_readPtr) + leng], m)
    {
      hide Summed, Unzone, Contents;
      if m_readPtr + leng > m_length {
        return false, 0.0;
      }
      ghost var from := m_readPtr;
      ghost var l := m_Buffer[from..from + leng];
      FieldIs(from, leng);
      var bLast := m_Buffer[m_readPtr + leng - 1];
      assert bLast == l[leng - 1];
      var bSign := bLast >> 4;
      ok, value := true, 0.0;
      var i := 0;
      SummedStart(l);
      while i < leng - m
        invariant 0 <= i <= leng && (i > leng - m ==> i == 0)
        invariant m_readPtr == from + i && Summed(value, l, i, i)
      {
        var bDigit := m_Buffer[m_readPtr] & 0x0f;
        assert m_Buffer[m_readPtr] == l[i];
        SummedWhole(value, l, i);
        value := value * 10.0 + (bDigit as int) as real;
        m_readPtr := m_readPtr + 1;
        i := i + 1;
      }
      ghost var p := i;
      while i < leng
        invariant p <= i <= leng && m_readPtr == from + i
        invariant Summed(value, l, p, i)
      {
        var bDigit := m_Buffer[m_readPtr] & 0x0f;
        assert m_Buffer[m_readPtr] == l[i];
        SummedTenth(value, l, p, i);
        value := value + (bDigit as int) as real * 0.1;
        m_readPtr := m_readPtr + 1;
        i := i + 1;
      }
      SummedEnd(value, l, p, m);
      if bSign == 13 {
        value := -value;
      }
    }

    /** ReadNum(leng): a field without decimals, as an integer. */
    method ReadLong(leng: nat) returns (ok: bool, value: int)
      requires Valid() && leng >= 1
      modifies this`m_readPtr
      ensures Valid() && ok == old(m_readPtr + leng <= m_length)
      ensures m_readPtr == if ok then old(m_readPtr) + leng else old(m_readPtr)
      ensures ok ==> value == UnzoneLong(old(Contents())[old(m_readPtr)..old(m_readPtr) + leng])
    {
      var dData;
      ok, dData := ReadNum(leng, 0);
      if ok {
        UnzoneWhole(old(Contents())[old(m_readPtr)..old(m_readPtr) + leng]);
        value := if dData >= 0.0 then dData.Floor else -((-dData).Floor);
      } else {
        value := 0;
      }
    }
  }

  /** A zoned field without decimals as an integer. */
  function UnzoneLong(l: seq<bv8>): int
    requires l != []
  {
    if l[|l| - 1] >> 4 == 13 then -(Value(LowNibbles(l)) as int) else Value(LowNibbles(l))
  }

  lemma UnzoneWhole(l: seq<bv8>)
    requires l != []
    ensures Unzone(l, 0) == UnzoneLong(l) as real
  {
    assert LowNibbles(l)[..|l|] == LowNibbles(l) && LowNibbles(l)[|l|..] == [];
  }

  lemma ValueStep(s: seq<bv8>, i: nat)
    requires i < |s|
    ensures Value(s[..i + 1]) == 10 * Value(s[..i]) + (s[i] as int)
  {
    assert s[..i + 1] == s[..i] + [s[i]];
    ValueSnoc(s[..i], s[i]);
  }

  lemma DigitSumStep(s: seq<bv8>, p: nat, i: nat)
    requires p <= i < |s|
    ensures DigitSum(s[p..i + 1]) == DigitSum(s[p..i]) + (s[i] as int)
  {
    assert s[p..i + 1][..i - p] == s[p..i];
  }

  /** x is v shifted n places behind the point, and prec is the weight of the next digit. */
  ghost predicate Scaled(x: real, prec: real, n: nat, v: nat)
  {
    x * Pow10(n) as real == v as real && prec * Pow10(n) as real * 10.0 == 1.0
  }

  lemma ScaledStart(v: nat)
    ensures Scaled(v as real, 0.1, 0, v)
  {
    assert Pow10(0) == 1;
  }

  lemma ScaledStep(x: real, prec: real, y: real, n: nat, v: nat, d: nat)
    requires Scaled(x, prec, n, v) && y == x + d as real * prec
    ensures Scaled(y, prec * 0.1, n + 1, 10 * v + d)
  {
    var p := Pow10(n) as real;
    assert Pow10(n + 1) as real == p * 10.0;
    hide Pow10;
    ScaledReals(x, prec, p, v as real, d as real);
  }

  lemma ScaledReals(x: real, prec: real, p: real, v: real, d: real)
    requires x * p == v && prec * p * 10.0 == 1.0
    ensures (x + d * prec) * (p * 10.0) == 10.0 * v + d && prec * 0.1 * (p * 10.0) * 10.0 == 1.0
  {
    assert d * prec * (p * 10.0) == d * (prec * p * 10.0);
    assert x * (p * 10.0) == 10.0 * (x * p);
    assert (x + d * prec) * (p * 10.0) == x * (p * 10.0) + d * prec * (p * 10.0);
    assert prec * 0.1 * (p * 10.0) == prec * p;
  }

  lemma ScaledEnd(x: real, prec: real, n: nat, v: nat)
    requires Scaled(x, prec, n, v)
    ensures x == v as real / Pow10(n) as real
  {
    hide Pow10;
    RealQuotient(x, Pow10(n) as real, v as real);
  }

  lemma RealQuotient(x: real, p: real, v: real)
    requires p > 0.0 && x * p == v
    ensures x == v / p
  {
  }

  /** The digit loops of ReadPack on the ten bytes of a field. */
  method UnpackBytes(sBuf: seq<bv8>, m: nat) returns (dData: real)
    requires |sBuf| == PACK_SIZE
    ensures dData == Unpack(sBuf, m)
  {
    hide Value, Pow10, SignPos;
    var sDigit: seq<bv8> := [];
    for i := 0 to PACK_SIZE
      invariant |sDigit| == 2 * i && forall k :: 0 <= k < 2 * i ==> sDigit[k] == Nibble(sBuf, k)
    {
      sDigit := sDigit + [sBuf[i] >> 4, sBuf[i] & 0x0f];
    }
    assert sDigit == AllNibbles(sBuf);
    var j := FindSign(sDigit);
    if j == 20 {
      return 0.0;
    }
    dData := DigitsToReal(sDigit, j, m);
    if sDigit[j] == 13 {
      dData := -dData;
    }
  }

  method FindSign(s: seq<bv8>) returns (j: nat)
    ensures j == SignPos(s)
  {
    j := 0;
    while j < |s| && !IsSign(s[j])
      invariant j <= |s| && forall k :: 0 <= k < j ==> !IsSign(s[k])
    {
      j := j + 1;
    }
    SignPosIs(s, j);
  }

  lemma {:induction false} SignPosIs(s: seq<bv8>, j: nat)
    requires j <= |s| && (forall k :: 0 <= k < j ==> !IsSign(s[k])) && (j < |s| ==> IsSign(s[j]))
    ensures SignPos(s) == j
  {
    if j > 0 {
      SignPosIs(s[1..], j - 1);
    }
  }

  /** j digits, the last m of them (or all) behind the point. */
  method DigitsToReal(sDigit: seq<bv8>, j: nat, m: nat) returns (dData: real)
    requires j <= |sDigit|
    ensures dData == Value(sDigit[..j]) as real / Pow10(Min(m, j)) as real
  {
    hide Whole, ScaledAt;
    var pos := j - m;
    var prec := 0.1;
    var i: int := 0;
    dData := 0.0;
    WholeStart(sDigit);
    while i < pos
      invariant 0 <= i <= j && (i > pos ==> i == 0)
      invariant Whole(dData, sDigit, i)
    {
      WholeStep(dData, sDigit, i);
      dData := dData * 10.0 + (sDigit[i] as int) as real;
      i := i + 1;
    }
    ghost var p := i;
    ScaledAtStart(dData, sDigit, i);
    while i < j
      invariant p <= i <= j
      invariant ScaledAt(dData, prec, sDigit, p, i)
    {
      ghost var before := dData;
      dData := dData + (sDigit[i] as int) as real * prec;
      ScaledAtStep(before, prec, dData, sDigit, p, i, sDigit[i] as int);
      prec := prec * 0.1;
      i := i + 1;
    }
    ScaledAtEnd(dData, prec, sDigit, p, j);
  }

  ghost predicate Whole(x: real, s: seq<bv8>, i: int) { 0 <= i <= |s| && x == Value(s[..i]) as real }

  ghost predicate ScaledAt(x: real, prec: real, s: seq<bv8>, p: int, i: int)
  {
    0 <= p <= i <= |s| && Scaled(x, prec, i - p, Value(s[..i]))
  }

  lemma WholeStart(s: seq<bv8>)
    ensures Whole(0.0, s, 0)
  {
  }

  lemma WholeStep(x: real, s: seq<bv8>, i: int)
    requires Whole(x, s, i) && i < |s|
    ensures Whole(x * 10.0 + (s[i] as int) as real, s, i + 1)
  {
    ValueStep(s, i);
  }

  lemma ScaledAtStart(x: real, s: seq<bv8>, i: int)
    requires Whole(x, s, i)
    ensures ScaledAt(x, 0.1, s, i, i)
  {
    ScaledStart(Value(s[..i]));
  }

  lemma ScaledAtIs(x: real, prec: real, s: seq<bv8>, p: int, i: int)
    requires ScaledAt(x, prec, s, p, i)
    ensures 0 <= p <= i <= |s| && Scaled(x, prec, i - p, Value(s[..i]))
  {
  }

  lemma ScaledAtFrom(x: real, prec: real, s: seq<bv8>, p: int, i: int)
    requires 0 <= p <= i <= |s| && Scaled(x, prec, i - p, Value(s[..i]))
    ensures ScaledAt(x, prec, s, p, i)
  {
  }

  lemma ScaledAtStep(x: real, prec: real, y: real, s: seq<bv8>, p: int, i: int, d: nat)
    requires ScaledAt(x, prec, s, p, i) && i < |s| && d == s[i] as int && y == x + d as real * prec
    ensures ScaledAt(y, prec * 0.1, s, p, i + 1)
  {
    hide *;
    ScaledAtIs(x, prec, s, p, i);
    ValueStep(s, i);
    ScaledAtNext(x, prec, y, s, p, i, d);
  }

  lemma ScaledAtNext(x: real, prec: real, y: real, s: seq<bv8>, p: int, i: int, d: nat)
    requires ScaledAt(x, prec, s, p, i) && i < |s| && y == x + d as real * prec
    requires Value(s[..i + 1]) == 10 * Value(s[..i]) + d
    ensures ScaledAt(y, prec * 0.1, s, p, i + 1)
  {
    hide *;
    ScaledAtIs(x, prec, s, p, i);
    var v, w: nat := Value(s[..i]), i - p;
    ScaledStep(x, prec, y, w, v, d);
    ScaledAtFrom(y, prec * 0.1, s, p, i + 1);
  }

  lemma ScaledAtEnd(x: real, prec: real, s: seq<bv8>, p: int, j: int)
    requires ScaledAt(x, prec, s, p, j)
    ensures x == Value(s[..j]) as real / Pow10(j - p) as real
  {
    hide Scaled;
    ScaledEnd(x, prec, j - p, Value(s[..j]));
  }

  /** dData after i digits of a zoned field whose point stands at p: the loops of ReadNum. */
  ghost predicate Summed(x: real, l: seq<bv8>, p: nat, i: nat)
  {
    && p <= i <= |l|
    && x == Value(LowNibbles(l)[..p]) as real + DigitSum(LowNibbles(l)[p..i]) as real * 0.1
  }

  lemma SummedWhole(x: real, l: seq<bv8>, i: nat)
    requires Summed(x, l, i, i) && i < |l|
    ensures Summed(x * 10.0 + ((l[i] & 0x0f) as int) as real, l, i + 1, i + 1)
  {
    ValueStep(LowNibbles(l), i);
  }

  lemma SummedTenth(x: real, l: seq<bv8>, p: nat, i: nat)
    requires Summed(x, l, p, i) && i < |l|
    ensures Summed(x + ((l[i] & 0x0f) as int) as real * 0.1, l, p, i + 1)
  {
    DigitSumStep(LowNibbles(l), p, i);
  }

  lemma SummedStart(l: seq<bv8>)
    ensures Summed(0.0, l, 0, 0)
  {
  }

  lemma SummedEnd(x: real, l: seq<bv8>, p: nat, m: nat)
    requires l != [] && Summed(x, l, p, |l|) && p == if m < |l| then |l| - m else 0
    ensures Unzone(l, m) == if l[|l| - 1] >> 4 == 13 then -x else x
  {
    assert LowNibbles(l)[p..|l|] == LowNibbles(l)[p..];
  }

  lemma {:induction false} WithoutPointDigits(s: string)
    requires AllDigits(s)
    ensures WithoutPoint(s) == s && Printed(s)
  {
    if s != [] {
      WithoutPointDigits(s[1..]);
    }
  }

  lemma SuffixDigits(all: string, k: nat)
    requires AllDigits(all) && k <= |all|
    ensures var d := Nibbles(all[|all| - k..]);
            AreDigits(d) && |d| == k && Value(d) == LastDigits(DigitsValue(all), k)
  {
    hide Minus0, Value, DigitsValue, Pow10, LastDigits;
    NibblesValue(all);
    assert Nibbles(all[|all| - k..]) == Nibbles(all)[|all| - k..];
    ValueSuffix(Nibbles(all), k);
  }

  /** A number with decimals, as digits in front of and behind the point. */
  lemma FixedShape(n: nat, m: nat, w: nat) returns (a: string, b: string)
    requires m >= 1
    ensures Fixed(n, m, w) == a + ['.'] + b && |b| == m && |a| + 1 + m >= w
    ensures AllDigits(a + b) && DigitsValue(a + b) == n
  {
    hide Dec, DigitsValue, Pow10;
    var p := Pow10(m);
    DivNat(n, p);
    var whole := Dec(n / p);
    b := PadLeft(Dec(n % p), m);
    DecLength(n % p, m);
    PadLeftDigits(Dec(n % p), m);
    var body := whole + ['.'] + b;
    var zeros := seq(if w > |body| then w - |body| else 0, _ => '0');
    a := zeros + whole;
    assert Fixed(n, m, w) == zeros + body;
    assert zeros + body == a + ['.'] + b;
    PadLeftDigits(whole, |a|);
    assert PadLeft(whole, |a|) == a;
    DigitsValueAppend(a, b);
  }

  /** The digits WritePack takes are the last leng ones of the rounded number; without decimals
      there is no point to drop and it takes one more. */
  lemma PrintedDigits(n: nat, m: nat, leng: nat)
    requires m < leng
    ensures var t, k := Fixed(n, m, leng + 1), if m == 0 then leng + 1 else leng;
            && |t| >= leng + 1 && Printed(t[|t| - leng - 1..])
            && AreDigits(PackDigits(t, leng)) && |PackDigits(t, leng)| == k
            && Value(PackDigits(t, leng)) == LastDigits(n, k)
  {
    hide Value, Pow10, Dec, DigitsValue, Nibbles, AreDigits, WithoutPoint, Fixed, LastDigits;
    if m == 0 {
      FixedWhole(n, leng + 1);
      var t := Fixed(n, m, leng + 1);
      WithoutPointDigits(t[|t| - leng - 1..]);
      SuffixDigits(t, leng + 1);
    } else {
      var a, b := FixedShape(n, m, leng + 1);
      DropPoint(a, b, leng);
      SuffixDigits(a + b, leng);
    }
  }

  lemma DropPoint(a: string, b: string, leng: nat)
    requires AllDigits(a + b) && |b| < leng <= |a| + |b|
    ensures var t, all := a + ['.'] + b, a + b;
            && Printed(t[|t| - leng - 1..])
            && WithoutPoint(t[|t| - leng - 1..]) == all[|all| - leng..]
  {
    hide WithoutPoint, AllDigits, Printed;
    var k := |a| - (leng - |b|);
    var front := a[k..];
    DigitParts(a, b, k);
    SplitAppend(a, ['.'] + b, k);
    SplitAppend(a, b, k);
    assert a + ['.'] + b == a + (['.'] + b) && front + ['.'] + b == front + (['.'] + b);
    WithoutPointAppend(front + ['.'], b);
    WithoutPointAppend(front, ['.']);
    WithoutPointOfPoint();
    WithoutPointDigits(front);
    WithoutPointDigits(b);
  }

  lemma DigitParts(a: string, b: string, k: nat)
    requires AllDigits(a + b) && k <= |a|
    ensures AllDigits(a[k..]) && AllDigits(b) && Printed(a[k..] + ['.'] + b)
  {
    var all := a + b;
    assert forall i :: 0 <= i < |a| ==> a[i] == all[i];
    assert forall i :: 0 <= i < |b| ==> b[i] == all[|a| + i];
    assert forall i :: 0 <= i < |a[k..]| ==> a[k..][i] == a[k + i];
  }

  lemma WithoutPointOfPoint()
    ensures WithoutPoint(['.']) == []
  {
  }

  lemma FixedWhole(n: nat, w: nat)
    ensures |Fixed(n, 0, w)| >= w && AllDigits(Fixed(n, 0, w)) && DigitsValue(Fixed(n, 0, w)) == n
  {
    hide Dec, DigitsValue;
    assert Pow10(0) == 1;
    PadLeftDigits(Dec(n), w);
  }
}
