// The bytes of the wire format as numbers and characters, and what the readers make of bytes that no writer wrote.
module WireForm {
  import opened Options
  import opened CText
  import opened Digits
  import opened Wire
  import opened WireRoundTrip

  /** A string: its length, high byte first, and its bytes. */
  lemma StringForm(s: seq<Byte>)
    requires |s| < 65536
    ensures var b := EncString(s);
            |b| == 2 + |s| && b[0] as int * 256 + b[1] as int == |s| && b[2..] == s
  {
    hide ToByte;
    LengthBytes(|s|);
  }

  /** A number: a string of its decimal digits, with a minus sign in front of a negative one. */
  lemma NumberForm(i: int)
    requires INT_MIN <= i <= INT_MAX
    ensures var b, t := EncInt(i), if i < 0 then "-" + Dec(-i) else Dec(i);
            && |b| == 2 + |t| && b[0] == 0 && b[1] as int == |t|
            && forall k :: 0 <= k < |t| ==> b[2 + k] as int == t[k] as int
  {
    hide Dec;
    var t := IntText(i);
    IntTextShort(i);
    StringForm(Bytes(t));
    var d := Dec(if i < 0 then -i else i);
    assert t == if i < 0 then "-" + d else d;
    assert forall k :: 0 <= k < |d| ==> IsDigit(d[k]);
    assert forall k :: 0 <= k < |t| ==> t[k] as int < 256;
    assert EncInt(i)[2..] == Bytes(t);
    assert forall k :: 0 <= k < |t| ==> EncInt(i)[2 + k] == EncInt(i)[2..][k];
  }

  /** A text that ends before its announced length is filled up with zeros. */
  lemma ShortText(n: nat, s: seq<Byte>)
    requires |s| < n < 65536 && n != 26990
    ensures DecString([(n / 256) as Byte, (n % 256) as Byte] + s) == Got(s + seq(n - |s|, _ => 0), 2 + |s|)
  {
    var d := [(n / 256) as Byte, (n % 256) as Byte] + s;
    assert d[2..] == s && LengthOf(d) == n;
  }

  /** Integer.parseInt on a sign and digits: the number, if 32 bits hold it. */
  lemma ParseSigned(sign: string, d: string)
    requires sign in ["", "+", "-"] && d != "" && AllDigits(d)
    ensures var v := if sign == "-" then -(DigitsValue(d) as int) else DigitsValue(d);
            ParseInt(sign + d) == if -2147483648 <= v <= 2147483647 then Some(v) else None
  {
    hide DigitsValue;
    var s := sign + d;
    assert IsDigit(d[0]);
    if sign == "" {
      assert s == d;
    } else {
      assert s[0] == sign[0] && s[1..] == d;
    }
  }

  /** And on anything else nothing. */
  lemma ParseOther(s: string)
    requires forall sign, d :: sign in ["", "+", "-"] && s == sign + d ==> d == "" || !AllDigits(d)
    ensures ParseInt(s) == None
  {
    hide DigitsValue;
    assert s == "" + s;
    if s != "" && (s[0] == '-' || s[0] == '+') {
      assert s == [s[0]] + s[1..] && [s[0]] in ["", "+", "-"];
    }
  }

  /** ReadInt gives 0 for a text that is no number, and for what ends before it. */
  lemma NoNumber(t: seq<Byte>, rest: seq<Byte>, d: seq<Byte>)
    requires |t| < 65536 && |t| != 26990 && ParseInt(Chars(t)) == None && |d| < 2
    ensures DecIntField(EncString(t) + rest) == Got(0, 2 + |t|) && DecIntField(d) == Got(0, |d|)
  {
    hide ParseInt, Chars, EncString;
    DecStringEnc(t, rest);
  }

  /** A length that is no number, or negative, fails both readers of counted bytes behind the length. */
  lemma NoLength(t: seq<Byte>, rest: seq<Byte>)
    requires |t| < 65536 && |t| != 26990
    requires ParseInt(Chars(t)) == None || ParseInt(Chars(t)).value < 0
    ensures DecFile(EncString(t) + rest) == Failed(2 + |t|)
  {
    hide ParseInt, Chars, EncString;
    DecStringEnc(t, rest);
  }

  /** Bytes that end before their announced number are filled up with zeros. */
  lemma ShortFile(n: nat, s: seq<Byte>)
    requires |s| < n <= INT_MAX
    ensures var t := EncString(Bytes(Dec(n)));
            DecFile(t + s) == Got(s + seq(n - |s|, _ => 0), |t| + |s|)
  {
    hide ParseInt, Chars, EncString, Dec, Bytes, DecString;
    IntTextShort(n);
    assert IntText(n) == Dec(n);
    StringForm(Bytes(Dec(n)));
    DecStringEnc(Bytes(Dec(n)), s);
    ParsePrinted(n);
    var t := EncString(Bytes(Dec(n)));
    assert (t + s)[|t|..] == s;
  }

  /** String.trim: everything up to the blank goes at both ends, and nothing else. */
  lemma {:induction false} TrimBetween(a: string, s: string, b: string)
    requires (forall i :: 0 <= i < |a| ==> a[i] as int <= 32) && forall i :: 0 <= i < |b| ==> b[i] as int <= 32
    requires s != "" && s[0] as int > 32 && s[|s| - 1] as int > 32
    ensures TrimRight(TrimLeft(a + s + b)) == s
    decreases |a| + |b|
  {
    if a != "" {
      assert (a + s + b)[1..] == a[1..] + s + b && (a + s + b)[0] == a[0];
      TrimBetween(a[1..], s, b);
    } else {
      assert a + s + b == s + b && (s + b)[0] == s[0];
      TrimBehind(s, b);
    }
  }

  lemma {:induction false} TrimBehind(s: string, b: string)
    requires (forall i :: 0 <= i < |b| ==> b[i] as int <= 32) && s != "" && s[|s| - 1] as int > 32
    ensures TrimRight(s + b) == s
  {
    if b == "" {
      assert s + b == s;
    } else {
      assert (s + b)[..|s + b| - 1] == s + b[..|b| - 1];
      TrimBehind(s, b[..|b| - 1]);
    }
  }

  /** ReadLongString takes a length with blanks around it. */
  lemma PaddedLength(a: string, b: string, s: seq<Byte>, rest: seq<Byte>)
    requires (forall i :: 0 <= i < |a| ==> a[i] as int <= 32) && forall i :: 0 <= i < |b| ==> b[i] as int <= 32
    requires |s| <= INT_MAX && |a + Dec(|s|) + b| < 65536
    ensures var t := Bytes(a + Dec(|s|) + b);
            DecLong(EncString(t) + (s + rest)) == Got(s, 2 + |t| + |s|)
  {
    hide DecString, PayloadOf, Dec, Bytes, Chars, TrimLeft, TrimRight, ToByte;
    var text := a + Dec(|s|) + b;
    var t := Bytes(text);
    var d := EncString(t) + (s + rest);
    StringForm(t);
    assert d[0] == EncString(t)[0] && d[1] == EncString(t)[1];
    assert d[2..] == t + (s + rest) && d[2 + |t|..] == s + rest;
    assert LengthOf(d) == |t| && Fill(d[2..], |t|) == t;
    AsciiChars(text, |s|, a, b);
    NumeralEnds(|s|);
    TrimBetween(a, Dec(|s|), b);
    PayloadBack(s, rest, 2 + |t|);
    BytesChars(Dec(|s|)) by {
      NumeralDigits(|s|);
    }
  }

  lemma NumeralEnds(n: nat)
    ensures Dec(n) != "" && Dec(n)[0] as int > 32 && Dec(n)[|Dec(n)| - 1] as int > 32
  {
    hide Dec;
    var d := Dec(n);
    assert IsDigit(d[0]) && IsDigit(d[|d| - 1]);
  }

  lemma NumeralDigits(n: nat)
    ensures forall i :: 0 <= i < |Dec(n)| ==> IsDigit(Dec(n)[i])
  {
    hide Dec;
    var d := Dec(n);
    assert AllDigits(d);
  }

  lemma AsciiChars(text: string, n: nat, a: string, b: string)
    requires text == a + Dec(n) + b
    requires (forall i :: 0 <= i < |a| ==> a[i] as int <= 32) && forall i :: 0 <= i < |b| ==> b[i] as int <= 32
    ensures Chars(Bytes(text)) == text
  {
    NumeralDigits(n);
    hide Dec;
    forall i | 0 <= i < |text|
      ensures text[i] as int < 256
    {
      assert text[i] == if i < |a| then a[i] else if i < |a| + |Dec(n)| then Dec(n)[i - |a|] else b[i - |a| - |Dec(n)|];
    }
  }
}
