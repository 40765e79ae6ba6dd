// MTObjectOut and MTObjectIn: the fields of the wire format, written and read back.
module Wire {
  import opened Options
  import opened CText
  import opened Digits

  newtype Byte = x: int | 0 <= x < 256

  const INT_MIN: int := -0x8000_0000
  const INT_MAX: int := 0x7fff_ffff

  /** (byte) of an int, seen unsigned. */
  function ToByte(n: int): Byte { (n % 256) as Byte }

  /** getBytes() of an ASCII text, and back. */
  function Bytes(s: string): (b: seq<Byte>)
    ensures |b| == |s|
  {
    seq(|s|, i requires 0 <= i < |s| => (s[i] as int % 256) as Byte)
  }

  function Chars(b: seq<Byte>): (s: string)
    ensures |s| == |b|
  {
    seq(|b|, i requires 0 <= i < |b| => b[i] as int as char)
  }

  function IntText(i: int): string { DecInt(i) }

  // Encodings.

  /** Two length bytes, high one first, then the payload. */
  function EncString(s: seq<Byte>): seq<Byte> { [ToByte(|s| / 256), ToByte(|s| % 256)] + s }

  function EncInt(i: int): seq<Byte> { EncString(Bytes(IntText(i))) }

  /** The length as a decimal text field, then the payload. */
  function EncCounted(s: seq<Byte>): seq<Byte> { EncString(Bytes(Dec(|s|))) + s }

  // Decodings, of the bytes d that are still unread.

  /** A value and the bytes taken, or an exception after taking some. */
  datatype Read<T> = Got(value: T, used: nat) | Failed(used: nat)

  /** InputStream.read(new byte[n]): what there is, and zeros for the rest. */
  function Fill(d: seq<Byte>, n: nat): (r: seq<Byte>)
    ensures |r| == n
  {
    if n <= |d| then d[..n] else d + seq(n - |d|, _ => 0)
  }

  function Taken(d: seq<Byte>, n: nat): nat { if n <= |d| then n else |d| }

  function LengthOf(d: seq<Byte>): nat
    requires |d| >= 2
  {
    d[0] as int * 256 + d[1] as int
  }

  /** ReadString: one extra byte is skipped when the length is 26990. */
  function DecString(d: seq<Byte>): (r: Read<seq<Byte>>)
    ensures r.used <= |d|
  {
    if |d| < 2 then Failed(|d|)
    else
      var leng := LengthOf(d);
      var skip := if leng == 26990 then 3 else 2;
      if |d| < skip then Failed(|d|) else Got(Fill(d[skip..], leng), skip + Taken(d[skip..], leng))
  }

  /** Integer.parseInt: an optional sign, digits, and a value of 32 bits. */
  function ParseInt(s: string): Option<int>
  {
    var d := if StartsWith(s, '-') || StartsWith(s, '+') then s[1..] else s;
    if d == [] || !AllDigits(d) then None
    else
      var v: int := if StartsWith(s, '-') then -(DigitsValue(d) as int) else DigitsValue(d);
      if INT_MIN <= v <= INT_MAX then Some(v) else None
  }

  /** ReadInt: 0 whatever goes wrong. */
  function DecIntField(d: seq<Byte>): (r: Read<int>)
    ensures r.used <= |d|
  {
    match DecString(d)
    case Failed(used) => Got(0, used)
    case Got(b, used) => Got(match ParseInt(Chars(b)) case Some(v) => v case None => 0, used)
  }

  /** String.trim. */
  function TrimLeft(s: string): string { if s != [] && s[0] <= ' ' then TrimLeft(s[1..]) else s }

  function TrimRight(s: string): string
  {
    if s != [] && s[|s| - 1] <= ' ' then TrimRight(s[..|s| - 1]) else s
  }

  /** The payload behind a length text, when `used` bytes are taken and `rest` is unread. */
  function PayloadOf(rest: seq<Byte>, text: string, used: nat): (r: Read<seq<Byte>>)
    ensures used <= r.used <= used + |rest|
  {
    match ParseInt(text)
    case None => Failed(used)
    case Some(n) => if n < 0 then Failed(used) else Got(Fill(rest, n), used + Taken(rest, n))
  }

  /** ReadFileByte: the length text is read by ReadString. */
  function DecFile(d: seq<Byte>): (r: Read<seq<Byte>>)
    ensures r.used <= |d|
  {
    match DecString(d)
    case Failed(used) => Failed(used)
    case Got(b, used) => PayloadOf(d[used..], Chars(b), used)
  }

  /** ReadLongString: the length text is read without the special case, and trimmed. */
  function DecLong(d: seq<Byte>): (r: Read<seq<Byte>>)
    ensures r.used <= |d|
  {
    if |d| < 2 then Failed(|d|)
    else
      var leng := LengthOf(d);
      var used := 2 + Taken(d[2..], leng);
      PayloadOf(d[used..], TrimRight(TrimLeft(Chars(Fill(d[2..], leng)))), used)
  }

  class MTObjectOut {
    var m_allocLength: int
    var byteOut: seq<Byte>

    constructor (length: int)
      ensures byteOut == [] && m_allocLength == length
    {
      m_allocLength, byteOut := length, [];
    }

    /** A single byte: refused only when the buffer is full and the limit has reached 1000000. */
    method WriteByte(b: int) returns (ok: bool)
      modifies this
      ensures ok == (old(|byteOut|) + 1 <= old(m_allocLength) || old(m_allocLength) < 1000000)
      ensures byteOut == if ok then old(byteOut) + [ToByte(b)] else old(byteOut)
      ensures m_allocLength == if ok && old(|byteOut|) + 1 > old(m_allocLength) then old(|byteOut|) + 1 else old(m_allocLength)
    {
      if |byteOut| + 1 > m_allocLength {
        if m_allocLength < 1000000 {
          m_allocLength := |byteOut| + 1;
        } else {
          return false;
        }
      }
      byteOut := byteOut + [ToByte(b)];
      return true;
    }

    method WriteString(bytBytes: seq<Byte>)
      modifies this`byteOut
      ensures byteOut == old(byteOut) + EncString(bytBytes)
    {
      var leng := |bytBytes|;
      byteOut := byteOut + [ToByte(leng / 256)];
      byteOut := byteOut + [ToByte(leng % 256)];
      byteOut := byteOut + bytBytes;
    }

    method WriteInt(lVal: int)
      modifies this`byteOut
      ensures byteOut == old(byteOut) + EncInt(lVal)
    {
      WriteString(Bytes(IntText(lVal)));
    }

    method WriteByteFile(bytBytes: seq<Byte>)
      modifies this`byteOut
      ensures byteOut == old(byteOut) + EncCounted(bytBytes)
    {
      WriteString(Bytes(Dec(|bytBytes|)));
      byteOut := byteOut + bytBytes;
    }

    method WriteLongString(bytBytes: seq<Byte>)
      modifies this`byteOut
      ensures byteOut == old(byteOut) + EncCounted(bytBytes)
    {
      var lengTemp := Bytes(Dec(|bytBytes|));
      byteOut := byteOut + [ToByte(|lengTemp| / 256)];
      byteOut := byteOut + [ToByte(|lengTemp| % 256)];
      byteOut := byteOut + lengTemp;
      byteOut := byteOut + bytBytes;
    }
  }

  class MTObjectIn {
    var inData: seq<Byte>
    var pos: nat

    ghost predicate Valid() reads this { pos <= |inData| }

    /** The bytes still unread. */
    ghost function Rest(): seq<Byte>
      requires Valid()
      reads this
    {
      inData[pos..]
    }

    constructor (data: seq<Byte>)
      ensures Valid() && Rest() == data && inData == data && pos == 0
    {
      inData, pos := data, 0;
    }

    /** readByte; None is the end of the data. */
    method NextByte() returns (r: Option<Byte>)
      requires Valid()
      modifies this`pos
      ensures Valid()
      ensures if old(Rest()) == [] then r.None? && pos == old(pos) else r == Some(old(Rest())[0]) && pos == old(pos) + 1
    {
      if pos == |inData| {
        return None;
      }
      pos := pos + 1;
      return Some(inData[pos - 1]);
    }

    /** read(byteData, 0, leng). */
    method ReadBytes(leng: nat) returns (byteData: seq<Byte>)
      requires Valid()
      modifies this`pos
      ensures Valid() && byteData == Fill(old(Rest()), leng) && pos == old(pos) + Taken(old(Rest()), leng)
    {
      if leng <= |inData| - pos {
        byteData, pos := inData[pos..pos + leng], pos + leng;
      } else {
        byteData, pos := inData[pos..] + seq(leng - (|inData| - pos), _ => 0), |inData|;
      }
    }

    /** ReadByte: 0 at the end of the data. */
    method ReadByte() returns (b: Byte)
      requires Valid()
      modifies this`pos
      ensures Valid()
      ensures if old(Rest()) == [] then b == 0 && pos == old(pos) else b == old(Rest())[0] && pos == old(pos) + 1
    {
      var r := NextByte();
      b := if r.Some? then r.value else 0;
    }

    /** The two length bytes; ok is false when the data ends first. */
    method ReadLength() returns (ok: bool, leng: nat)
      requires Valid()
      modifies this`pos
      ensures Valid() && ok == (|old(Rest())| >= 2)
      ensures if ok then leng == LengthOf(old(Rest())) && pos == old(pos) + 2 else pos == |inData|
    {
      leng := 0;
      var hi := NextByte();
      if hi.None? {
        return false, leng;
      }
      var tx := NextByte();
      if tx.None? {
        return false, leng;
      }
      return true, hi.value as int * 256 + tx.value as int;
    }

    method ReadString() returns (r: Read<seq<Byte>>)
      requires Valid()
      modifies this`pos
      ensures Valid() && r == DecString(old(Rest())) && pos == old(pos) + r.used
    {
      hide Fill, LengthOf;
      ghost var d := Rest();
      var start := pos;
      var ok, leng := ReadLength();
      if !ok {
        return Failed(pos - start);
      }
      if leng == 26990 {
        var tx2 := NextByte();
        if tx2.None? {
          return Failed(2);
        }
      }
      assert Rest() == d[pos - start..];
      var byteData := ReadBytes(leng);
      return Got(byteData, pos - start);
    }

    method ReadInt() returns (v: int)
      requires Valid()
      modifies this`pos
      ensures Valid() && pos >= old(pos) && DecIntField(old(Rest())) == Got(v, pos - old(pos))
    {
      var r := ReadString();
      if r.Failed? {
        return 0;
      }
      var p := ParseInt(Chars(r.value));
      return if p.Some? then p.value else 0;
    }

    method ReadFileByte() returns (r: Read<seq<Byte>>)
      requires Valid()
      modifies this`pos
      ensures Valid() && r == DecFile(old(Rest())) && pos == old(pos) + r.used
    {
      ghost var d := Rest();
      var t := ReadString();
      if t.Failed? {
        return Failed(t.used);
      }
      assert Rest() == d[t.used..];
      r := ReadPayload(Chars(t.value), t.used);
    }

    /** Integer.parseInt of a length text, then that many bytes. */
    method ReadPayload(text: string, used: nat) returns (r: Read<seq<Byte>>)
      requires Valid() && used <= pos
      modifies this`pos
      ensures Valid() && r == PayloadOf(old(Rest()), text, used) && pos == old(pos) + (r.used - used)
    {
      var n := ParseInt(text);
      if n.None? || n.value < 0 {
        return Failed(used);
      }
      var available := |inData| - pos;
      var byteData := ReadBytes(n.value);
      return Got(byteData, used + if n.value <= available then n.value else available);
    }

    method ReadLongString() returns (r: Read<seq<Byte>>)
      requires Valid()
      modifies this`pos
      ensures Valid() && r == DecLong(old(Rest())) && pos == old(pos) + r.used
    {
      hide ParseInt, TrimLeft, TrimRight, Chars, PayloadOf;
      ghost var d := Rest();
      var start := pos;
      var ok, leng := ReadLength();
      if !ok {
        return Failed(pos - start);
      }
      assert Rest() == d[2..];
      var available := |inData| - pos;
      var text := ReadBytes(leng);
      var used := 2 + if leng <= available then leng else available;
      assert Rest() == d[used..];
      r := ReadPayload(TrimRight(TrimLeft(Chars(text))), used);
    }
  }
}
