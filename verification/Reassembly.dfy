// CFAPI5J: rebuilding a reply from the short reads a socket delivers.
module Reassembly {
  import opened CText
  import opened Digits
  import opened Wire
  import opened WireRoundTrip

  const HEADER: int := 50

  /** Chunks as they arrive: none is empty. */
  ghost predicate Chunked(p: seq<seq<Byte>>) { forall i :: 0 <= i < |p| ==> p[i] != [] }

  /** The byte stream the chunks make. */
  ghost function Stream(p: seq<seq<Byte>>): seq<Byte> { if p == [] then [] else p[0] + Stream(p[1..]) }

  /** One read of at most n bytes takes from the first chunk only. */
  function ReadSize(p: seq<seq<Byte>>, n: nat): nat
    requires p != []
  {
    if |p[0]| <= n then |p[0]| else n
  }

  function AfterRead(p: seq<seq<Byte>>, n: nat): seq<seq<Byte>>
    requires p != []
  {
    if |p[0]| <= n then p[1..] else [p[0][n..]] + p[1..]
  }

  lemma ReadStream(p: seq<seq<Byte>>, n: nat)
    requires p != [] && Chunked(p) && n > 0
    ensures Chunked(AfterRead(p, n)) && 0 < ReadSize(p, n) <= n
    ensures Stream(p) == p[0][..ReadSize(p, n)] + Stream(AfterRead(p, n))
  {
    hide Stream;
    StreamCons(p[0], p[1..]);
    assert [p[0]] + p[1..] == p;
    if |p[0]| > n {
      StreamCons(p[0][n..], p[1..]);
      TakeDrop(p[0], n, Stream(p[1..]));
    } else {
      assert p[0][..|p[0]|] == p[0];
    }
  }

  lemma StreamCons(c: seq<Byte>, p: seq<seq<Byte>>)
    ensures Stream([c] + p) == c + Stream(p)
  {
    assert ([c] + p)[1..] == p;
  }

  /** The bytes taken by reads of at most n bytes until `need` are there. */
  ghost function Consumed(p: seq<seq<Byte>>, need: int, n: nat): nat
    requires Chunked(p) && n > 0
    decreases need
  {
    if need <= 0 || p == [] then 0
    else
      ReadStream(p, n);
      ReadSize(p, n) + Consumed(AfterRead(p, n), need - ReadSize(p, n), n)
  }

  ghost function AfterReads(p: seq<seq<Byte>>, need: int, n: nat): seq<seq<Byte>>
    requires Chunked(p) && n > 0
    decreases need
  {
    if need <= 0 || p == [] then p
    else
      ReadStream(p, n);
      AfterReads(AfterRead(p, n), need - ReadSize(p, n), n)
  }

  /** The first of the reads, and the others behind it. */
  lemma ReadsBegin(p: seq<seq<Byte>>, need: int, n: nat)
    requires Chunked(p) && p != [] && n > 0 && need > 0
    ensures var k, q := ReadSize(p, n), AfterRead(p, n);
            && Chunked(q) && 0 < k <= n && k <= |p[0]| && Stream(p) == p[0][..k] + Stream(q)
            && Consumed(p, need, n) == k + Consumed(q, need - k, n) && AfterReads(p, need, n) == AfterReads(q, need - k, n)
            && (if |p[0]| <= n then k == |p[0]| && q == p[1..] else k == n)
  {
    hide Stream;
    ReadStream(p, n);
  }

  lemma NoReads(p: seq<seq<Byte>>, need: int, n: nat)
    requires Chunked(p) && n > 0 && need <= 0
    ensures Consumed(p, need, n) == 0 && AfterReads(p, need, n) == p
  {
  }

  lemma NonEmptyStream(p: seq<seq<Byte>>)
    requires |Stream(p)| > 0
    ensures p != []
  {
  }

  /** Enough bytes are taken, fewer than n too many, and what is left is the rest of the stream. */
  lemma {:induction false} ConsumedBounds(p: seq<seq<Byte>>, need: int, n: nat)
    requires Chunked(p) && 0 < need <= n && need <= |Stream(p)|
    ensures need <= Consumed(p, need, n) < need + n && Consumed(p, need, n) <= |Stream(p)|
    ensures Chunked(AfterReads(p, need, n)) && Stream(AfterReads(p, need, n)) == Stream(p)[Consumed(p, need, n)..]
    decreases need
  {
    NonEmptyStream(p);
    hide *;
    var k, q := ReadSize(p, n), AfterRead(p, n);
    ReadsBegin(p, need, n);
    assert Stream(p)[0..] == Stream(p);
    SliceOn(Stream(p), 0, p[0][..k], Stream(q));
    if k < need {
      ConsumedBounds(q, need - k, n);
      DropDrop(Stream(p), k, k + Consumed(q, need - k, n));
    } else {
      NoReads(q, need - k, n);
    }
  }

  /** The bytes of the first i chunks. */
  ghost function Total(p: seq<seq<Byte>>, i: nat): nat
    requires i <= |p|
  {
    if i == 0 then 0 else |p[0]| + Total(p[1..], i - 1)
  }

  /** Some chunk ends behind the first need bytes. */
  ghost predicate EndsAt(p: seq<seq<Byte>>, need: int) { exists i :: 0 <= i <= |p| && Total(p, i) == need }

  lemma EndsAtFirst(p: seq<seq<Byte>>, need: int)
    requires p != [] && need > 0
    ensures EndsAt(p, need) <==> |p[0]| == need || EndsAt(p[1..], need - |p[0]|)
  {
    assert Total(p[1..], 0) == 0;
    if EndsAt(p, need) {
      var i :| 0 <= i <= |p| && Total(p, i) == need;
      assert i > 0 && Total(p[1..], i - 1) == need - |p[0]|;
    }
    if |p[0]| == need {
      assert Total(p, 1) == need;
    } else if EndsAt(p[1..], need - |p[0]|) {
      var i :| 0 <= i <= |p[1..]| && Total(p[1..], i) == need - |p[0]|;
      assert Total(p, i + 1) == need;
    }
  }

  lemma NoEndBelow(p: seq<seq<Byte>>, need: int)
    requires need < 0
    ensures !EndsAt(p, need)
  {
  }

  lemma {:induction false} ExactInside(p: seq<seq<Byte>>, need: int, n: nat)
    requires Chunked(p) && 0 < need < n && need <= |Stream(p)|
    ensures Consumed(p, need, n) == need <==> EndsAt(p, need)
    decreases need
  {
    NonEmptyStream(p);
    hide *;
    var k, q := ReadSize(p, n), AfterRead(p, n);
    ReadsBegin(p, need, n);
    EndsAtFirst(p, need);
    if k < need {
      ExactInside(q, need - k, n);
    } else {
      NoReads(q, need - k, n);
      if |p[0]| != need {
        NoEndBelow(p[1..], need - |p[0]|);
      }
    }
  }

  /** A block of n bytes is taken exactly, without bytes of what follows, if and only if the first
      chunk holds it or some chunk ends where it ends. */
  lemma ExactBlock(p: seq<seq<Byte>>, n: nat)
    requires Chunked(p) && n > 0 && n <= |Stream(p)|
    ensures Consumed(p, n, n) == n <==> |p[0]| >= n || EndsAt(p, n)
  {
    NonEmptyStream(p);
    hide *;
    var k, q := ReadSize(p, n), AfterRead(p, n);
    ReadsBegin(p, n, n);
    EndsAtFirst(p, n);
    if k < n {
      ExactInside(q, n - k, n);
    } else {
      NoReads(q, n - k, n);
    }
  }

  /** The input stream of a socket. */
  class Socket {
    var pending: seq<seq<Byte>>

    /** read(buf, 0, n): -1 at the end of the stream. */
    method Read(buf: array<Byte>, n: nat) returns (k: int)
      requires Chunked(pending) && 0 < n <= buf.Length
      modifies this, buf
      ensures Chunked(pending)
      ensures old(pending) == [] ==> k == -1 && pending == [] && buf[..] == old(buf[..])
      ensures old(pending) != [] ==>
                && k == ReadSize(old(pending), n) && pending == AfterRead(old(pending), n) && 0 < k <= n
                && buf[..k] == old(pending)[0][..k] && buf[k..] == old(buf[k..])
    {
      if pending == [] {
        return -1;
      }
      ReadStream(pending, n);
      var chunk := pending[0];
      k := ReadSize(pending, n);
      pending := AfterRead(pending, n);
      forall i | 0 <= i < k {
        buf[i] := chunk[i];
      }
    }
  }

  /** System.arraycopy(src, 0, dst, at, n). */
  method ArrayCopy(src: array<Byte>, dst: array<Byte>, at: nat, n: nat)
    requires src != dst && n <= src.Length && at + n <= dst.Length
    modifies dst
    ensures dst[..at] == old(dst[..at]) && dst[at..at + n] == src[..n] && dst[at + n..] == old(dst[at + n..])
  {
    forall i | 0 <= i < n {
      dst[at + i] := src[i];
    }
  }

  /** Four bytes, high one first, as a signed 32-bit int. */
  function BigEndian(b: seq<Byte>): int
    requires |b| >= 4
  {
    Wrap32(b[0] as int * 65536 * 256 + b[1] as int * 256 * 256 + b[2] as int * 256 + b[3] as int)
  }

  function Wrap32(x: int): int
  {
    var r := x % 0x1_0000_0000;
    if r > INT_MAX then r - 0x1_0000_0000 else r
  }

  /** The 32-bit number whose bytes these are, high one first: the sum of the weighted bytes, or what is left of it below
      the sign bit. */
  predicate IsLength(b: seq<Byte>, n: int)
    requires |b| >= 4
  {
    var sum := b[0] as int * 16777216 + b[1] as int * 65536 + b[2] as int * 256 + b[3] as int;
    -2147483648 <= n <= 2147483647 && (n == sum || n == sum - 4294967296)
  }

  lemma BigEndianIs(b: seq<Byte>, n: int)
    requires |b| >= 4
    ensures IsLength(b, n) <==> n == BigEndian(b)
  {
    var sum := b[0] as int * 65536 * 256 + b[1] as int * 256 * 256 + b[2] as int * 256 + b[3] as int;
    assert 0 <= sum < 0x1_0000_0000 && sum % 0x1_0000_0000 == sum;
  }

  /** The four bytes of a number, written high one first, are read as that number. */
  lemma BigEndianBytes(n: int, rest: seq<Byte>)
    requires INT_MIN <= n <= INT_MAX
    ensures BigEndian([ToByte(n / 16777216), ToByte(n / 65536), ToByte(n / 256), ToByte(n)] + rest) == n
  {
    var b := [ToByte(n / 16777216), ToByte(n / 65536), ToByte(n / 256), ToByte(n)] + rest;
    var u := if n < 0 then n + 4294967296 else n;
    BytesOf(n, u);
    BigEndianIs(b, n);
  }

  lemma BytesOf(n: int, u: nat)
    requires u < 4294967296 && (u == n || u == n + 4294967296)
    ensures ToByte(n / 16777216) as int * 16777216 + ToByte(n / 65536) as int * 65536 + ToByte(n / 256) as int * 256 + ToByte(n) as int == u
  {
    hide ToByte;
    Halves(n, u);
    var a, b, c := u / 256, u / 65536, u / 16777216;
    LowByte(n);
    LowByte(n / 256);
    LowByte(n / 65536);
    LowByte(n / 16777216);
    Weighed(u, a, b, c);
  }

  lemma LowByte(n: int)
    ensures ToByte(n) as int == n % 256
  {
  }

  lemma Weighed(u: nat, a: nat, b: nat, c: nat)
    requires u < 4294967296 && a == u / 256 && b == a / 256 && c == b / 256
    ensures (c % 256) * 16777216 + (b % 256) * 65536 + (a % 256) * 256 + u % 256 == u
  {
    assert u == 256 * a + u % 256 && a == 256 * b + a % 256 && b == 256 * c + b % 256 && c < 256;
  }

  /** A number and the same modulo 32 bits have the same bytes. */
  lemma Halves(n: int, u: nat)
    requires u < 4294967296 && (u == n || u == n + 4294967296)
    ensures n % 256 == u % 256 && (n / 256) % 256 == (u / 256) % 256
    ensures (n / 65536) % 256 == (u / 65536) % 256 && (n / 16777216) % 256 == (u / 16777216) % 256
    ensures u / 65536 == u / 256 / 256 && u / 16777216 == u / 65536 / 256
  {
    Byte0(n, u);
    Byte1(n, u);
    Byte2(n, u);
    Byte3(n, u);
    Quarters(u);
  }

  lemma Byte0(n: int, u: nat)
    requires u == n || u == n + 4294967296
    ensures n % 256 == u % 256
  {
  }

  lemma Byte1(n: int, u: nat)
    requires u == n || u == n + 4294967296
    ensures (n / 256) % 256 == (u / 256) % 256
  {
    if u != n {
      assert u / 256 == n / 256 + 16777216;
    }
  }

  lemma Byte2(n: int, u: nat)
    requires u == n || u == n + 4294967296
    ensures (n / 65536) % 256 == (u / 65536) % 256
  {
    if u != n {
      assert u / 65536 == n / 65536 + 65536;
    }
  }

  lemma Byte3(n: int, u: nat)
    requires u == n || u == n + 4294967296
    ensures (n / 16777216) % 256 == (u / 16777216) % 256
  {
    if u != n {
      assert u / 16777216 == n / 16777216 + 256;
    }
  }

  lemma Quarters(u: nat)
    ensures u / 65536 == u / 256 / 256 && u / 16777216 == u / 65536 / 256
  {
  }

  datatype Outcome = Done(rc: int) | IllegalArgument | Exception

  class CFAPI5J {
    const ins: Socket
    const maxInOutBufferSize: nat
    var inByteStream: array<Byte>
    var tempStream: array?<Byte>
    var errorCode: int
    var errorMessage: seq<Byte>
    var InBuffer: MTObjectIn?

    constructor (socket: Socket, bufferSize: nat)
      ensures ins == socket && maxInOutBufferSize == bufferSize && fresh(inByteStream)
    {
      ins, maxInOutBufferSize := socket, bufferSize;
      inByteStream := new Byte[bufferSize](_ => 0);
      tempStream, errorCode, errorMessage, InBuffer := null, 0, [], null;
    }

    /** What has been read so far: c bytes of the old stream, in front of the buffer. */
    ghost predicate Holds(old_: seq<seq<Byte>>, c: nat)
      reads this, inByteStream
    {
      c <= inByteStream.Length && c <= |Stream(old_)| && inByteStream[..c] == Stream(old_)[..c]
    }

    /** Put k more bytes behind the first leng, in a longer array when they do not fit. */
    method Append(temp: array<Byte>, leng: nat, k: nat)
      requires temp != inByteStream && k <= temp.Length && leng <= inByteStream.Length
      modifies this`inByteStream, inByteStream
      ensures inByteStream == old(inByteStream) || fresh(inByteStream)
      ensures leng + k <= inByteStream.Length
      ensures inByteStream[..leng + k] == old(inByteStream[..leng]) + temp[..k]
    {
      if k + leng > inByteStream.Length {
        var newInByteStream := new Byte[k + leng](_ => 0);
        ArrayCopy(inByteStream, newInByteStream, 0, inByteStream.Length);
        assert newInByteStream[..leng] == inByteStream[..leng];
        inByteStream := newInByteStream;
      }
      ghost var before := inByteStream[..leng];
      ArrayCopy(temp, inByteStream, leng, k);
      assert inByteStream[..leng + k] == inByteStream[..leng] + inByteStream[leng..leng + k];
      assert before == old(inByteStream[..leng]);
    }

    /** Reads until rcvSize bytes are there; a stream that ends in between would never return. */
    /** One turn of the loop: read into a temporary array and put what came behind the first leng. */
    method ReadMore(ghost p: seq<seq<Byte>>, leng: nat, rcvSize: nat) returns (tempLeng: nat)
      requires 0 < leng < rcvSize && Chunked(ins.pending) && Chunked(p)
      requires Refilled(p, ins.pending, leng, rcvSize) && Holds(p, leng)
      modifies this`inByteStream, this`tempStream, ins, inByteStream
      ensures inByteStream == old(inByteStream) || fresh(inByteStream)
      ensures 0 < tempLeng && Chunked(ins.pending)
      ensures Refilled(p, ins.pending, leng + tempLeng, rcvSize) && Holds(p, leng + tempLeng)
    {
      hide Stream, Consumed, AfterReads, AfterRead, ReadSize, Refilled, Chunked;
      var temp := new Byte[rcvSize](_ => 0);
      tempStream := temp;
      RefillStep(p, ins.pending, leng, rcvSize);
      tempLeng := ins.Read(temp, rcvSize);
      Append(temp, leng, tempLeng);
      tempStream := null;
    }

    method ReadByteStream(rcvSize: int) returns (r: Outcome)
      requires Chunked(ins.pending) && (ins.pending != [] ==> rcvSize <= |Stream(ins.pending)|)
      modifies this`inByteStream, this`tempStream, this`errorCode, this`errorMessage, ins, inByteStream
      ensures inByteStream == old(inByteStream) || fresh(inByteStream)
      ensures Chunked(ins.pending)
      ensures rcvSize <= 0 ==> r == IllegalArgument && ins.pending == old(ins.pending)
      ensures rcvSize > 0 && old(ins.pending) == [] ==> r == Done(-1) && errorCode == -1
      ensures rcvSize > 0 && old(ins.pending) != [] ==>
                && r == Done(0) && errorCode == old(errorCode) && errorMessage == old(errorMessage)
                && ins.pending == AfterReads(old(ins.pending), rcvSize, rcvSize)
                && Holds(old(ins.pending), Consumed(old(ins.pending), rcvSize, rcvSize))
    {
      hide Stream, Consumed, AfterReads, AfterRead, ReadSize, Refilled, Chunked;
      if rcvSize <= 0 {
        return IllegalArgument;
      }
      if rcvSize > inByteStream.Length {
        inByteStream := new Byte[rcvSize](_ => 0);
      }
      ghost var p := ins.pending;
      var leng := ins.Read(inByteStream, rcvSize);
      if leng < 0 {
        errorCode, errorMessage, tempStream := -1, [], null;
        return Done(-1);
      }
      RefillStart(p, rcvSize);
      assert Holds(p, leng);
      while leng < rcvSize
        invariant inByteStream == old(inByteStream) || fresh(inByteStream)
        invariant 0 < leng && Chunked(ins.pending)
        invariant Refilled(p, ins.pending, leng, rcvSize)
        invariant Holds(p, leng)
        invariant errorCode == old(errorCode) && errorMessage == old(errorMessage)
        decreases rcvSize - leng
      {
        var tempLeng := ReadMore(p, leng, rcvSize);
        leng := leng + tempLeng;
      }
      RefillEnd(p, ins.pending, leng, rcvSize);
      return Done(0);
    }

    /** The length in the first four bytes of a 50-byte header, or -1. */
    method CheckReceiveHeader() returns (dataLength: int)
      requires Chunked(ins.pending) && (ins.pending != [] ==> HEADER <= |Stream(ins.pending)|)
      modifies this`inByteStream, this`tempStream, this`errorCode, this`errorMessage, ins
      ensures fresh(inByteStream) && Chunked(ins.pending)
      ensures old(ins.pending) == [] ==> dataLength == -1
      ensures old(ins.pending) != [] ==>
                && dataLength == BigEndian(Stream(old(ins.pending))[..4]) && IsLength(Stream(old(ins.pending))[..4], dataLength)
                && errorCode == old(errorCode) && errorMessage == old(errorMessage)
                && ins.pending == AfterReads(old(ins.pending), HEADER, HEADER)
    {
      hide Stream, Consumed, AfterReads;
      ghost var p := ins.pending;
      inByteStream := new Byte[maxInOutBufferSize](_ => 0);
      var r := ReadByteStream(HEADER);
      if r != Done(0) {
        return -1;
      }
      ConsumedBounds(p, HEADER, HEADER);
      ghost var c := Consumed(p, HEADER, HEADER);
      var InHeader := new MTObjectIn(inByteStream[..]);
      var b0 := InHeader.ReadByte();
      var b1 := InHeader.ReadByte();
      var b2 := InHeader.ReadByte();
      var b3 := InHeader.ReadByte();
      assert inByteStream[..c][..4] == Stream(p)[..c][..4] == Stream(p)[..4];
      assert [b0, b1, b2, b3] == inByteStream[..c][..4];
      dataLength := Wrap32(b0 as int * 65536 * 256 + b1 as int * 256 * 256 + b2 as int * 256 + b3 as int);
      BigEndianIs([b0, b1, b2, b3], dataLength);
    }

    /** The reply body: a return code, and when it is not 0 an error code and a message. */
    method BuildResult(rcvSize: int) returns (r: Outcome)
      requires Chunked(ins.pending) && (ins.pending != [] ==> rcvSize <= |Stream(ins.pending)|)
      modifies this`inByteStream, this`tempStream, this`errorCode, this`errorMessage, this`InBuffer, ins, inByteStream
      ensures Chunked(ins.pending)
      ensures rcvSize <= 0 ==> r == IllegalArgument
      ensures rcvSize > 0 && old(ins.pending) == [] ==> r == Done(-1)
      ensures rcvSize > 0 && old(ins.pending) != [] ==>
                && InBuffer != null && InBuffer.Valid() && rcvSize <= |InBuffer.inData|
                && InBuffer.inData[..rcvSize] == Stream(old(ins.pending))[..rcvSize]
                && Replied(r, InBuffer.inData, InBuffer.pos)
    {
      hide Stream, Consumed, AfterReads, DecIntField, DecString;
      ghost var p := ins.pending;
      r := ReadByteStream(rcvSize);
      if r != Done(0) {
        return;
      }
      ConsumedBounds(p, rcvSize, rcvSize);
      ghost var c := Consumed(p, rcvSize, rcvSize);
      ghost var d := inByteStream[..];
      assert d[..rcvSize] == inByteStream[..c][..rcvSize] == Stream(p)[..c][..rcvSize] == Stream(p)[..rcvSize];
      var b := new MTObjectIn(inByteStream[..]);
      InBuffer := b;
      r := ReadReply(b);
    }

    /** rc, and for a failure the error code and the message. */
    method ReadReply(b: MTObjectIn) returns (r: Outcome)
      requires b.Valid() && b.pos == 0
      modifies this`errorCode, this`errorMessage, b`pos
      ensures b.Valid() && Replied(r, b.inData, b.pos)
    {
      hide DecIntField, DecString;
      ghost var d := b.inData;
      assert b.Rest() == d;
      var rc := b.ReadInt();
      if rc == 0 {
        return Done(0);
      }
      errorCode := b.ReadInt();
      ghost var k := b.pos;
      var msg := b.ReadString();
      assert b.pos == k + msg.used && DecString(d[k..]) == msg;
      if msg.Failed? {
        return Exception;
      }
      errorMessage := msg.value;
      return Done(errorCode);
    }

    /** The fields of a reply as BuildResult reads them from d, ending at pos. */
    ghost predicate Replied(r: Outcome, d: seq<Byte>, pos: nat)
      reads this
    {
      var rc := DecIntField(d);
      if rc.value == 0 then r == Done(0) && pos == rc.used
      else
        var code := DecIntField(d[rc.used..]);
        var msg := DecString(d[rc.used + code.used..]);
        && errorCode == code.value && pos == rc.used + code.used + msg.used
        && if msg.Failed? then r == Exception else r == Done(code.value) && errorMessage == msg.value
    }

    /** The receiving half of run: header, then body. */
    method Receive() returns (r: Outcome)
      requires Framed(ins.pending)
      modifies this`inByteStream, this`tempStream, this`errorCode, this`errorMessage, this`InBuffer, ins, inByteStream
      ensures old(ins.pending) == [] || BodyLength(old(ins.pending)) < 0 ==> r == Exception && errorCode == -1
      ensures old(ins.pending) != [] && BodyLength(old(ins.pending)) == 0 ==> r == IllegalArgument
      ensures old(ins.pending) != [] && BodyLength(old(ins.pending)) > 0 && AfterReads(old(ins.pending), HEADER, HEADER) != [] ==>
                var q, n := AfterReads(old(ins.pending), HEADER, HEADER), BodyLength(old(ins.pending));
                && InBuffer != null && InBuffer.Valid() && n <= |InBuffer.inData|
                && InBuffer.inData[..n] == Stream(q)[..n] && Received(r, InBuffer.inData, InBuffer.pos)
      ensures old(ins.pending) != [] && BodyLength(old(ins.pending)) > 0 && AfterReads(old(ins.pending), HEADER, HEADER) == [] ==>
                r == Exception && errorCode == -1
    {
      hide Stream, Consumed, AfterReads, DecIntField, DecString;
      ghost var p := ins.pending;
      var rcvSize := CheckReceiveHeader();
      if rcvSize < 0 {
        errorCode := -1;
        return Exception;
      }
      r := BuildResult(rcvSize);
      if r.Done? && r.rc != 0 {
        errorCode := -1;
        return Exception;
      }
    }

    /** The outcome of a reply d as the caller of run sees it. */
    ghost predicate Received(r: Outcome, d: seq<Byte>, pos: nat)
      reads this
    {
      var rc := DecIntField(d);
      if rc.value == 0 then r == Done(0) && pos == rc.used
      else
        var code := DecIntField(d[rc.used..]);
        var msg := DecString(d[rc.used + code.used..]);
        if msg.Failed? then r == Exception
        else errorMessage == msg.value && if code.value == 0 then r == Done(0) else r == Exception && errorCode == -1
    }

    /** One framed reply in the stream: the reads may cut it anywhere but must not cross the end of
        the header.  The message of a failure arrives; one with error code 0 passes for a success. */
    method ReceiveReply(ghost header: seq<Byte>, ghost reply: Reply, ghost later: seq<Byte>) returns (r: Outcome)
      requires Chunked(ins.pending) && Stream(ins.pending) == header + (Payload(reply) + later)
      requires |header| == HEADER && IsLength(header, |Payload(reply)|) && ReplyFits(reply)
      requires Consumed(ins.pending, HEADER, HEADER) == HEADER
      modifies this`inByteStream, this`tempStream, this`errorCode, this`errorMessage, this`InBuffer, ins, inByteStream
      ensures InBuffer != null && InBuffer.Valid()
      ensures match reply
              case Success(body) =>
                r == Done(0) && |body| <= |InBuffer.Rest()| && InBuffer.Rest()[..|body|] == body
              case Failure(rc, code, msg) =>
                errorMessage == msg && if code == 0 then r == Done(0) else r == Exception && errorCode == -1
    {
      hide Stream, Consumed, AfterReads, Payload, DecIntField, DecString;
      ghost var q := FramedReply(ins.pending, header, reply, later);
      r := Receive();
      ghost var d, n := InBuffer.inData, |Payload(reply)|;
      assert (Payload(reply) + later)[..n] == Payload(reply);
      assert d == Payload(reply) + d[n..];
      ReplyRead(reply, d[n..]);
    }

    /** The request header: the size as text in 30 bytes, then 20 zero bytes. */
    method BuildSendHeader(objHeader: MTObjectOut, sendSize: int)
      requires INT_MIN <= sendSize <= INT_MAX && |objHeader.byteOut| + 50 <= 1000000
      modifies objHeader
      ensures objHeader.byteOut == old(objHeader.byteOut) + SendHeader(sendSize)
    {
      hide DecInt;
      ghost var before := objHeader.byteOut;
      var str := Bytes(IntText(sendSize));
      IntTextShort(sendSize);
      var bytes := str + seq(30 - |str|, _ => 0);
      for i := 0 to 30
        invariant objHeader.byteOut == before + bytes[..i]
      {
        var ok := objHeader.WriteByte(bytes[i] as int);
        assert bytes[..i + 1] == bytes[..i] + [bytes[i]];
      }
      ghost var zeros: seq<Byte> := seq(20, _ => 0);
      for i := 0 to 20
        invariant objHeader.byteOut == before + bytes + zeros[..i]
      {
        var ok := objHeader.WriteByte(0);
        assert zeros[..i + 1] == zeros[..i] + [zeros[i]];
      }
      assert objHeader.byteOut == before + (str + seq(50 - |str|, _ => 0));
    }
  }

  datatype Reply = Success(body: seq<Byte>) | Failure(rc: int, code: int, msg: seq<Byte>)

  ghost function Payload(r: Reply): seq<Byte>
  {
    match r
    case Success(body) => EncInt(0) + body
    case Failure(rc, code, msg) => EncInt(rc) + (EncInt(code) + EncString(msg))
  }

  ghost predicate ReplyFits(r: Reply)
  {
    match r
    case Success(body) => true
    case Failure(rc, code, msg) =>
      rc != 0 && Fits(Number(rc)) && Fits(Number(code)) && Fits(Text(msg))
  }

  lemma PayloadSize(r: Reply)
    ensures |Payload(r)| > 0
  {
  }

  lemma FramedStream(p: seq<seq<Byte>>, head: seq<Byte>, tail: seq<Byte>)
    requires Stream(p) == head + tail && head != []
    ensures p != []
  {
  }

  lemma IntBack(i: int, rest: seq<Byte>)
    requires INT_MIN <= i <= INT_MAX
    ensures DecIntField(EncInt(i) + rest) == Got(i, |EncInt(i)|)
  {
    FieldBack(Number(i), rest);
  }

  /** The three reads of BuildResult on a reply, whatever stands behind it in the buffer. */
  lemma ReplyRead(r: Reply, rest: seq<Byte>)
    requires ReplyFits(r)
    ensures var d := Payload(r) + rest;
            match r
            case Success(body) =>
              DecIntField(d) == Got(0, |EncInt(0)|) && d[|EncInt(0)|..] == body + rest
            case Failure(rc, code, msg) =>
              var n, k := |EncInt(rc)|, |EncInt(code)|;
              && DecIntField(d) == Got(rc, n) && DecIntField(d[n..]) == Got(code, k)
              && DecString(d[n + k..]) == Got(msg, |EncString(msg)|)
  {
    hide DecIntField, DecString, EncInt, EncString;
    var d := Payload(r) + rest;
    match r
    case Success(body) =>
      IntBack(0, body + rest);
      assert d == EncInt(0) + (body + rest);
    case Failure(rc, code, msg) =>
      var n, k := |EncInt(rc)|, |EncInt(code)|;
      assert d == EncInt(rc) + (EncInt(code) + (EncString(msg) + rest));
      IntBack(rc, EncInt(code) + (EncString(msg) + rest));
      assert d[n..] == EncInt(code) + (EncString(msg) + rest);
      IntBack(code, EncString(msg) + rest);
      assert d[n + k..] == EncString(msg) + rest;
      DecStringEnc(msg, rest);
      EncStringLength(msg);
  }

  function SendHeader(sendSize: int): seq<Byte>
  {
    var str := Bytes(IntText(sendSize));
    str + seq(if |str| < 50 then 50 - |str| else 0, _ => 0)
  }

  /** A server reading the header with atoi gets the size; the header is 50 bytes long. */
  lemma SendHeaderSays(sendSize: int)
    requires INT_MIN <= sendSize <= INT_MAX
    ensures |SendHeader(sendSize)| == 50 && Atoi(Chars(SendHeader(sendSize))) == sendSize
    ensures forall k :: |DecInt(sendSize)| <= k < 50 ==> SendHeader(sendSize)[k] == 0
  {
    hide DecInt, Atoi;
    var t := IntText(sendSize);
    IntTextShort(sendSize);
    IntTextChars(sendSize);
    var zeros: seq<Byte> := seq(50 - |t|, _ => 0);
    assert Chars(Bytes(t) + zeros) == t + Chars(zeros) by {
      hide Bytes;
      BytesChars(t);
      assert forall i :: 0 <= i < |t| ==> Chars(Bytes(t))[i] == Chars(Bytes(t) + zeros)[i];
    }
    AtoiDec(sendSize, Chars(zeros));
  }

  lemma IntTextChars(i: int)
    ensures forall k :: 0 <= k < |IntText(i)| ==> IsDigit(IntText(i)[k]) || IntText(i)[k] == '-'
  {
    var d := Dec(if i < 0 then -i else i);
    assert forall k :: 0 <= k < |d| ==> IsDigit(d[k]);
  }

  /** Two connections that deliver the same bytes, cut in different ways: both blocks arrive, and they are equal. */
  method ReadTwice(a: CFAPI5J, b: CFAPI5J, n: nat) returns (ra: Outcome, rb: Outcome)
    requires a != b && a.ins != b.ins && a.inByteStream != b.inByteStream
    requires Chunked(a.ins.pending) && Chunked(b.ins.pending) && Stream(a.ins.pending) == Stream(b.ins.pending)
    requires 0 < n <= |Stream(a.ins.pending)|
    modifies a, b, a.ins, b.ins, a.inByteStream, b.inByteStream
    ensures ra == rb == Done(0) && n <= a.inByteStream.Length && n <= b.inByteStream.Length
    ensures a.inByteStream[..n] == b.inByteStream[..n] == old(Stream(a.ins.pending))[..n]
  {
    hide Stream, Consumed, AfterReads, AfterRead, ReadSize, Chunked;
    ghost var p, q := a.ins.pending, b.ins.pending;
    NonEmptyStream(p);
    NonEmptyStream(q);
    ConsumedBounds(p, n, n);
    ConsumedBounds(q, n, n);
    ra := a.ReadByteStream(n);
    ghost var c := Consumed(p, n, n);
    assert a.inByteStream[..n] == a.inByteStream[..c][..n] == Stream(p)[..c][..n] == Stream(p)[..n];
    rb := b.ReadByteStream(n);
    ghost var d := Consumed(q, n, n);
    assert b.inByteStream[..n] == b.inByteStream[..d][..n] == Stream(q)[..d][..n] == Stream(q)[..n];
  }

  /** The body length the header announces. */
  ghost function BodyLength(p: seq<seq<Byte>>): int
    requires |Stream(p)| >= HEADER
  {
    BigEndian(Stream(p)[..4])
  }

  /** Nothing at all, or a header and as many bytes behind what its reads took as it announces. */
  ghost predicate Framed(p: seq<seq<Byte>>)
  {
    && Chunked(p)
    && (p != [] ==>
          && |Stream(p)| >= HEADER
          && (AfterReads(p, HEADER, HEADER) != [] ==> BodyLength(p) <= |Stream(AfterReads(p, HEADER, HEADER))|))
  }

  lemma FramedReply(p: seq<seq<Byte>>, header: seq<Byte>, reply: Reply, later: seq<Byte>) returns (q: seq<seq<Byte>>)
    requires Chunked(p) && Stream(p) == header + (Payload(reply) + later) && |header| == HEADER
    requires IsLength(header, |Payload(reply)|) && Consumed(p, HEADER, HEADER) == HEADER
    ensures p != [] && Framed(p) && BodyLength(p) == |Payload(reply)| > 0
    ensures q == AfterReads(p, HEADER, HEADER) != [] && Stream(q) == Payload(reply) + later
  {
    hide Stream, Consumed, AfterReads, Payload, IsLength, Wrap32;
    PayloadSize(reply);
    BigEndianIs(header, |Payload(reply)|);
    FramedStream(p, header, Payload(reply) + later);
    ConsumedBounds(p, HEADER, HEADER);
    q := AfterReads(p, HEADER, HEADER);
    assert Stream(p)[0..] == Stream(p);
    SliceOn(Stream(p), 0, header, Payload(reply) + later);
    FramedStream(q, Payload(reply), later);
    assert Stream(p)[..4] == header[..4];
  }

  /** After leng bytes of p the chunks q are left. */
  ghost predicate Refilled(p: seq<seq<Byte>>, q: seq<seq<Byte>>, leng: nat, n: nat)
    requires Chunked(p) && Chunked(q) && n > 0
  {
    && leng + Consumed(q, n - leng, n) == Consumed(p, n, n)
    && AfterReads(q, n - leng, n) == AfterReads(p, n, n)
    && n <= |Stream(p)| && leng <= |Stream(p)| && Stream(q) == Stream(p)[leng..]
  }

  lemma RefilledIs(p: seq<seq<Byte>>, q: seq<seq<Byte>>, leng: nat, n: nat)
    requires Chunked(p) && Chunked(q) && n > 0 && Refilled(p, q, leng, n)
    ensures leng + Consumed(q, n - leng, n) == Consumed(p, n, n) && AfterReads(q, n - leng, n) == AfterReads(p, n, n)
    ensures n <= |Stream(p)| && leng <= |Stream(p)| && Stream(q) == Stream(p)[leng..]
  {
  }

  lemma RefilledBy(p: seq<seq<Byte>>, q: seq<seq<Byte>>, leng: nat, n: nat)
    requires Chunked(p) && Chunked(q) && n > 0 && n <= |Stream(p)| && leng <= |Stream(p)|
    requires leng + Consumed(q, n - leng, n) == Consumed(p, n, n) && AfterReads(q, n - leng, n) == AfterReads(p, n, n)
    requires Stream(q) == Stream(p)[leng..]
    ensures Refilled(p, q, leng, n)
  {
  }

  lemma RefillStart(p: seq<seq<Byte>>, n: nat)
    requires Chunked(p) && p != [] && n > 0 && n <= |Stream(p)|
    ensures var k, q := ReadSize(p, n), AfterRead(p, n);
            && 0 < k <= n && Chunked(q) && Refilled(p, q, k, n) && Stream(p)[..k] == p[0][..k]
  {
    hide *;
    ReadsBegin(p, n, n);
    var k, q := ReadSize(p, n), AfterRead(p, n);
    assert Stream(p)[0..] == Stream(p);
    SliceOn(Stream(p), 0, p[0][..k], Stream(q));
    RefilledBy(p, q, k, n);
  }

  lemma RefillStep(p: seq<seq<Byte>>, q: seq<seq<Byte>>, leng: nat, n: nat)
    requires Chunked(p) && Chunked(q) && 0 < leng < n && Refilled(p, q, leng, n)
    ensures q != []
    ensures var k, r := ReadSize(q, n), AfterRead(q, n);
            && 0 < k <= n && Chunked(r) && leng + k <= |Stream(p)| && Refilled(p, r, leng + k, n)
            && Stream(p)[..leng + k] == Stream(p)[..leng] + q[0][..k]
  {
    hide *;
    RefilledIs(p, q, leng, n);
    NonEmptyStream(q);
    ReadsBegin(q, n - leng, n);
    var k, r := ReadSize(q, n), AfterRead(q, n);
    SliceOn(Stream(p), leng, q[0][..k], Stream(r));
    RefilledBy(p, r, leng + k, n);
  }

  lemma RefillEnd(p: seq<seq<Byte>>, q: seq<seq<Byte>>, leng: nat, n: nat)
    requires Chunked(p) && Chunked(q) && n > 0 && leng >= n && Refilled(p, q, leng, n)
    ensures q == AfterReads(p, n, n) && leng == Consumed(p, n, n)
  {
  }
}
