// Any sequence of fields written by MTObjectOut is read back by the matching reads of MTObjectIn.
module WireRoundTrip {
  import opened Options
  import opened CText
  import opened Digits
  import opened Wire

  datatype Field = Text(s: seq<Byte>) | Number(i: int) | LongText(s: seq<Byte>) | File(s: seq<Byte>) | Octet(b: Byte)

  datatype Kind = TextKind | NumberKind | LongTextKind | FileKind | OctetKind

  function KindOf(f: Field): Kind
  {
    match f
    case Text(_) => TextKind
    case Number(_) => NumberKind
    case LongText(_) => LongTextKind
    case File(_) => FileKind
    case Octet(_) => OctetKind
  }

  function Kinds(fs: seq<Field>): (ks: seq<Kind>)
    ensures |ks| == |fs|
  {
    if fs == [] then [] else [KindOf(fs[0])] + Kinds(fs[1..])
  }

  /** The values Java can hold, and the text lengths ReadString takes without loss. */
  predicate Fits(f: Field)
  {
    match f
    case Text(s) => |s| < 65536 && |s| != 26990
    case Number(i) => INT_MIN <= i <= INT_MAX
    case LongText(s) => |s| <= INT_MAX
    case File(s) => |s| <= INT_MAX
    case Octet(_) => true
  }

  function Enc(f: Field): seq<Byte>
  {
    match f
    case Text(s) => EncString(s)
    case Number(i) => EncInt(i)
    case LongText(s) => EncCounted(s)
    case File(s) => EncCounted(s)
    case Octet(b) => [b]
  }

  function EncAll(fs: seq<Field>): seq<Byte> { if fs == [] then [] else Enc(fs[0]) + EncAll(fs[1..]) }

  function AsText(r: Read<seq<Byte>>, wrap: seq<Byte> -> Field): Read<Field>
  {
    match r
    case Got(b, used) => Got(wrap(b), used)
    case Failed(used) => Failed(used)
  }

  /** The read that matches a kind of field. */
  function Dec1(k: Kind, d: seq<Byte>): (r: Read<Field>)
    ensures r.used <= |d|
  {
    match k
    case TextKind => AsText(DecString(d), b => Text(b))
    case NumberKind => (match DecIntField(d) case Got(v, used) => Got(Number(v), used) case Failed(used) => Failed(used))
    case LongTextKind => AsText(DecLong(d), b => LongText(b))
    case FileKind => AsText(DecFile(d), b => File(b))
    case OctetKind => if d == [] then Got(Octet(0), 0) else Got(Octet(d[0]), 1)
  }

  /** The fields read, up to the first exception, and the bytes left. */
  function DecAll(ks: seq<Kind>, d: seq<Byte>): (seq<Field>, seq<Byte>)
  {
    if ks == [] then ([], d)
    else
      var r := Dec1(ks[0], d);
      if r.Failed? then ([], d[r.used..])
      else
        var (fs, rest) := DecAll(ks[1..], d[r.used..]);
        ([r.value] + fs, rest)
  }

  lemma LengthBytes(n: nat)
    requires n < 65536
    ensures ToByte(n / 256) as int == n / 256 && ToByte(n % 256) as int == n % 256
  {
  }

  lemma DecStringEnc(s: seq<Byte>, rest: seq<Byte>)
    requires |s| < 65536 && |s| != 26990
    ensures DecString(EncString(s) + rest) == Got(s, 2 + |s|)
  {
    hide ToByte;
    var d := EncString(s) + rest;
    LengthBytes(|s|);
    assert d[2..] == s + rest && d[0] == ToByte(|s| / 256) && d[1] == ToByte(|s| % 256);
    assert LengthOf(d) == |s|;
    assert (s + rest)[..|s|] == s;
  }

  predicate AllZero(s: seq<Byte>) { forall i :: 0 <= i < |s| ==> s[i] == 0 }

  /** A text moved up by one byte, a zero in its last place, is the text itself only for zeros. */
  lemma {:induction false} MovedUp(s: seq<Byte>)
    requires s != []
    ensures s[1..] + [0] == s <==> AllZero(s)
  {
    if s[1..] + [0] == s {
      MovedUpFrom(s, 0);
    }
  }

  lemma {:induction false} MovedUpFrom(s: seq<Byte>, k: nat)
    requires s != [] && s[1..] + [0] == s && k <= |s|
    ensures forall i :: k <= i < |s| ==> s[i] == 0
    decreases |s| - k
  {
    if k < |s| {
      MovedUpFrom(s, k + 1);
      assert s[k] == (s[1..] + [0])[k];
    }
  }

  /** A text of 26990 bytes: its first byte is skipped and one byte of what follows is taken. */
  lemma SkippedText(s: seq<Byte>, rest: seq<Byte>)
    requires |s| == 26990
    ensures DecString(EncString(s) + rest) == Got(s[1..] + if rest == [] then [0] else rest[..1], if rest == [] then 26992 else 26993)
  {
    hide ToByte;
    var d := EncString(s) + rest;
    LengthBytes(|s|);
    assert d[0] == ToByte(|s| / 256) && d[1] == ToByte(|s| % 256);
    assert LengthOf(d) == 26990;
    assert d[3..] == s[1..] + rest;
    if rest != [] {
      assert (s[1..] + rest)[..26990] == s[1..] + rest[..1];
    } else {
      var x := d[3..];
      assert x == s[1..] && seq(26990 - |x|, _ => 0 as Byte) == [0];
      assert Fill(x, 26990) == s[1..] + [0];
    }
  }

  lemma LongTextShort(s: seq<Byte>, rest: seq<Byte>)
    requires |s| >= 65536
    ensures DecString(EncString(s) + rest) != Got(s, |EncString(s)|)
  {
    hide ToByte;
    var d := EncString(s) + rest;
    assert LengthOf(d) < 65536;
  }

  /** ReadString gives back a text and stops behind it exactly when its length fits two bytes and is not 26990;
      of that length only zeros at the very end of the message come back. */
  lemma TextExact(s: seq<Byte>, rest: seq<Byte>)
    ensures DecString(EncString(s) + rest) == Got(s, |EncString(s)|)
      <==> |s| < 65536 && (|s| != 26990 || (rest == [] && AllZero(s)))
  {
    hide DecString, ToByte;
    EncStringLength(s);
    if |s| >= 65536 {
      LongTextShort(s, rest);
    } else if |s| != 26990 {
      DecStringEnc(s, rest);
    } else {
      SkippedText(s, rest);
      MovedUp(s);
    }
  }

  lemma BytesChars(s: string)
    requires forall i :: 0 <= i < |s| ==> IsDigit(s[i]) || s[i] == '-'
    ensures Chars(Bytes(s)) == s
  {
  }

  lemma ParsePrinted(i: int)
    requires INT_MIN <= i <= INT_MAX
    ensures ParseInt(Chars(Bytes(IntText(i)))) == Some(i)
  {
    hide Dec, Bytes, Chars;
    var d := Dec(if i < 0 then -i else i);
    assert IntText(i) == if i < 0 then ['-'] + d else d;
    assert forall k :: 0 <= k < |d| ==> IsDigit(d[k]);
    BytesChars(IntText(i));
    if i < 0 {
      assert IntText(i)[1..] == d;
    } else {
      assert IsDigit(d[0]);
    }
  }

  lemma PowTen()
    ensures Pow10(10) == 10000000000
  {
    assert Pow10(5) == 100000;
    Pow10Add(5, 5);
  }

  lemma IntTextShort(i: int)
    requires INT_MIN <= i <= INT_MAX
    ensures |IntText(i)| <= 11
  {
    PowTen();
    DecLength(if i < 0 then -i else i, 10);
  }

  lemma TrimPrinted(n: nat)
    ensures TrimRight(TrimLeft(Dec(n))) == Dec(n)
  {
    hide Dec;
    var s := Dec(n);
    assert IsDigit(s[0]) && IsDigit(s[|s| - 1]);
  }

  lemma PayloadBack(s: seq<Byte>, rest: seq<Byte>, used: nat)
    requires |s| <= INT_MAX
    ensures PayloadOf(s + rest, Chars(Bytes(Dec(|s|))), used) == Got(s, used + |s|)
  {
    hide ParseInt, Dec, Bytes, Chars;
    ParsePrinted(|s|);
    assert IntText(|s|) == Dec(|s|);
    assert (s + rest)[..|s|] == s;
  }

  lemma CountedBack(s: seq<Byte>, rest: seq<Byte>)
    requires |s| <= INT_MAX
    ensures DecFile(EncCounted(s) + rest) == Got(s, |EncCounted(s)|)
    ensures DecLong(EncCounted(s) + rest) == Got(s, |EncCounted(s)|)
  {
    hide DecString, PayloadOf, Dec, Bytes, Chars, TrimLeft, TrimRight, ToByte;
    var t := Bytes(Dec(|s|));
    var d := EncCounted(s) + rest;
    IntTextShort(|s|);
    assert IntText(|s|) == Dec(|s|);
    assert d == EncString(t) + (s + rest);
    assert d[2 + |t|..] == s + rest;
    DecStringEnc(t, s + rest);
    PayloadBack(s, rest, 2 + |t|);
    LengthBytes(|t|);
    assert d[0] == ToByte(|t| / 256) && d[1] == ToByte(|t| % 256);
    assert LengthOf(d) == |t|;
    assert d[2..] == t + (s + rest);
    assert Fill(d[2..], |t|) == t;
    BytesChars(Dec(|s|));
    TrimPrinted(|s|);
  }

  /** Every field that fits is read back, whatever follows it. */
  lemma FieldBack(f: Field, rest: seq<Byte>)
    requires Fits(f)
    ensures Dec1(KindOf(f), Enc(f) + rest) == Got(f, |Enc(f)|)
  {
    hide DecString, DecFile, DecLong, EncString, EncCounted, ParseInt, Bytes, Chars, DecInt;
    match f
    case Text(s) => DecStringEnc(s, rest); EncStringLength(s);
    case Number(i) =>
      var t := Bytes(IntText(i));
      IntTextShort(i);
      DecStringEnc(t, rest);
      EncStringLength(t);
      ParsePrinted(i);
    case LongText(s) => CountedBack(s, rest);
    case File(s) => CountedBack(s, rest);
    case Octet(b) => assert (Enc(f) + rest)[0] == b;
  }

  lemma EncStringLength(s: seq<Byte>)
    ensures |EncString(s)| == 2 + |s|
  {
  }

  /** A mixed sequence of fields comes back exactly, with the cursor behind its last byte. */
  lemma {:induction false} SequenceBack(fs: seq<Field>, rest: seq<Byte>)
    requires forall i :: 0 <= i < |fs| ==> Fits(fs[i])
    ensures DecAll(Kinds(fs), EncAll(fs) + rest) == (fs, rest)
  {
    hide Enc, Dec1, KindOf;
    if fs == [] {
      assert EncAll(fs) + rest == rest;
    } else {
      var head, later := Enc(fs[0]), EncAll(fs[1..]) + rest;
      assert EncAll(fs) + rest == head + later;
      FieldBack(fs[0], later);
      assert (head + later)[|head|..] == later;
      assert Kinds(fs)[0] == KindOf(fs[0]) && Kinds(fs)[1..] == Kinds(fs[1..]);
      SequenceBack(fs[1..], rest);
      assert [fs[0]] + fs[1..] == fs;
    }
  }

  // The writer with its allocation limit: a run of writes leaves the fields it accepted.

  predicate Accepts(size: nat, limit: int, f: Field) { f.Octet? ==> size + 1 <= limit || limit < 1000000 }

  function NextLimit(size: nat, limit: int, f: Field): int
  {
    if f.Octet? && Accepts(size, limit, f) && size + 1 > limit then size + 1 else limit
  }

  /** The fields of a run that a writer with `size` bytes and this limit takes. */
  function Accepted(size: nat, limit: int, fs: seq<Field>): seq<Field>
    decreases |fs|
  {
    if fs == [] then []
    else if Accepts(size, limit, fs[0]) then
      [fs[0]] + Accepted(size + |Enc(fs[0])|, NextLimit(size, limit, fs[0]), fs[1..])
    else Accepted(size, limit, fs[1..])
  }

  method WriteField(out: MTObjectOut, f: Field) returns (ok: bool)
    modifies out
    ensures ok == Accepts(old(|out.byteOut|), old(out.m_allocLength), f)
    ensures out.byteOut == if ok then old(out.byteOut) + Enc(f) else old(out.byteOut)
    ensures out.m_allocLength == NextLimit(old(|out.byteOut|), old(out.m_allocLength), f)
  {
    ok := true;
    match f
    case Text(s) => out.WriteString(s);
    case Number(i) => out.WriteInt(i);
    case LongText(s) => out.WriteLongString(s);
    case File(s) => out.WriteByteFile(s);
    case Octet(b) => ok := out.WriteByte(b as int);
  }

  /** A whole run of writes: the accepted fields are appended, in order. */
  method WriteFields(out: MTObjectOut, fs: seq<Field>)
    modifies out
    ensures out.byteOut == old(out.byteOut) + EncAll(Accepted(old(|out.byteOut|), old(out.m_allocLength), fs))
  {
    hide *;
    ghost var limit, before := out.m_allocLength, out.byteOut;
    ghost var done: seq<Field> := [];
    var i := 0;
    WrittenStart(before, limit, fs);
    while i < |fs|
      invariant i <= |fs| && Written(before, limit, fs, i, done, out.byteOut, out.m_allocLength)
    {
      WrittenStep(before, limit, fs, i, done, out.byteOut, out.m_allocLength);
      var ok := WriteField(out, fs[i]);
      if ok {
        done := done + [fs[i]];
      }
      i := i + 1;
    }
    WrittenEnd(before, limit, fs, done, out.byteOut, out.m_allocLength);
  }

  /** Behind the first i fields of a run: `done` are written, and the others meet the writer as it is now. */
  ghost predicate Written(before: seq<Byte>, limit: int, fs: seq<Field>, i: nat, done: seq<Field>, now: seq<Byte>, nowLimit: int)
    requires i <= |fs|
  {
    && now == before + EncAll(done)
    && Accepted(|before|, limit, fs) == done + Accepted(|now|, nowLimit, fs[i..])
  }

  lemma WrittenStart(before: seq<Byte>, limit: int, fs: seq<Field>)
    ensures Written(before, limit, fs, 0, [], before, limit)
  {
    NothingEncoded(|before|, limit);
    assert fs[0..] == fs && before + [] == before && [] + Accepted(|before|, limit, fs) == Accepted(|before|, limit, fs);
  }

  lemma WrittenStep(before: seq<Byte>, limit: int, fs: seq<Field>, i: nat, done: seq<Field>, now: seq<Byte>, nowLimit: int)
    requires i < |fs| && Written(before, limit, fs, i, done, now, nowLimit)
    ensures var f := fs[i];
            if Accepts(|now|, nowLimit, f) then
              Written(before, limit, fs, i + 1, done + [f], now + Enc(f), NextLimit(|now|, nowLimit, f))
            else Written(before, limit, fs, i + 1, done, now, NextLimit(|now|, nowLimit, f))
  {
    hide Accepted, Accepts, NextLimit, Enc, EncAll;
    AcceptedNext(|now|, nowLimit, fs, i);
    Appended(before, done, fs[i], Accepted(|now + Enc(fs[i])|, NextLimit(|now|, nowLimit, fs[i]), fs[i + 1..]));
  }

  lemma WrittenEnd(before: seq<Byte>, limit: int, fs: seq<Field>, done: seq<Field>, now: seq<Byte>, nowLimit: int)
    requires Written(before, limit, fs, |fs|, done, now, nowLimit)
    ensures now == before + EncAll(Accepted(|before|, limit, fs))
  {
    NothingEncoded(|now|, nowLimit);
    assert fs[|fs|..] == [] && done + [] == done;
  }

  lemma Appended(before: seq<Byte>, done: seq<Field>, f: Field, later: seq<Field>)
    ensures before + EncAll(done) + Enc(f) == before + EncAll(done + [f])
    ensures done + ([f] + later) == done + [f] + later
  {
    hide Enc, EncAll;
    EncAllSnoc(done, f);
    assert before + EncAll(done) + Enc(f) == before + (EncAll(done) + Enc(f));
  }

  lemma NothingEncoded(size: nat, limit: int)
    ensures EncAll([]) == [] && Accepted(size, limit, []) == []
  {
  }

  lemma AcceptedNext(size: nat, limit: int, fs: seq<Field>, i: nat)
    requires i < |fs|
    ensures Accepted(size, limit, fs[i..]) ==
      if Accepts(size, limit, fs[i]) then
        [fs[i]] + Accepted(size + |Enc(fs[i])|, NextLimit(size, limit, fs[i]), fs[i + 1..])
      else Accepted(size, limit, fs[i + 1..])
    ensures !Accepts(size, limit, fs[i]) ==> NextLimit(size, limit, fs[i]) == limit
  {
    hide Enc;
    assert fs[i..][0] == fs[i] && fs[i..][1..] == fs[i + 1..];
  }

  lemma {:induction false} EncAllSnoc(fs: seq<Field>, f: Field)
    ensures EncAll(fs + [f]) == EncAll(fs) + Enc(f)
  {
    hide Enc;
    if fs == [] {
      assert [f][1..] == [] && EncAll([f]) == Enc(f) + EncAll([]);
    } else {
      assert (fs + [f])[1..] == fs[1..] + [f];
      EncAllSnoc(fs[1..], f);
    }
  }

  method ReadField(inp: MTObjectIn, k: Kind) returns (r: Read<Field>)
    requires inp.Valid()
    modifies inp`pos
    ensures inp.Valid() && r == Dec1(k, old(inp.Rest())) && inp.pos == old(inp.pos) + r.used
  {
    match k
    case TextKind => var b := inp.ReadString(); r := AsText(b, x => Text(x));
    case NumberKind =>
      var start := inp.pos;
      var v := inp.ReadInt();
      r := Got(Number(v), inp.pos - start);
    case LongTextKind => var b := inp.ReadLongString(); r := AsText(b, x => LongText(x));
    case FileKind => var b := inp.ReadFileByte(); r := AsText(b, x => File(x));
    case OctetKind =>
      var start := inp.pos;
      var b := inp.ReadByte();
      r := Got(Octet(b), inp.pos - start);
  }

  /** A whole run of reads. */
  method ReadFields(inp: MTObjectIn, ks: seq<Kind>) returns (fs: seq<Field>)
    requires inp.Valid()
    modifies inp`pos
    ensures inp.Valid() && (fs, inp.Rest()) == DecAll(ks, old(inp.Rest()))
  {
    hide Dec1;
    ghost var whole := DecAll(ks, inp.Rest());
    fs := [];
    var i := 0;
    assert ks[0..] == ks && fs + whole.0 == whole.0;
    while i < |ks|
      invariant i <= |ks| && inp.Valid()
      invariant whole == (fs + DecAll(ks[i..], inp.Rest()).0, DecAll(ks[i..], inp.Rest()).1)
    {
      ghost var d := inp.Rest();
      var r := ReadField(inp, ks[i]);
      assert inp.Rest() == d[r.used..];
      assert ks[i..][1..] == ks[i + 1..];
      if r.Failed? {
        assert fs + [] == fs;
        return;
      }
      ghost var later := DecAll(ks[i + 1..], inp.Rest()).0;
      assert fs + ([r.value] + later) == fs + [r.value] + later;
      fs := fs + [r.value];
      i := i + 1;
    }
    assert fs + [] == fs;
  }

  /** Writing a sequence into a fresh buffer and reading it from the bytes gives the accepted
      fields, to the last byte. */
  method WriteThenRead(limit: int, fs: seq<Field>) returns (gs: seq<Field>)
    requires forall i :: 0 <= i < |fs| ==> Fits(fs[i])
    ensures gs == Accepted(0, limit, fs)
  {
    var out := new MTObjectOut(limit);
    WriteFields(out, fs);
    ghost var kept := Accepted(0, limit, fs);
    AcceptedFit(0, limit, fs);
    SequenceBack(kept, []);
    assert [] + EncAll(kept) == EncAll(kept) + [] == out.byteOut;
    var inp := new MTObjectIn(out.byteOut);
    var kinds := AcceptedKinds(0, limit, fs);
    gs := ReadFields(inp, kinds);
  }

  function AcceptedKinds(size: nat, limit: int, fs: seq<Field>): seq<Kind>
  {
    Kinds(Accepted(size, limit, fs))
  }

  lemma {:induction false} AcceptedFit(size: nat, limit: int, fs: seq<Field>)
    requires forall i :: 0 <= i < |fs| ==> Fits(fs[i])
    ensures forall i :: 0 <= i < |Accepted(size, limit, fs)| ==> Fits(Accepted(size, limit, fs)[i])
    decreases |fs|
  {
    hide Enc, Fits, Accepts, NextLimit;
    if fs != [] {
      AcceptedFit(if Accepts(size, limit, fs[0]) then size + |Enc(fs[0])| else size,
                  if Accepts(size, limit, fs[0]) then NextLimit(size, limit, fs[0]) else limit, fs[1..]);
    }
  }

  /** Below a limit of 1000000 and that many bytes nothing is ever refused. */
  lemma {:induction false} NothingRefused(size: nat, limit: int, fs: seq<Field>)
    requires size + |EncAll(fs)| < 1000000
    ensures Accepted(size, limit, fs) == fs
    decreases |fs|
  {
    hide Enc;
    if fs != [] {
      OctetLength(fs[0]);
      NothingRefused(size + |Enc(fs[0])|, NextLimit(size, limit, fs[0]), fs[1..]);
    }
  }

  lemma OctetLength(f: Field)
    ensures f.Octet? ==> |Enc(f)| == 1
  {
  }
}
