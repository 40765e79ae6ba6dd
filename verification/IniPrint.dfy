// Configuration files as they are written, and what GetIniKeyString finds in them.
module IniPrint {
  import opened Options
  import opened CText
  import opened Profile
  import opened ProfileLines
  import opened IniKey

  datatype Pair = Pair(key: string, value: string)

  datatype Block = Block(name: string, pairs: seq<Pair>)

  function HeaderLine(name: string): string { "[" + name + "]\n" }

  function PairLine(p: Pair): string { p.key + "=" + p.value + "\n" }

  function PairLines(ps: seq<Pair>): seq<string> { if ps == [] then [] else [PairLine(ps[0])] + PairLines(ps[1..]) }

  function DocLines(doc: seq<Block>): seq<string>
  {
    if doc == [] then [] else [HeaderLine(doc[0].name)] + (PairLines(doc[0].pairs) + DocLines(doc[1..]))
  }

  function Flat(lines: seq<string>): string { if lines == [] then "" else lines[0] + Flat(lines[1..]) }

  function Print(doc: seq<Block>): string { Flat(DocLines(doc)) }

  /** A key that can be written: not empty, no equals sign, and not the beginning of a comment or a header. */
  predicate GoodKey(key: string)
  {
    key != "" && key[0] != '[' && key[0] != '#' && !("//" <= key) && '=' !in key && '\n' !in key
  }

  predicate GoodPair(p: Pair)
  {
    GoodKey(p.key) && '\n' !in p.value && !(" " <= p.value) && |PairLine(p)| <= LINE_MAX
  }

  predicate GoodName(name: string) { ']' !in name && '\n' !in name && |HeaderLine(name)| <= LINE_MAX }

  ghost predicate Good(doc: seq<Block>)
  {
    forall b :: b in doc ==> GoodName(b.name) && forall p :: p in b.pairs ==> GoodPair(p)
  }

  /** The pairs of the first block of the name and of every block behind it. */
  function PairsFrom(doc: seq<Block>, inSection: bool, title: string): seq<Pair>
  {
    if doc == [] then []
    else
      var now := inSection || doc[0].name == title;
      (if now then doc[0].pairs else []) + PairsFrom(doc[1..], now, title)
  }

  /** The value of the first pair whose key begins with the key asked for. */
  function FirstFor(ps: seq<Pair>, key: string): Option<string>
  {
    if ps == [] then None
    else if key <= ps[0].key then Some(ps[0].value)
    else FirstFor(ps[1..], key)
  }

  // Reading the file line by line gives the written lines.

  ghost predicate WholeLine(line: string) {
    line != "" && line[|line| - 1] == '\n' && |line| <= LINE_MAX && forall k :: 0 <= k < |line| - 1 ==> line[k] != '\n'
  }

  lemma {:induction false} ChunksOfFlat(lines: seq<string>)
    requires forall l :: l in lines ==> WholeLine(l)
    ensures Chunks(Flat(lines)) == lines
  {
    hide Scan, LineEnd, Chunks, WholeLine;
    if lines == [] {
      NoChunks();
    } else {
      assert lines[0] in lines;
      ChunksOfFlat(lines[1..]);
      FirstChunk(lines[0], Flat(lines[1..]));
    }
  }

  lemma NoChunks()
    ensures Chunks("") == []
  {
  }

  lemma FirstChunk(line: string, rest: string)
    requires WholeLine(line)
    ensures Chunks(line + rest) == [line] + Chunks(rest)
  {
    hide Scan;
    var t := line + rest;
    ScanUnique(t, 0, IsNewline, |line| - 1);
    assert t[..|line|] == line && t[|line|..] == rest;
  }

  lemma {:induction false} AllWhole(doc: seq<Block>)
    requires Good(doc)
    ensures forall l :: l in DocLines(doc) ==> WholeLine(l)
  {
    if doc != [] {
      assert doc[0] in doc;
      AllWhole(doc[1..]);
      PairsWhole(doc[0].pairs);
    }
  }

  lemma {:induction false} PairsWhole(ps: seq<Pair>)
    requires forall p :: p in ps ==> GoodPair(p)
    ensures forall l :: l in PairLines(ps) ==> WholeLine(l)
  {
    hide GoodPair, WholeLine, PairLine;
    if ps != [] {
      assert ps[0] in ps;
      PairsWhole(ps[1..]);
      PairWhole(ps[0]);
    }
  }

  lemma PairWhole(p: Pair)
    requires GoodPair(p)
    ensures WholeLine(PairLine(p))
  {
    forall k | 0 <= k < |PairLine(p)| - 1
      ensures PairLine(p)[k] != '\n'
    {
      assert PairLine(p)[k] == if k < |p.key| then p.key[k] else if k == |p.key| then '=' else p.value[k - |p.key| - 1];
    }
  }

  // What the look-up takes each written line for.

  /** A pair line is no header and no comment; it sets the keys that its own key begins with. */
  lemma PairLineIs(p: Pair, title: string, key: string)
    requires GoodPair(p) && GoodKey(key)
    ensures !Titles(PairLine(p), title)
    ensures Sets(PairLine(p), key) <==> key <= p.key
    ensures SetValue(PairLine(p)) == p.value
  {
    var line := PairLine(p);
    assert line[|p.key|] == '=' && '=' in line;
    assert line[0] == p.key[0];
    assert !("#" <= line);
    assert !("//" <= line) by {
      assert |p.key| == 1 ==> line[1] == '=';
      assert |p.key| > 1 ==> line[1] == p.key[1];
    }
    KeyOfLine(p, key);
    assert IsFirst(line, '=', 0, |p.key|) && IsFirst(line, '=', 0, Find(line, '=', 0));
    assert line[|p.key| + 1..|line| - 1] == p.value;
    var sTitle := "[" + title + "]";
    assert sTitle[0] == '[';
  }

  lemma KeyOfLine(p: Pair, key: string)
    requires GoodKey(p.key) && GoodKey(key)
    ensures key <= PairLine(p) <==> key <= p.key
  {
    var line := PairLine(p);
    assert line[|p.key|] == '=';
    assert key <= line && |key| <= |p.key| ==> line[..|key|] == p.key[..|key|];
  }

  /** A header line sets nothing, and it is the header of its own name only. */
  lemma HeaderLineIs(name: string, title: string, key: string)
    requires GoodName(name) && ']' !in title && GoodKey(key)
    ensures !Sets(HeaderLine(name), key)
    ensures Titles(HeaderLine(name), title) <==> name == title
  {
    var line, sTitle := HeaderLine(name), "[" + title + "]";
    assert line[0] == '[';
    assert |line| == |name| + 3 && line[|name| + 1] == ']';
    if sTitle <= line {
      assert forall k :: 0 <= k < |title| ==> title[k] == sTitle[k + 1] == line[k + 1];
      assert sTitle[|title| + 1] == ']' == line[|title| + 1];
      assert forall k :: 0 <= k < |name| ==> line[k + 1] == name[k];
      assert |title| == |name|;
      assert title == name;
    }
    if name == title {
      assert line == sTitle + "\n";
    }
  }

  lemma {:induction false} AcrossPairs(ps: seq<Pair>, rest: seq<string>, inSection: bool, title: string, key: string)
    requires GoodKey(key) && forall p :: p in ps ==> GoodPair(p)
    ensures FindKey(PairLines(ps) + rest, inSection, title, key)
         == if inSection && FirstFor(ps, key).Some? then FirstFor(ps, key) else FindKey(rest, inSection, title, key)
  {
    hide GoodPair, PairLine, GoodKey, Sets, Titles, SetValue, FindKey;
    if ps == [] {
      assert PairLines(ps) + rest == rest;
    } else {
      assert ps[0] in ps;
      AcrossPairs(ps[1..], rest, inSection, title, key);
      PairLineIs(ps[0], title, key);
      assert PairLines(ps) + rest == [PairLine(ps[0])] + (PairLines(ps[1..]) + rest);
      FindKeyNext(PairLine(ps[0]), PairLines(ps[1..]) + rest, inSection, title, key);
    }
  }

  lemma {:induction false} FirstForConcat(ps: seq<Pair>, qs: seq<Pair>, key: string)
    ensures FirstFor(ps + qs, key) == if FirstFor(ps, key).Some? then FirstFor(ps, key) else FirstFor(qs, key)
  {
    if ps == [] {
      assert ps + qs == qs;
    } else {
      assert (ps + qs)[1..] == ps[1..] + qs;
      FirstForConcat(ps[1..], qs, key);
    }
  }

  lemma {:induction false} AcrossBlocks(doc: seq<Block>, inSection: bool, title: string, key: string)
    requires Good(doc) && ']' !in title && GoodKey(key)
    ensures FindKey(DocLines(doc), inSection, title, key) == FirstFor(PairsFrom(doc, inSection, title), key)
  {
    hide GoodPair, GoodName, PairLines, HeaderLine, GoodKey, Sets, Titles, SetValue, FindKey, FirstFor;
    if doc == [] {
      NothingFound(inSection, title, key);
    } else {
      assert doc[0] in doc;
      var now := inSection || doc[0].name == title;
      var lines := PairLines(doc[0].pairs) + DocLines(doc[1..]);
      HeaderLineIs(doc[0].name, title, key);
      FindKeyNext(HeaderLine(doc[0].name), lines, inSection, title, key);
      AcrossPairs(doc[0].pairs, DocLines(doc[1..]), now, title, key);
      AcrossBlocks(doc[1..], now, title, key);
      FirstForConcat(doc[0].pairs, PairsFrom(doc[1..], now, title), key);
      assert [] + PairsFrom(doc[1..], now, title) == PairsFrom(doc[1..], now, title);
    }
  }

  lemma NothingFound(inSection: bool, title: string, key: string)
    ensures FindKey([], inSection, title, key) == None && FirstFor([], key) == None
  {
  }

  /**
   * What is found in a written file: of the pairs from the first block of the name to the end of the file,
   * the first whose key begins with the key asked for.
   */
  lemma PrintThenLookUp(doc: seq<Block>, title: string, key: string)
    requires Good(doc) && ']' !in title && GoodKey(key)
    ensures FindKey(Chunks(Print(doc)), false, title, key) == FirstFor(PairsFrom(doc, false, title), key)
  {
    hide Good, Chunks, FindKey, FirstFor, PairsFrom, DocLines, Flat;
    AllWhole(doc);
    ChunksOfFlat(DocLines(doc));
    AcrossBlocks(doc, false, title, key);
  }

  /** So a pair is read back exactly when the first pair found by prefix has its value. */
  lemma {:induction false} ReadBack(doc: seq<Block>, title: string, p: Pair)
    requires Good(doc) && ']' !in title && p in PairsFrom(doc, false, title) && GoodPair(p)
    ensures FindKey(Chunks(Print(doc)), false, title, p.key) == Some(p.value)
      <==> exists k: nat :: IsFirstFor(PairsFrom(doc, false, title), k, p.key) && PairsFrom(doc, false, title)[k].value == p.value
  {
    hide Chunks, FindKey, FirstFor, PairsFrom, Print, GoodPair, GoodKey;
    assert GoodKey(p.key) by { KeyOfPair(p); }
    PrintThenLookUp(doc, title, p.key);
    var ps := PairsFrom(doc, false, title);
    var j :| 0 <= j < |ps| && ps[j] == p;
    var k := FirstForAt(ps, j, p.key);
  }

  ghost predicate IsFirstFor(ps: seq<Pair>, k: nat, key: string) {
    k < |ps| && key <= ps[k].key && forall i :: 0 <= i < k ==> !(key <= ps[i].key)
  }

  lemma KeyOfPair(p: Pair)
    requires GoodPair(p)
    ensures GoodKey(p.key)
  {
  }

  lemma {:induction false} FirstForAt(ps: seq<Pair>, j: nat, key: string) returns (k: nat)
    requires j < |ps| && key <= ps[j].key
    ensures IsFirstFor(ps, k, key) && FirstFor(ps, key) == Some(ps[k].value)
    ensures forall k' :: IsFirstFor(ps, k', key) ==> k' == k
  {
    if key <= ps[0].key {
      k := 0;
    } else {
      var k1 := FirstForAt(ps[1..], j - 1, key);
      k := k1 + 1;
    }
  }

  /** A key of a later block is found in an earlier one that lacks it. */
  lemma SpillsOver(a: string, b: string, p: Pair)
    requires GoodName(a) && GoodName(b) && GoodPair(p)
    ensures FindKey(Chunks(Print([Block(a, []), Block(b, [p])])), false, a, p.key) == Some(p.value)
  {
    hide Chunks, FindKey, Print, GoodName, GoodPair, GoodKey, FirstFor, PairsFrom;
    var doc := [Block(a, []), Block(b, [p])];
    assert GoodKey(p.key) && ']' !in a by { KeyOfPair(p); NameOf(a); }
    PrintThenLookUp(doc, a, p.key);
    OnlyPair(a, b, p);
  }

  lemma NameOf(name: string)
    requires GoodName(name)
    ensures ']' !in name
  {
  }

  lemma OnlyPair(a: string, b: string, p: Pair)
    ensures FirstFor(PairsFrom([Block(a, []), Block(b, [p])], false, a), p.key) == Some(p.value)
  {
    var doc := [Block(a, []), Block(b, [p])];
    assert doc[1..] == [Block(b, [p])] && doc[1..][1..] == [];
    assert PairsFrom(doc[1..], true, a) == [p] + PairsFrom([], true, a);
    assert PairsFrom(doc, false, a) == [] + PairsFrom(doc[1..], true, a);
  }

  /** A longer key in front hides the key. */
  lemma PrefixHides(longer: string, rest: string, v: string, w: string)
    requires GoodPair(Pair(longer + rest, v)) && GoodPair(Pair(longer, w))
    ensures FindKey(Chunks(Print([Block("s", [Pair(longer + rest, v), Pair(longer, w)])])), false, "s", longer) == Some(v)
  {
    hide Chunks, FindKey, Print, GoodKey;
    var ps := [Pair(longer + rest, v), Pair(longer, w)];
    var doc := [Block("s", ps)];
    assert GoodPair(ps[0]) && GoodPair(ps[1]);
    PrintThenLookUp(doc, "s", longer);
    assert PairsFrom(doc, false, "s") == ps + PairsFrom([], true, "s");
  }

  /** A file written and read with ReadString: the value of the first pair found by prefix, if it holds no blank and fits. */
  method PrintThenRead(doc: seq<Block>, title: string, key: string, lpszDefault: string, lLength: nat) returns (value: string)
    requires Good(doc) && ']' !in title && GoodKey(key) && 0 < lLength
    ensures var found := FirstFor(PairsFrom(doc, false, title), key);
      value == Field(if found.Some? then found.value else lpszDefault, lLength)
  {
    hide Good, GoodKey, Chunks, FindKey, FirstFor, PairsFrom, Print, Field;
    var f := new CMTProfile(Print(doc));
    PrintThenLookUp(doc, title, key);
    value := ReadString(f, title, key, lpszDefault, lLength);
  }

  /** A file written and read with ReadLong: a number written for the key comes back, in every file. */
  method PrintThenReadLong(doc: seq<Block>, title: string, key: string, lDef: int) returns (n: int)
    requires Good(doc) && ']' !in title && GoodKey(key)
    ensures var found := FirstFor(PairsFrom(doc, false, title), key);
      n == if found.Some? then Atoi(found.value) else lDef
    ensures forall i :: FirstFor(PairsFrom(doc, false, title), key) == Some(DecInt(i)) ==> n == i
  {
    hide Good, GoodKey, Chunks, FindKey, FirstFor, PairsFrom, Print, Atoi, DecInt;
    var f := new CMTProfile(Print(doc));
    PrintThenLookUp(doc, title, key);
    n := ReadLong(f, title, key, lDef);
    forall i | FirstFor(PairsFrom(doc, false, title), key) == Some(DecInt(i)) ensures n == i {
      AtoiDec(i, "");
      assert DecInt(i) + "" == DecInt(i);
    }
  }

  // Lines that are not written by PairLine.

  /** Blanks behind the equals sign do not belong to the value; the last character of the line never does. */
  lemma {:induction false} BlanksGo(key: string, n: nat, value: string, last: char)
    requires '=' !in key && !(" " <= value)
    ensures SetValue(key + "=" + seq(n, _ => ' ') + value + [last]) == value
  {
    var blanks := seq(n, _ => ' ');
    var line := key + "=" + blanks + value + [last];
    assert forall k :: 0 <= k < |key| ==> line[k] == key[k];
    assert line[|key|] == '=' && '=' in line;
    assert IsFirst(line, '=', 0, |key|) && IsFirst(line, '=', 0, Find(line, '=', 0));
    assert line[|key| + 1..|line| - 1] == blanks + value;
    DropAll(n, value);
  }

  lemma {:induction false} DropAll(n: nat, value: string)
    requires !(" " <= value)
    ensures DropBlanks(seq(n, _ => ' ') + value) == value
  {
    var blanks := seq(n, _ => ' ');
    if n == 0 {
      assert blanks + value == value;
    } else {
      assert (blanks + value)[1..] == seq(n - 1, _ => ' ') + value;
      assert (blanks + value)[..1] == " ";
      DropAll(n - 1, value);
    }
  }

  /** Comment lines change nothing, whatever stands in them. */
  lemma CommentLine(x: string, rest: seq<string>, inSection: bool, title: string, key: string)
    ensures FindKey(["//" + x] + rest, inSection, title, key) == FindKey(rest, inSection, title, key)
    ensures FindKey(["#" + x] + rest, inSection, title, key) == FindKey(rest, inSection, title, key)
  {
    FindKeyNext("//" + x, rest, inSection, title, key);
    FindKeyNext("#" + x, rest, inSection, title, key);
    assert "//" <= "//" + x && "#" <= "#" + x;
  }

  /** A line of more than 1023 characters is read in pieces of 1023. */
  lemma LongLine(x: string, rest: string)
    requires |x| == 1023 && '\n' !in x
    ensures Chunks(x + rest) == [x] + Chunks(rest)
  {
    hide Scan, Chunks;
    var t := x + rest;
    var e := Scan(t, 0, IsNewline);
    ChunksNext(t);
    assert t[..1023] == x && t[1023..] == rest;
  }

  /** What comes through ReadString of any value: its front, as long as it fits and holds no blank and no line end. */
  lemma FieldIs(s: string, lLength: nat)
    requires lLength > 0
    ensures var f := Field(s, lLength);
            && f <= s && |f| < lLength && ' ' !in f && '\r' !in f && '\n' !in f
            && (|f| < |s| && |f| < lLength - 1 ==> s[|f|] == ' ' || s[|f|] == '\r' || s[|f|] == '\n')
  {
    hide Scan;
    var t := if |s| < lLength then s else s[..lLength - 1];
    var e := Scan(t, 0, EndsField);
    assert t <= s;
    assert forall k :: 0 <= k < e ==> !EndsField(t[k]);
  }
}
