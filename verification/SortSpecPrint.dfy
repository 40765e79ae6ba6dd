// When LoadRuleAggr ends, and what it reads back from a written list of columns.
module SortSpecPrint {
  import opened Options
  import opened CText
  import opened SortSpec

  /** Every printing character is one the loop can consume. */
  predicate Clean(s: string) {
    forall i :: 0 <= i < |s| && IsGraph(s[i]) ==> IsDigit(s[i]) || s[i] == 'A' || s[i] == 'D' || s[i] == ','
  }

  /** r is what is left of s behind a clean prefix. */
  ghost predicate Consumes(s: string, r: string) {
    |r| <= |s| && r == s[|s| - |r|..] && Clean(s[..|s| - |r|])
  }

  lemma ConsumedTwice(s: string, t: string, r: string)
    requires Consumes(s, t) && Consumes(t, r)
    ensures Consumes(s, r)
  {
    var k := |s| - |t|;
    assert forall i :: k <= i < |s| ==> s[i] == t[i - k];
    forall i | 0 <= i < |s| - |r| && IsGraph(s[i])
      ensures IsDigit(s[i]) || s[i] == 'A' || s[i] == 'D' || s[i] == ','
    {
      if i < k {
        assert s[..k][i] == s[i];
      } else {
        assert t[..|t| - |r|][i - k] == s[i];
      }
    }
  }

  lemma CleanParts(s: string, r: string)
    requires Consumes(s, r)
    ensures Clean(r) <==> Clean(s)
  {
    if Clean(r) {
      assert r[|r|..] == "" && r[..|r|] == r && s[..|s|] == s;
      ConsumedTwice(s, r, "");
    }
    assert forall i :: 0 <= i < |r| ==> r[i] == s[|s| - |r| + i];
  }

  lemma SameText(s: string, r: string)
    requires Consumes(s, r)
    ensures |r| <= |s| && (|r| == |s| ==> r == s)
  {
  }

  lemma {:induction false} SkipBlankConsumes(s: string)
    ensures Consumes(s, SkipBlank(s))
    ensures SkipBlank(s) == s ==> s == "" || IsGraph(s[0])
  {
    if s != "" && !IsGraph(s[0]) {
      SkipBlankConsumes(s[1..]);
      assert Clean(s[..1]);
      ConsumedTwice(s, s[1..], SkipBlank(s));
    }
  }

  lemma DigitsConsume(s: string)
    ensures Consumes(s, AfterDigits(s))
    ensures AfterDigits(s) == s && s != "" ==> !IsDigit(s[0])
  {
    DigitRunPrefix(s);
    var d := DigitRun(s);
    assert s[..|d|] == d;
  }

  function AfterLetter(u: string): string { if u != "" && (u[0] == 'D' || u[0] == 'A') then u[1..] else u }

  lemma LetterConsumes(u: string)
    ensures Consumes(u, AfterLetter(u)) && (AfterLetter(u) == u ==> u == "" || (u[0] != 'D' && u[0] != 'A'))
  {
    assert u[0..] == u;
  }

  lemma CommaConsumes(u: string)
    ensures Consumes(u, SkipComma(u)) && (SkipComma(u) == u ==> u == "" || u[0] != ',')
  {
    assert u[0..] == u;
  }

  lemma TurnIs(s: string)
    ensures Turn(s).1 == SkipComma(SkipBlank(AfterLetter(AfterDigits(SkipBlank(s)))))
  {
    hide SkipBlank, AfterDigits, DigitRun, DigitsValue, AsShort, SkipComma;
  }

  /** A turn consumes a clean prefix, and something of any clean text. */
  lemma TurnConsumes(s: string)
    requires s != ""
    ensures Consumes(s, Turn(s).1) && |Turn(s).1| <= |s|
    ensures Clean(s) ==> |Turn(s).1| < |s|
  {
    hide *;
    var t := SkipBlank(s);
    var u := AfterDigits(t);
    var v := AfterLetter(u);
    var w := SkipBlank(v);
    var r := SkipComma(w);
    TurnIs(s);
    SkipBlankConsumes(s);
    DigitsConsume(t);
    LetterConsumes(u);
    SkipBlankConsumes(v);
    CommaConsumes(w);
    ConsumedTwice(s, t, u);
    ConsumedTwice(s, u, v);
    ConsumedTwice(s, v, w);
    ConsumedTwice(s, w, r);
    SameText(s, t);
    SameText(t, u);
    SameText(u, v);
    SameText(v, w);
    SameText(w, r);
    if |r| == |s| {
      NotClean(s);
    }
  }

  lemma NotClean(s: string)
    requires s != "" && IsGraph(s[0]) && !IsDigit(s[0]) && s[0] != 'A' && s[0] != 'D' && s[0] != ','
    ensures !Clean(s)
  {
  }

  lemma {:induction false} MoreRoom(s: string, room: nat, more: nat)
    requires Columns(s, room).Some? && room <= more
    ensures Columns(s, more) == Columns(s, room)
    decreases room
  {
    hide Turn;
    if s != "" {
      MoreRoom(Turn(s).1, room - 1, more - 1);
    }
  }

  lemma {:induction false} CleanEnds(s: string)
    requires Clean(s)
    ensures Columns(s, |s|).Some?
    decreases |s|
  {
    hide Turn, Clean, Consumes;
    if s != "" {
      TurnConsumes(s);
      var rest := Turn(s).1;
      CleanParts(s, rest);
      CleanEnds(rest);
      MoreRoom(rest, |rest|, |s| - 1);
    }
  }

  lemma {:induction false} UncleanNever(s: string, room: nat)
    requires !Clean(s)
    ensures Columns(s, room) == None
    decreases room
  {
    hide Turn, Consumes;
    assert s != "";
    if room > 0 {
      TurnConsumes(s);
      CleanParts(s, Turn(s).1);
      UncleanNever(Turn(s).1, room - 1);
    }
  }

  /** The loop comes to the end of the text exactly when no printing character but digits, A, D and commas is in it. */
  lemma Ends(s: string)
    ensures (exists room :: Columns(s, room).Some?) <==> Clean(s)
  {
    if Clean(s) {
      CleanEnds(s);
    } else {
      forall room
        ensures Columns(s, room) == None
      {
        UncleanNever(s, room);
      }
    }
  }

  // A written list of columns.

  datatype Written = Written(before: string, idx: nat, letter: Option<char>, after: string)

  predicate Blank(s: string) { forall i :: 0 <= i < |s| ==> !IsGraph(s[i]) }

  predicate GoodColumn(w: Written) {
    Blank(w.before) && Blank(w.after) && w.idx < 32768 && (w.letter.Some? ==> w.letter.value == 'A' || w.letter.value == 'D')
  }

  function LetterText(w: Written): string { if w.letter.Some? then [w.letter.value] else "" }

  function Core(w: Written): string { w.before + (Dec(w.idx) + LetterText(w)) }

  function Text(w: Written): string { Core(w) + w.after }

  /** The columns with commas between them. */
  function Print(ws: seq<Written>): string
  {
    if ws == [] then "" else if |ws| == 1 then Text(ws[0]) else Text(ws[0]) + ("," + Print(ws[1..]))
  }

  function Meaning(ws: seq<Written>): seq<Column>
  {
    if ws == [] then []
    else [Column(ws[0].idx, if ws[0].letter.Some? then ws[0].letter.value else 'A')] + Meaning(ws[1..])
  }

  lemma {:induction false} SkipOverBlank(b: string, x: string)
    requires Blank(b) && (x == "" || IsGraph(x[0]))
    ensures SkipBlank(b + x) == x
  {
    if b == "" {
      assert b + x == x;
    } else {
      assert (b + x)[1..] == b[1..] + x;
      SkipOverBlank(b[1..], x);
    }
  }

  /** One turn reads one written column and the comma behind it. */
  lemma TurnReads(w: Written, rest: string)
    requires GoodColumn(w) && (rest == "" || rest[0] == ',')
    ensures Turn(Text(w) + rest) == (Meaning([w])[0], SkipComma(rest))
  {
    hide SkipBlank, DigitRun, Dec, DigitsValue, AfterDigits;
    var v := w.after + rest;
    var tail := LetterText(w) + v;
    var num := Dec(w.idx) + tail;
    assert Text(w) + rest == w.before + num;
    FirstDigit(w.idx, tail);
    SkipOverBlank(w.before, num);
    NumberRead(w.idx, tail) by {
      assert w.letter.None? ==> tail == v;
    }
    assert w.letter.Some? ==> tail[0] == w.letter.value && tail[1..] == v;
    assert w.letter.None? ==> tail == v;
    SkipOverBlank(w.after, rest);
  }

  lemma FirstDigit(n: nat, tail: string)
    ensures Dec(n) != "" && IsDigit((Dec(n) + tail)[0])
  {
    hide Dec;
    assert IsDigit(Dec(n)[0]);
  }

  lemma NumberRead(n: nat, tail: string)
    requires !StartsWithDigit(tail)
    ensures DigitRun(Dec(n) + tail) == Dec(n) && AfterDigits(Dec(n) + tail) == tail
  {
    hide Dec;
    DigitRunAppend(Dec(n), tail);
  }

  lemma {:induction false} ReadsBack(ws: seq<Written>)
    requires forall w :: w in ws ==> GoodColumn(w)
    ensures Columns(Print(ws), |ws|) == Some(Meaning(ws))
  {
    hide Turn, GoodColumn, Text, SkipComma;
    if ws != [] {
      assert ws[0] in ws;
      NotEmpty(ws[0]);
      ReadsBack(ws[1..]);
      var rest := if |ws| == 1 then "" else "," + Print(ws[1..]);
      CommaSkipped(Print(ws[1..]));
      TurnReads(ws[0], rest);
      assert Text(ws[0]) + "" == Text(ws[0]);
      assert Meaning(ws) == [Meaning([ws[0]])[0]] + Meaning(ws[1..]);
    }
  }

  lemma CommaSkipped(x: string)
    ensures SkipComma("," + x) == x && SkipComma("") == ""
  {
  }

  lemma NotEmpty(w: Written)
    ensures Text(w) != ""
  {
    hide Dec;
  }

  lemma {:induction false} RTrimAppend(a: string, b: string)
    requires a != "" && a[|a| - 1] != ' '
    ensures RTrim(a + b) == a + RTrim(b)
  {
    if b != "" && b[|b| - 1] == ' ' {
      assert (a + b)[..|a + b| - 1] == a + b[..|b| - 1];
      RTrimAppend(a, b[..|b| - 1]);
    } else {
      assert b == "" ==> a + b == a;
    }
  }

  /** The text as the parser gets it: the blanks at the end are cut. */
  lemma {:induction false} TrimPrint(ws: seq<Written>) returns (vs: seq<Written>)
    requires ws != [] && forall w :: w in ws ==> GoodColumn(w)
    ensures RTrim(Print(ws)) == Print(vs) && Meaning(vs) == Meaning(ws) && |vs| == |ws|
    ensures forall w :: w in vs ==> GoodColumn(w)
  {
    hide RTrim, Core, Dec, Print;
    assert ws[0] in ws;
    PrintOne(ws[0]);
    CoreEnds(ws[0]);
    if |ws| == 1 {
      RTrimAppend(Core(ws[0]), ws[0].after);
      vs := [ws[0].(after := RTrim(ws[0].after))];
      PrintOne(vs[0]);
      assert ws == [ws[0]];
      assert Core(vs[0]) == Core(ws[0]) by { CoreOf(ws[0], RTrim(ws[0].after)); }
      assert Meaning(vs) == Meaning(ws) by { assert ws == [ws[0]] && ws[1..] == vs[1..] == []; }
    } else {
      var more := TrimPrint(ws[1..]);
      vs := [ws[0]] + more;
      assert vs[1..] == more;
      var x := Text(ws[0]) + ",";
      PrintMore(ws[0], ws[1..]);
      PrintMore(ws[0], more);
      assert ws == [ws[0]] + ws[1..];
      RTrimAppend(x, Print(ws[1..]));
    }
  }

  lemma PrintMore(w: Written, ws: seq<Written>)
    requires ws != []
    ensures Print([w] + ws) == Text(w) + "," + Print(ws)
  {
    assert ([w] + ws)[1..] == ws;
  }

  lemma PrintOne(w: Written)
    ensures Print([w]) == Text(w)
  {
  }

  lemma CoreOf(w: Written, b: string)
    ensures Core(w.(after := b)) == Core(w)
  {
  }

  lemma CoreEnds(w: Written)
    requires GoodColumn(w)
    ensures Core(w) != "" && Core(w)[|Core(w)| - 1] != ' '
  {
    hide Dec;
    var c := Core(w);
    var d := Dec(w.idx);
    assert c[|c| - 1] == if w.letter.Some? then w.letter.value else d[|d| - 1];
    assert IsDigit(d[|d| - 1]);
  }

  /** Up to nine written columns are loaded as written, whatever blanks stand around the commas and at the end. */
  lemma WrittenColumnsLoad(ws: seq<Written>)
    requires 0 < |ws| <= 9 && forall w :: w in ws ==> GoodColumn(w)
    ensures RTrim(Print(ws)) != "" && Columns(RTrim(Print(ws)), 9) == Some(Meaning(ws)) && |Meaning(ws)| == |ws|
  {
    hide RTrim, Columns, Meaning, GoodColumn, Text;
    var vs := TrimPrint(ws);
    ReadsBack(vs);
    MoreRoom(Print(vs), |vs|, 9);
    MeaningSize(ws);
    NotEmpty(vs[0]);
  }

  lemma {:induction false} MeaningSize(ws: seq<Written>)
    ensures |Meaning(ws)| == |ws|
  {
    if ws != [] {
      MeaningSize(ws[1..]);
    }
  }

  /** LoadRuleAggr on a written list of up to nine columns. */
  method PrintThenLoad(option: int, group: string, ws: seq<Written>) returns (r: Outcome)
    requires 0 < |ws| <= 9 && forall w :: w in ws ==> GoodColumn(w)
    ensures r.Loaded? && fresh(r.aggr) && r.aggr.Holds(Meaning(ws))
  {
    hide RTrim, Columns, Meaning, GoodColumn, Print;
    WrittenColumnsLoad(ws);
    r := LoadRuleAggr(option, group, Print(ws));
  }
}
