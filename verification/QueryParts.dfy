// Query texts put together from parts, and what ParseQueryRule makes of them: which characters stay and which go.
module QueryParts {
  import opened CText
  import opened Template
  import opened BranchRule
  import opened BranchPrint
  import opened OnePass
  import opened QueryRule
  import opened QueryIndex

  /** The parts of a query text. */
  datatype Part =
    | Char(c: char)             // an ordinary character
    | Dollar                    // a '$' in front of no digit
    | Run(text: string)         // text between shift-out and shift-in
    | Hint                      // the opening of a hint
    | Block(text: string)       // a block comment
    | Line(text: string)        // a comment up to the line end
    | Extra                     // a newline in front of another one
    | Reference(p: Piece)

  function PrintPart(p: Part): string
  {
    match p
    case Char(c) => [c]
    case Dollar => "$"
    case Run(text) => [SHIFT_OUT] + text + [SHIFT_IN]
    case Hint => "/*"
    case Block(text) => "/*" + text + "*/"
    case Line(text) => "--" + text
    case Extra => "\n"
    case Reference(p) => BranchPrint.Print(p)
  }

  /** The parts, and whatever stands behind them. */
  function PrintParts(ps: seq<Part>, tail: string): string
  {
    if ps == [] then tail else PrintPart(ps[0]) + PrintParts(ps[1..], tail)
  }

  predicate HoldsPair(s: string, a: char, b: char) { exists k :: 0 <= k < |s| - 1 && s[k] == a && s[k + 1] == b }

  /** The part is what it says in front of this text. */
  ghost predicate PartOk(p: Part, rest: string)
  {
    match p
    case Char(c) =>
      && c !in "[{$" && c != SHIFT_OUT
      && !(c == '-' && StartsWith(rest, '-')) && !(c == '\n' && StartsWith(rest, '\n')) && !(c == '/' && StartsWith(rest, '*'))
    case Dollar => !StartsWithDigit(rest)
    case Run(text) => SHIFT_IN !in text
    case Hint => rest == "" || rest[0] == '+'
    case Block(text) => !StartsWith(text, '+') && !HoldsPair(text, '*', '/')
    case Line(text) => '\n' !in text && (rest == "" || rest[0] == '\n')
    case Extra => StartsWith(rest, '\n')
    case Reference(p) => !p.Lit? && PieceOk(p) && (BarePiece(p) ==> !StartsWith(rest, '('))
  }

  ghost predicate GoodParts(ps: seq<Part>, tail: string)
  {
    ps == [] || (PartOk(ps[0], PrintParts(ps[1..], tail)) && GoodParts(ps[1..], tail))
  }

  /** The characters of a part that stay: comments and doubled newlines go. */
  function Stays(p: Part): string
  {
    match p
    case Block(_) => ""
    case Line(_) => ""
    case Extra => ""
    case Reference(_) => ""
    case _ => PrintPart(p)
  }

  /** The segments in front of what stands behind the parts, and the text still collected there. */
  ghost function Segs(ps: seq<Part>, pending: string): seq<Segment>
  {
    if ps == [] then []
    else match ps[0]
      case Reference(p) => Flush(pending) + [SegOf(p)] + Segs(ps[1..], "")
      case Dollar => Flush(pending) + Segs(ps[1..], "$")
      case _ => Segs(ps[1..], pending + Stays(ps[0]))
  }

  ghost function Left(ps: seq<Part>, pending: string): string
  {
    if ps == [] then pending
    else match ps[0]
      case Reference(p) => Left(ps[1..], "")
      case Dollar => Left(ps[1..], "$")
      case _ => Left(ps[1..], pending + Stays(ps[0]))
  }

  // One part at a time, in front of any text.

  lemma FirstPairAt(x: string, c: string, a: char, b: char, rest: string)
    requires a != b && !HoldsPair(c, a, b)
    ensures FindPair(x + c + [a, b] + rest, a, b, |x|) == |x| + |c|
  {
    var t, n := x + c + [a, b] + rest, |x| + |c|;
    forall k | |x| <= k < n
      ensures !PairAt(t, k, a, b)
    {
      assert t[k] == c[k - |x|];
      assert t[k + 1] == if k + 1 < n then c[k + 1 - |x|] else a;
    }
    assert t[n] == a && t[n + 1] == b;
    assert IsFirstPair(t, a, b, |x|, n);
  }

  /** A block comment goes, up to its first closing pair and no further. */
  lemma BlockGoes(c: string, rest: string, pending: string)
    requires !StartsWith(c, '+') && !HoldsPair(c, '*', '/')
    ensures QueryScan("/*" + c + "*/" + rest, pending) == QueryScan(rest, pending)
  {
    var t := "/*" + c + "*/" + rest;
    FirstPairAt("/*", c, '*', '/', rest);
    assert t == "/*" + c + ['*', '/'] + rest;
    assert t[0] == '/' && t[1] == '*' && t[2] == if c == "" then '*' else c[0];
    assert t[|c| + 4..] == rest;
  }

  /** One that is never closed goes to the end of the text; the two characters alone stay. */
  lemma OpenBlockGoes(c: string, pending: string)
    requires c != "" && c[0] != '+' && !HoldsPair(c, '*', '/')
    ensures QueryScan("/*" + c, pending) == Outcome(Flush(pending), Complete)
  {
    var t := "/*" + c;
    forall k | 2 <= k < |t|
      ensures !PairAt(t, k, '*', '/')
    {
      assert t[k] == c[k - 2] && (k + 1 < |t| ==> t[k + 1] == c[k - 1]);
    }
    assert IsFirstPair(t, '*', '/', 2, |t|) && IsFirstPair(t, '*', '/', 2, FindPair(t, '*', '/', 2));
    assert t[0] == '/' && t[1] == '*' && t[2] == c[0];
    assert t[|t|..] == "";
  }

  /** A line comment goes, but not the line end behind it. */
  lemma LineGoes(c: string, rest: string, pending: string)
    requires '\n' !in c && (rest == "" || rest[0] == '\n')
    ensures QueryScan("--" + c + rest, pending) == QueryScan(rest, pending)
  {
    var t := "--" + c + rest;
    var n := 2 + |c|;
    forall k | 0 <= k < n
      ensures t[k] != '\n'
    {
      assert t[k] == if k < 2 then '-' else c[k - 2];
    }
    assert IsFirst(t, '\n', 0, n) && IsFirst(t, '\n', 0, Find(t, '\n', 0));
    assert t[n..] == rest && t[0] == t[1] == '-';
  }

  /** Of a doubled newline one goes. */
  lemma ExtraGoes(rest: string, pending: string)
    requires StartsWith(rest, '\n')
    ensures QueryScan("\n" + rest, pending) == QueryScan(rest, pending)
  {
    var t := "\n" + rest;
    assert t[1..] == rest && t[0] == '\n' && t[1] == rest[0];
  }

  /** The opening of a hint stays; the scan goes on behind it. */
  lemma HintStays(rest: string, pending: string)
    requires rest == "" || rest[0] == '+'
    ensures QueryScan("/*" + rest, pending) == QueryScan(rest, pending + "/*")
  {
    var t := "/*" + rest;
    assert t[0] == '/' && t[1] == '*' && t[2..] == rest && t[..2] == "/*";
    assert rest != "" ==> t[2] == rest[0];
  }

  /** A run stays as it is, with both marks and whatever stands between them. */
  lemma RunStays(c: string, rest: string, pending: string)
    requires SHIFT_IN !in c
    ensures QueryScan([SHIFT_OUT] + c + [SHIFT_IN] + rest, pending) == QueryScan(rest, pending + ([SHIFT_OUT] + c + [SHIFT_IN]))
  {
    var x := [SHIFT_OUT] + c + [SHIFT_IN];
    var t, n := x + rest, |c| + 1;
    forall k | 0 <= k < n
      ensures t[k] != SHIFT_IN
    {
      assert t[k] == if k < 1 then SHIFT_OUT else c[k - 1];
    }
    assert t[n] == SHIFT_IN;
    assert IsFirst(t, SHIFT_IN, 0, n) && IsFirst(t, SHIFT_IN, 0, Find(t, SHIFT_IN, 0));
    assert t[n + 1..] == rest && t[..n + 1] == x;
  }

  /** A run without its end reads past the end of the text. */
  lemma OpenRun(c: string, pending: string)
    requires SHIFT_IN !in c
    ensures QueryScan([SHIFT_OUT] + c, pending) == Outcome([], Overrun)
  {
    var t := [SHIFT_OUT] + c;
    forall k | 0 <= k < |t|
      ensures t[k] != SHIFT_IN
    {
      assert t[k] == if k < 1 then SHIFT_OUT else c[k - 1];
    }
    assert IsFirst(t, SHIFT_IN, 0, Find(t, SHIFT_IN, 0));
  }

  lemma CharStays(c: char, rest: string, pending: string)
    requires PartOk(Char(c), rest)
    ensures QueryScan([c] + rest, pending) == QueryScan(rest, pending + [c])
  {
    var t := [c] + rest;
    assert t[1..] == rest && t[0] == c && (rest != "" ==> t[1] == rest[0]);
  }

  lemma DollarStays(rest: string, pending: string)
    requires !StartsWithDigit(rest)
    ensures QueryScan("$" + rest, pending) == Prepend(Flush(pending), QueryScan(rest, "$"))
  {
    var t := "$" + rest;
    assert t[1..] == rest && t[0] == '$';
  }

  lemma ReferenceBinds(p: Piece, rest: string, pending: string)
    requires PartOk(Reference(p), rest)
    ensures QueryScan(Print(p) + rest, pending) == Prepend(Flush(pending) + [SegOf(p)], QueryScan(rest, ""))
  {
    hide Print, SegOf, ReadRef, PieceOk, KindOf;
    var t := Print(p) + rest;
    ReadPrinted(p, rest);
    IsRef(p);
    QueryScanRef(t, pending);
    assert t[|Print(p)|..] == rest;
  }

  lemma IsRef(p: Piece)
    requires !p.Lit?
    ensures SegOf(p).Ref?
  {
  }

  lemma PrependTwice(a: seq<Segment>, b: seq<Segment>, o: Outcome)
    ensures Prepend(a, Prepend(b, o)) == Prepend(a + b, o)
  {
    assert a + (b + o.segs) == a + b + o.segs;
  }

  /** What the scan makes of parts, whatever stands behind them. */
  lemma {:induction false} PartsScan(ps: seq<Part>, tail: string, pending: string)
    requires GoodParts(ps, tail)
    ensures QueryScan(PrintParts(ps, tail), pending) == Prepend(Segs(ps, pending), QueryScan(tail, Left(ps, pending)))
    decreases |ps|
  {
    hide QueryScan, PieceOk, SegOf;
    if ps == [] {
      PrependNothing(QueryScan(tail, pending));
    } else {
      var rest, later := PrintParts(ps[1..], tail), QueryScan(tail, Left(ps, pending));
      match ps[0] {
        case Reference(p) =>
          ReferenceBinds(p, rest, pending);
          PartsScan(ps[1..], tail, "");
          PrependTwice(Flush(pending) + [SegOf(p)], Segs(ps[1..], ""), later);
        case Dollar =>
          DollarStays(rest, pending);
          PartsScan(ps[1..], tail, "$");
          PrependTwice(Flush(pending), Segs(ps[1..], "$"), later);
        case _ =>
          TextStep(ps[0], rest, pending);
          PartsScan(ps[1..], tail, pending + Stays(ps[0]));
      }
    }
  }

  lemma PrependNothing(o: Outcome)
    ensures Prepend([], o) == o
  {
    assert [] + o.segs == o.segs;
  }

  lemma TextStep(p: Part, rest: string, pending: string)
    requires PartOk(p, rest) && !p.Reference? && !p.Dollar?
    ensures QueryScan(PrintPart(p) + rest, pending) == QueryScan(rest, pending + Stays(p))
  {
    hide QueryScan, HoldsPair;
    assert pending + "" == pending;
    match p
    case Char(c) => CharStays(c, rest, pending);
    case Run(text) => RunStays(text, rest, pending);
    case Hint => HintStays(rest, pending);
    case Block(text) => BlockGoes(text, rest, pending);
    case Line(text) => LineGoes(text, rest, pending);
    case Extra => ExtraGoes(rest, pending);
  }

  // The statement.

  /** The name of the k-th bind, up to 99. */
  function BindName(k: nat): string
    requires k <= 99
  {
    [':', 'v', DigitChar(k / 10), DigitChar(k % 10)]
  }

  function RefCount(ps: seq<Part>): nat
  {
    if ps == [] then 0 else (if ps[0].Reference? then 1 else 0) + RefCount(ps[1..])
  }

  /** The statement: what stays of each part, and the next name for each reference. */
  function Statement(ps: seq<Part>, k: nat): string
    requires k + RefCount(ps) <= 100
  {
    if ps == [] then ""
    else if ps[0].Reference? then BindName(k) + Statement(ps[1..], k + 1)
    else Stays(ps[0]) + Statement(ps[1..], k)
  }

  predicate NoLits(ps: seq<Part>) { forall i :: 0 <= i < |ps| && ps[i].Reference? ==> !ps[i].p.Lit? }

  lemma {:induction false} PartsLits(ps: seq<Part>, tail: string)
    requires GoodParts(ps, tail)
    ensures NoLits(ps)
  {
    hide PieceOk;
    if ps != [] {
      PartsLits(ps[1..], tail);
      assert forall i :: 0 < i < |ps| ==> ps[i] == ps[1..][i - 1];
    }
  }

  /** The references, in order. */
  function Bound(ps: seq<Part>): (refs: seq<Segment>)
    ensures |refs| == RefCount(ps)
  {
    if ps == [] then [] else (if ps[0].Reference? then [SegOf(ps[0].p)] else []) + Bound(ps[1..])
  }

  lemma NameIs(k: nat)
    requires k <= 99
    ensures Placeholder(k) == BindName(k)
  {
    if k < 10 {
      assert Dec(k) == [DigitChar(k)] && "0"[0] == DigitChar(0);
    } else {
      assert Dec(k / 10) == [DigitChar(k / 10)] && Dec(k) == Dec(k / 10) + [DigitChar(k % 10)];
    }
  }

  /** Segments as text, names from k on. */
  ghost function WovenText(segs: seq<Segment>, k: nat): string
  {
    if segs == [] then ""
    else if segs[0].Text? then segs[0].text + WovenText(segs[1..], k)
    else Placeholder(k) + WovenText(segs[1..], k + 1)
  }

  lemma {:induction false} RefsCons(segs: seq<Segment>)
    requires segs != []
    ensures Refs(segs) == (if segs[0].Ref? then [segs[0]] else []) + Refs(segs[1..])
  {
    if |segs| == 1 {
      assert segs[..0] == [] && segs[1..] == [];
    } else {
      var front := segs[..|segs| - 1];
      RefsCons(front);
      assert segs[1..][..|segs| - 2] == front[1..];
      assert segs[1..][|segs| - 2] == segs[|segs| - 1];
    }
  }

  lemma {:induction false} RefsConcat(a: seq<Segment>, b: seq<Segment>)
    ensures Refs(a + b) == Refs(a) + Refs(b)
  {
    hide Refs;
    if a == [] {
      assert a + b == b;
      WovenNone(0);
    } else {
      assert (a + b)[1..] == a[1..] + b;
      RefsCons(a + b);
      RefsCons(a);
      RefsConcat(a[1..], b);
    }
  }

  lemma {:induction false} WovenConcat(a: seq<Segment>, b: seq<Segment>, k: nat)
    ensures WovenText(a + b, k) == WovenText(a, k) + WovenText(b, k + |Refs(a)|)
  {
    hide Placeholder;
    if a == [] {
      assert a + b == b;
    } else {
      assert (a + b)[1..] == a[1..] + b;
      RefsCons(a);
      WovenConcat(a[1..], b, if a[0].Text? then k else k + 1);
    }
  }

  lemma WovenOne(s: Segment, k: nat)
    ensures WovenText([s], k) == if s.Text? then s.text else Placeholder(k)
  {
    hide Placeholder;
    assert [s][1..] == [];
  }

  /** With at most 99 references the statement is the segments as text. */
  lemma {:induction false} EmitText(segs: seq<Segment>, junk: string)
    requires segs != [] && |Refs(segs)| <= 99
    ensures Emit(segs, junk).buf == WovenText(segs, 1)
  {
    hide Placeholder, NodeOf, Refs, WovenText, Emit, PutRef, PutText;
    var front, s := segs[..|segs| - 1], segs[|segs| - 1];
    assert segs == front + [s];
    RefsConcat(front, [s]);
    WovenConcat(front, [s], 1);
    EmitAppend(front, s, junk);
    EmitIndexed(front, junk);
    var d := Emit(front, junk);
    var k := 1 + |Refs(front)|;
    WovenOne(s, k);
    if front == [] {
      EmitNothing(junk);
      WovenNone(1);
    } else {
      EmitText(front, junk);
    }
    PutText1(d, s, k);
    RefsOne(s);
  }

  lemma RefsOne(s: Segment)
    ensures |Refs([s])| == if s.Ref? then 1 else 0
  {
    assert [s][..0] == [];
  }

  lemma WovenNone(k: nat)
    ensures WovenText([], k) == "" && Refs([]) == []
  {
  }

  lemma PutText1(d: Draft, s: Segment, k: nat)
    requires d.cur <= |d.buf| && k == 1 + |d.binds|
    ensures PutSegment(d, s).buf == d.buf[..d.cur] + if s.Text? then s.text else Placeholder(k)
  {
    hide Placeholder, NodeOf;
  }

  lemma WovenFlush(pending: string, k: nat)
    ensures WovenText(Flush(pending), k) == pending && Refs(Flush(pending)) == []
  {
    if pending != "" {
      assert [Text(pending)][1..] == [] && [Text(pending)][..0] == [];
    }
  }

  /** The segments of parts as text. */
  /** Statement, one part further. */
  lemma StatementNext(ps: seq<Part>, k: nat, pending: string)
    requires ps != [] && k + RefCount(ps) <= 100
    ensures ps[0].Reference? ==> k + 1 + RefCount(ps[1..]) <= 100 && k <= 99
    ensures ps[0].Reference? ==> pending + Statement(ps, k) == pending + (BindName(k) + Statement(ps[1..], k + 1))
    ensures !ps[0].Reference? ==> k + RefCount(ps[1..]) <= 100
    ensures !ps[0].Reference? ==> pending + Statement(ps, k) == pending + Stays(ps[0]) + Statement(ps[1..], k)
  {
    hide BindName, Stays;
    if !ps[0].Reference? {
      assert pending + Stays(ps[0]) + Statement(ps[1..], k) == pending + (Stays(ps[0]) + Statement(ps[1..], k));
    }
  }

  lemma {:induction false} PartsText(ps: seq<Part>, pending: string, k: nat)
    requires k + RefCount(ps) <= 100 && NoLits(ps)
    ensures var segs := Segs(ps, pending) + Flush(Left(ps, pending));
            WovenText(segs, k) == pending + Statement(ps, k)
    decreases |ps|
  {
    hide Placeholder, BindName, WovenText, Refs, SegOf, Flush, Statement;
    WovenFlush(pending, k);
    if ps == [] {
      assert [] + Flush(pending) == Flush(pending);
      NoStatement(k);
    } else {
      StatementNext(ps, k, pending);
      match ps[0] {
        case Reference(p) =>
          var later := Segs(ps[1..], "") + Flush(Left(ps[1..], ""));
          PartsText(ps[1..], "", k + 1);
          assert "" + Statement(ps[1..], k + 1) == Statement(ps[1..], k + 1);
          NamedThen(pending, SegOf(p), later, k);
          IsRef(p);
          NameIs(k);
          RefStep(Flush(pending), SegOf(p), Segs(ps[1..], ""), Flush(Left(ps[1..], "")));
        case Dollar =>
          var later := Segs(ps[1..], "$") + Flush(Left(ps[1..], "$"));
          PartsText(ps[1..], "$", k);
          assert pending + "$" + Statement(ps[1..], k) == pending + ("$" + Statement(ps[1..], k));
          WovenConcat(Flush(pending), later, k);
          RefsConcat(Flush(pending), later);
          DollarStep(Flush(pending), Segs(ps[1..], "$"), Flush(Left(ps[1..], "$")));
        case _ =>
          PartsText(ps[1..], pending + Stays(ps[0]), k);
      }
    }
  }

  lemma NoStatement(k: nat)
    requires k <= 100
    ensures Statement([], k) == ""
  {
  }

  lemma RefStep(a: seq<Segment>, s: Segment, b: seq<Segment>, c: seq<Segment>)
    ensures a + [s] + b + c == a + ([s] + (b + c))
  {
  }

  lemma DollarStep(a: seq<Segment>, b: seq<Segment>, c: seq<Segment>)
    ensures a + b + c == a + (b + c)
  {
  }

  lemma NamedThen(pending: string, s: Segment, later: seq<Segment>, k: nat)
    ensures s.Ref? ==> WovenText(Flush(pending) + ([s] + later), k) == pending + (Placeholder(k) + WovenText(later, k + 1))
    ensures s.Ref? ==> Refs(Flush(pending) + ([s] + later)) == [s] + Refs(later)
  {
    hide Placeholder;
    WovenFlush(pending, k);
    WovenConcat(Flush(pending), [s] + later, k);
    RefsConcat(Flush(pending), [s] + later);
    RefsCons([s] + later);
    assert ([s] + later)[1..] == later;
  }

  lemma NoWord(segs: seq<Segment>, k: nat)
    requires (forall i :: 0 <= i < |segs| && segs[i].Text? ==> segs[i].text != "") && WovenText(segs, k) == ""
    ensures segs == []
  {
    PlaceholderLength(k);
  }

  lemma {:induction false} SegsWritten(ps: seq<Part>, pending: string)
    requires NoLits(ps)
    ensures forall i :: 0 <= i < |Segs(ps, pending)| && Segs(ps, pending)[i].Text? ==> Segs(ps, pending)[i].text != ""
    decreases |ps|
  {
    if ps != [] {
      match ps[0] {
        case Reference(p) =>
          IsRef(p);
          SegsWritten(ps[1..], "");
        case Dollar =>
          SegsWritten(ps[1..], "$");
        case _ =>
          SegsWritten(ps[1..], pending + Stays(ps[0]));
      }
    }
  }

  /**
   * ParseQueryRule on any text put together from parts: the binds are the references, and up to 99 of them the
   * statement is what stays of each part with a name for each reference.
   */
  method ParseParts(rule: QRuleData, ps: seq<Part>, junk: string) returns (end: End)
    requires rule.pBindValue == [] && GoodParts(ps, "")
    modifies rule
    ensures end == Complete && |rule.pBindValue| == rule.nBindVal == RefCount(ps)
    ensures forall i :: 0 <= i < RefCount(ps) ==> rule.pBindValue[i].node == NodeOf(Bound(ps)[i])
    ensures RefCount(ps) <= 99 ==> rule.QueryStatement == if Statement(ps, 1) == "" then junk else Statement(ps, 1)
  {
    hide *;
    ghost var segs := PartsFound(ps);
    end := rule.ParseQueryRule(PrintParts(ps, ""), junk);
    HeldParts(rule, segs, junk, old(rule.QueryStatement), old(rule.nBindVal));
    if RefCount(ps) <= 99 {
      PartsLits(ps, "");
      StatementFound(ps, segs, junk);
    }
  }

  lemma HeldParts(rule: QRuleData, segs: seq<Segment>, junk: string, oldStatement: string, oldCount: nat)
    requires rule.Holds(Outcome(segs, Complete), junk, oldStatement, oldCount)
    ensures rule.pBindValue == Emit(segs, junk).binds && rule.QueryStatement == Emit(segs, junk).buf
    ensures rule.nBindVal == |rule.pBindValue| == |Refs(segs)|
    ensures forall i :: 0 <= i < |Refs(segs)| ==> rule.pBindValue[i].node == NodeOf(Refs(segs)[i])
  {
    hide Emit, Named, Woven, Flat;
    EmitIndexed(segs, junk);
  }

  lemma TheEnd(pending: string)
    ensures QueryScan("", pending) == Outcome(Flush(pending), Complete)
  {
  }

  lemma PartsFound(ps: seq<Part>) returns (segs: seq<Segment>)
    requires GoodParts(ps, "")
    ensures segs == Segs(ps, "") + Flush(Left(ps, ""))
    ensures QueryScan(PrintParts(ps, ""), "") == Outcome(segs, Complete) && Refs(segs) == Bound(ps)
  {
    hide Refs, Bound, GoodParts, PrintParts, Segs, Left;
    segs := Segs(ps, "") + Flush(Left(ps, ""));
    PartsScan(ps, "", "");
    PartsLits(ps, "");
    PartsRefs(ps, "");
    TheEnd(Left(ps, ""));
  }

  lemma {:induction false} PartsRefs(ps: seq<Part>, pending: string)
    requires NoLits(ps)
    ensures Refs(Segs(ps, pending) + Flush(Left(ps, pending))) == Bound(ps)
    decreases |ps|
  {
    hide Refs, SegOf, WovenText, Flush;
    WovenFlush(pending, 0);
    if ps == [] {
      assert [] + Flush(pending) == Flush(pending);
    } else {
      match ps[0] {
        case Reference(p) =>
          var later := Segs(ps[1..], "") + Flush(Left(ps[1..], ""));
          PartsRefs(ps[1..], "");
          NamedThen(pending, SegOf(p), later, 0);
          IsRef(p);
          RefStep(Flush(pending), SegOf(p), Segs(ps[1..], ""), Flush(Left(ps[1..], "")));
        case Dollar =>
          var later := Segs(ps[1..], "$") + Flush(Left(ps[1..], "$"));
          PartsRefs(ps[1..], "$");
          RefsConcat(Flush(pending), later);
          DollarStep(Flush(pending), Segs(ps[1..], "$"), Flush(Left(ps[1..], "$")));
        case _ =>
          PartsRefs(ps[1..], pending + Stays(ps[0]));
      }
    }
  }

  lemma StatementFound(ps: seq<Part>, segs: seq<Segment>, junk: string)
    requires segs == Segs(ps, "") + Flush(Left(ps, "")) && RefCount(ps) <= 99 && NoLits(ps) && Refs(segs) == Bound(ps)
    ensures Emit(segs, junk).buf == if Statement(ps, 1) == "" then junk else Statement(ps, 1)
  {
    hide Refs, Bound, Segs, Left, WovenText, Emit, Statement;
    PartsText(ps, "", 1);
    assert "" + Statement(ps, 1) == Statement(ps, 1);
    SegsWritten(ps, "");
    if segs == [] {
      EmitNothing(junk);
      WovenNone(1);
    } else {
      EmitText(segs, junk);
      if WovenText(segs, 1) == "" {
        NoWord(segs, 1);
      }
    }
  }
}
