// Printing branch templates, and the proof that ParseBranchRule undoes it.
module BranchPrint {
  import opened Options
  import opened CText
  import opened Template
  import opened BranchRule

  datatype Subscript = NoSub | Index(k: int) | HashChar(c: char) | HashIndex(k: int)

  /** The pieces of a template: literal text, [code](sub), {id:params:col}(sub), $code$. */
  datatype Piece =
    | Lit(text: string)
    | ItemRef(code: int, sub: Subscript)
    | RuleRef(id: int, params: string, col: Option<int>, sub: Subscript)
    | ParmRef(code: int)

  function PrintSub(sub: Subscript): string
  {
    match sub
    case NoSub => []
    case Index(k) => ['('] + DecInt(k) + [')']
    case HashChar(c) => ['(', '#', c, ')']
    case HashIndex(k) => ['(', '#'] + DecInt(k) + [')']
  }

  function PrintCol(col: Option<int>): string { if col.None? then [] else DecInt(col.value) }

  function Print(p: Piece): (s: string)
  {
    match p
    case Lit(text) => text
    case ItemRef(code, sub) => ['['] + DecInt(code) + [']'] + PrintSub(sub)
    case RuleRef(id, params, col, sub) =>
      ['{'] + DecInt(id) + [':'] + params + [':'] + PrintCol(col) + ['}'] + PrintSub(sub)
    case ParmRef(code) => ['$'] + DecInt(code) + ['$']
  }

  function PrintAll(ps: seq<Piece>): string
  {
    if ps == [] then "" else Print(ps[0]) + PrintAll(ps[1..])
  }

  /** Text without delimiters outside complete shift-out/shift-in runs. */
  ghost predicate Plain(t: string)
    decreases |t|
  {
    if t == [] then true
    else if t[0] == SHIFT_OUT then
      var e := Find(t, SHIFT_IN, 0);
      e < |t| && Plain(t[e + 1..])
    else !IsOpener(t[0]) && Plain(t[1..])
  }

  /** Literal text of one node: plain, or a '$' in front of a non-digit and then plain. */
  ghost predicate LitOk(t: string)
  {
    && t != []
    && if t[0] == '$' then Plain(t[1..]) && !StartsWithDigit(t[1..]) else Plain(t)
  }

  ghost predicate PieceOk(p: Piece)
  {
    match p
    case Lit(text) => LitOk(text)
    case ItemRef(code, sub) => code != 0 && !sub.HashIndex? && (sub.HashChar? ==> sub.c != ')')
    case RuleRef(id, params, col, sub) => id != 0 && !sub.HashChar? && ':' !in params
    case ParmRef(code) => code > 0
  }

  predicate BarePiece(p: Piece) { (p.ItemRef? || p.RuleRef?) && p.sub.NoSub? }

  /** q may follow p: a text after a text starts with '$', one after a bare reference not with '('. */
  predicate Joins(p: Piece, q: Piece)
  {
    q.Lit? ==> (p.Lit? ==> StartsWith(q.text, '$')) && (BarePiece(p) ==> !StartsWith(q.text, '('))
  }

  ghost predicate Canonical(ps: seq<Piece>)
  {
    ps == [] || (PieceOk(ps[0]) && (|ps| > 1 ==> Joins(ps[0], ps[1])) && Canonical(ps[1..]))
  }

  function SubText(sub: Subscript): string
  {
    match sub
    case NoSub => ""
    case Index(k) => DecInt(k)
    case HashChar(c) => ['#', c]
    case HashIndex(k) => ['#'] + DecInt(k)
  }

  /** The text a rule reference leaves in its node: two-digit column, then the subscript. */
  function RuleText(col: Option<int>, sub: Subscript): string
  {
    if sub.NoSub? then (if col.None? then "" else Pad2(col.value))
    else Pad2(if col.None? then 0 else col.value) + SubText(sub)
  }

  function SegOf(p: Piece): Segment
  {
    match p
    case Lit(text) => Text(text)
    case ItemRef(code, sub) => Ref(ItemKind, code, SubText(sub))
    case RuleRef(id, _, col, sub) => Ref(RuleKind, id, RuleText(col, sub))
    case ParmRef(code) => Ref(ParmKind, code, "")
  }

  function SegsOf(ps: seq<Piece>): (segs: seq<Segment>)
    ensures |segs| == |ps| && forall i :: 0 <= i < |ps| ==> segs[i] == SegOf(ps[i])
  {
    if ps == [] then [] else [SegOf(ps[0])] + SegsOf(ps[1..])
  }

  lemma {:induction false} FindBehind(x: string, a: string, c: char, b: string)
    requires c !in a
    ensures Find(x + a + [c] + b, c, |x|) == |x| + |a|
    ensures (x + a + [c] + b)[|x|..|x| + |a|] == a
  {
    var t := x + a + [c] + b;
    assert forall k :: |x| <= k < |x| + |a| ==> t[k] == a[k - |x|];
    assert t[|x| + |a|] == c;
    assert IsFirst(t, c, |x|, |x| + |a|);
  }

  lemma {:induction false} DecIntChars(i: int, c: char)
    requires !IsDigit(c) && c != '-'
    ensures c !in DecInt(i)
  {
    var d := Dec(if i < 0 then -i else i);
    assert c !in d;
  }

  lemma {:induction false} AtoiPrinted(i: int)
    ensures Atoi(DecInt(i)) == i
  {
    AtoiDec(i, []);
    assert DecInt(i) + [] == DecInt(i);
  }

  function Parens(body: string): string { ['('] + body + [')'] }

  lemma {:induction false} FindParens(x: string, body: string, rest: string)
    requires ')' !in body
    ensures var t := x + Parens(body) + rest;
            && t[|x|] == '(' && Find(t, ')', |x| + 1) == |x| + 1 + |body|
            && t[|x| + 1..|x| + 1 + |body|] == body
            && t[|x| + 1..] == body + ([')'] + rest)
  {
    var y := x + ['('];
    assert x + Parens(body) + rest == y + body + [')'] + rest;
    FindBehind(y, body, ')', rest);
  }

  lemma {:induction false} ReadItemParens(x: string, body: string, rest: string, code: int)
    requires x != [] && body != [] && body[0] != ' ' && ')' !in body
    ensures ReadItemSub(x + Parens(body) + rest, code, |x| - 1) == Found(code, ItemSub(body), |x| + |Parens(body)|)
  {
    hide ItemSub;
    var t := x + Parens(body) + rest;
    FindParens(x, body, rest);
    assert t[|x| + 1] == body[0];
    assert IsSkip(t, ' ', |x| + 1, |x| + 1);
  }

  lemma {:induction false} ReadRuleParens(x: string, body: string, rest: string, id: int, col: string)
    requires x != [] && ')' !in body
    ensures ReadRuleSub(x + Parens(body) + rest, id, col, |x| - 1)
         == Found(id, RuleSub(col, body + ([')'] + rest)), |x| + |Parens(body)|)
  {
    hide RuleSub;
    FindParens(x, body, rest);
  }

  lemma {:induction false} ReadPrintedItemSub(x: string, code: int, sub: Subscript, rest: string)
    requires x != [] && !sub.HashIndex? && (sub.HashChar? ==> sub.c != ')')
    requires sub.NoSub? ==> !StartsWith(rest, '(')
    ensures var t := x + PrintSub(sub) + rest;
            ReadItemSub(t, code, |x| - 1) == Found(code, SubText(sub), |x| + |PrintSub(sub)|)
  {
    hide Atoi, DecInt;
    if sub.NoSub? {
      assert x + PrintSub(sub) + rest == x + rest;
      assert rest != [] ==> (x + rest)[|x|] == rest[0];
    } else {
      var body := SubText(sub);
      assert PrintSub(sub) == Parens(body);
      if sub.Index? {
        DecIntChars(sub.k, ')');
        AtoiPrinted(sub.k);
      }
      assert ItemSub(body) == body;
      ReadItemParens(x, body, rest, code);
    }
  }

  lemma {:induction false} ReadPrintedItem(code: int, sub: Subscript, rest: string)
    requires PieceOk(ItemRef(code, sub)) && (sub.NoSub? ==> !StartsWith(rest, '('))
    ensures var s := Print(ItemRef(code, sub));
            StartsWith(s + rest, '[') && ReadItem(s + rest) == Found(code, SubText(sub), |s|)
  {
    hide Atoi, DecInt;
    var t := Print(ItemRef(code, sub)) + rest;
    var d := DecInt(code);
    DecIntChars(code, ']');
    AtoiPrinted(code);
    FindBehind(['['], d, ']', PrintSub(sub) + rest);
    assert t == ['['] + d + [']'] + (PrintSub(sub) + rest);
    ReadPrintedItemSub(['['] + d + [']'], code, sub, rest);
    assert t == (['['] + d + [']']) + PrintSub(sub) + rest;
  }

  lemma {:induction false} ReadPrintedRuleSub(x: string, id: int, col: Option<int>, sub: Subscript, rest: string)
    requires x != [] && !sub.HashChar?
    requires sub.NoSub? ==> !StartsWith(rest, '(')
    ensures var t := x + PrintSub(sub) + rest;
            ReadRuleSub(t, id, PrintCol(col), |x| - 1) == Found(id, RuleText(col, sub), |x| + |PrintSub(sub)|)
  {
    hide Atoi, DecInt;
    var n := if col.None? then 0 else col.value;
    assert Atoi(PrintCol(col)) == n by {
      if col.None? { AtoiEmpty(); } else { AtoiPrinted(n); }
    }
    if sub.NoSub? {
      assert x + PrintSub(sub) + rest == x + rest;
      assert rest != [] ==> (x + rest)[|x|] == rest[0];
    } else {
      var body := SubText(sub);
      assert PrintSub(sub) == Parens(body);
      DecIntChars(sub.k, ')');
      RuleSubPrinted(col, sub, [')'] + rest);
      ReadRuleParens(x, body, rest, id, PrintCol(col));
    }
  }

  lemma {:induction false} RuleSubPrinted(col: Option<int>, sub: Subscript, rest: string)
    requires (sub.Index? || sub.HashIndex?) && !StartsWithDigit(rest)
    ensures RuleSub(PrintCol(col), SubText(sub) + rest) == RuleText(col, sub)
  {
    hide Atoi, DecInt;
    var n := if col.None? then 0 else col.value;
    assert Atoi(PrintCol(col)) == n by {
      if col.None? { AtoiEmpty(); } else { AtoiPrinted(n); }
    }
    AtoiDec(sub.k, rest);
    var t := SubText(sub) + rest;
    assert t[0] == SubText(sub)[0];
    if sub.HashIndex? {
      assert t[1..] == DecInt(sub.k) + rest;
    }
  }

  lemma AtoiEmpty()
    ensures Atoi("") == 0
  {
  }

  lemma RuleLayout(p: Piece, rest: string)
    requires p.RuleRef?
    ensures Print(p) + rest ==
      ['{'] + DecInt(p.id) + [':'] + (p.params + [':'] + (PrintCol(p.col) + ['}'] + (PrintSub(p.sub) + rest)))
  {
    hide DecInt, PrintCol, PrintSub;
  }

  /** Reading the id and passing the params of a rule reference. */
  lemma ReadRuleHead(d: string, params: string, more: string)
    requires ':' !in d && ':' !in params
    ensures var t, y := ['{'] + d + [':'] + (params + [':'] + more), ['{'] + d + [':'] + params + [':'];
            StartsWith(t, '{') && t == y + more && ReadRule(t) == ReadRuleCol(t, Atoi(d), |y| - 1)
  {
    hide Find, Atoi, ReadRuleCol;
    var x, y := ['{'] + d + [':'], ['{'] + d + [':'] + params + [':'];
    var t := x + (params + [':'] + more);
    FindBehind(['{'], d, ':', params + [':'] + more);
    FindBehind(x, params, ':', more);
    assert t == x + params + [':'] + more;
  }

  lemma {:induction false} ReadPrintedRule(p: Piece, rest: string)
    requires p.RuleRef? && PieceOk(p) && (p.sub.NoSub? ==> !StartsWith(rest, '('))
    ensures StartsWith(Print(p) + rest, '{')
    ensures ReadRule(Print(p) + rest) == Found(p.id, RuleText(p.col, p.sub), |Print(p)|)
  {
    hide DecInt, PrintSub, PrintCol, ReadRule, ReadRuleCol, RuleText, Atoi;
    RuleLayout(p, rest);
    DecIntChars(p.id, ':');
    AtoiPrinted(p.id);
    var d, c, s := DecInt(p.id), PrintCol(p.col), PrintSub(p.sub);
    ReadRuleHead(d, p.params, c + ['}'] + (s + rest));
    var y := ['{'] + d + [':'] + p.params + [':'];
    assert y + (c + ['}'] + (s + rest)) == y + c + ['}'] + (s + rest);
    ReadPrintedRuleCol(p, y, rest);
  }

  lemma {:induction false} ReadPrintedRuleCol(p: Piece, y: string, rest: string)
    requires p.RuleRef? && PieceOk(p) && (p.sub.NoSub? ==> !StartsWith(rest, '(')) && y != []
    ensures var c, s := PrintCol(p.col), PrintSub(p.sub);
            var t := y + c + ['}'] + (s + rest);
            ReadRuleCol(t, p.id, |y| - 1) == Found(p.id, RuleText(p.col, p.sub), |y| + |c| + 1 + |s|)
  {
    hide Atoi, DecInt, PrintSub, RuleText, ReadRuleSub;
    var c, s := PrintCol(p.col), PrintSub(p.sub);
    var t := y + c + ['}'] + (s + rest);
    if p.col.Some? {
      DecIntChars(p.col.value, '}');
    }
    FindBehind(y, c, '}', s + rest);
    var z := y + c + ['}'];
    ReadPrintedRuleSub(z, p.id, p.col, p.sub, rest);
    assert t == z + s + rest;
  }

  lemma {:induction false} ReadPrintedParm(code: int, rest: string)
    requires code > 0
    ensures var s := Print(ParmRef(code));
            && StartsWith(s + rest, '$') && !DollarText(s + rest)
            && ReadParm(s + rest) == Found(code, "", |s|)
  {
    hide Atoi;
    var t := Print(ParmRef(code)) + rest;
    DecIntChars(code, '$');
    AtoiPrinted(code);
    FindBehind(['$'], DecInt(code), '$', rest);
    assert t[1..][0] == DecInt(code)[0];
  }

  lemma {:induction false} ReadPrinted(p: Piece, rest: string)
    requires !p.Lit? && PieceOk(p) && (BarePiece(p) ==> !StartsWith(rest, '('))
    ensures var t := Print(p) + rest;
            && t != [] && IsOpener(t[0]) && !DollarText(t)
            && SegOf(p).code != 0 && KindOf(t[0]) == SegOf(p).kind
            && ReadRef(t) == Found(SegOf(p).code, SegOf(p).sub, |Print(p)|)
  {
    match p
    case ItemRef(code, sub) => ReadPrintedItem(code, sub, rest);
    case RuleRef(_, _, _, _) => ReadPrintedRule(p, rest);
    case ParmRef(code) => ReadPrintedParm(code, rest);
  }

  /** Plain text is collected character by character. */
  lemma {:induction false} ScanPlain(t: string, rest: string, pending: string)
    requires Plain(t)
    ensures Scan(t + rest, pending) == Scan(rest, pending + t)
    decreases |t|
  {
    var s := t + rest;
    if t == [] {
      assert s == rest && pending + t == pending;
    } else if t[0] == SHIFT_OUT {
      var e := Find(t, SHIFT_IN, 0);
      assert IsFirst(s, SHIFT_IN, 0, e);
      SplitAppend(t, rest, e + 1);
      ScanPlain(t[e + 1..], rest, pending + t[..e + 1]);
      assert pending + t[..e + 1] + t[e + 1..] == pending + t;
    } else {
      assert s[1..] == t[1..] + rest;
      ScanPlain(t[1..], rest, pending + [t[0]]);
      assert pending + [t[0]] + t[1..] == pending + t;
    }
  }

  /** At a delimiter or at the end, collected text becomes one node. */
  lemma {:induction false} ScanFlush(rest: string, pending: string)
    requires pending != [] && (rest == [] || IsOpener(rest[0]))
    ensures Scan(rest, pending) == Prepend([Text(pending)], Scan(rest, ""))
  {
    if rest != [] && !DollarText(rest) {
      var r := ReadRef(rest);
      if r.Found? && r.code != 0 {
        var ref := [Ref(KindOf(rest[0]), r.code, r.sub)];
        assert [Text(pending)] + ref + Scan(rest[r.used..], []).segs
            == [Text(pending)] + (Flush([]) + ref + Scan(rest[r.used..], []).segs);
      }
    }
  }

  lemma {:induction false} ScanLit(text: string, rest: string)
    requires LitOk(text) && (rest == [] || IsOpener(rest[0]))
    ensures Scan(text + rest, "") == Prepend([Text(text)], Scan(rest, ""))
  {
    var s := text + rest;
    if text[0] == '$' {
      var x := text[1..];
      assert s[1..] == x + rest;
      assert x != [] ==> (x + rest)[0] == x[0];
      assert x == [] ==> x + rest == rest;
      assert DollarText(s);
      assert Scan(s, "") == Scan(x + rest, "$");
      ScanPlain(x, rest, "$");
      assert "$" + x == text;
    } else {
      ScanPlain(text, rest, "");
    }
    assert [] + text == text;
    ScanFlush(rest, text);
  }

  lemma {:induction false} PrintAllStart(p: Piece, ps: seq<Piece>)
    requires PieceOk(p) && Canonical(ps) && (ps != [] ==> Joins(p, ps[0]))
    ensures p.Lit? ==> PrintAll(ps) == [] || IsOpener(PrintAll(ps)[0])
    ensures BarePiece(p) ==> !StartsWith(PrintAll(ps), '(')
  {
    if ps != [] {
      assert Print(ps[0]) != [] && PrintAll(ps)[0] == Print(ps[0])[0];
    }
  }

  /** Scanning a printed canonical template finds its pieces, in order. */
  lemma {:induction false} ScanPrinted(ps: seq<Piece>)
    requires Canonical(ps)
    ensures Scan(PrintAll(ps), "") == Outcome(SegsOf(ps), Complete)
  {
    if ps != [] {
      var p, rest := ps[0], PrintAll(ps[1..]);
      ScanPrinted(ps[1..]);
      PrintAllStart(p, ps[1..]);
      if p.Lit? {
        ScanLit(p.text, rest);
      } else {
        ReadPrinted(p, rest);
        var t := Print(p) + rest;
        assert t[|Print(p)|..] == rest;
        assert t[0] != SHIFT_OUT;
        assert Flush("") + [SegOf(p)] == [SegOf(p)];
      }
    }
  }

  /** ParseBranchRule undoes PrintAll, whatever text fills the params slots. */
  lemma ParseUndoesPrint(ps: seq<Piece>)
    requires Canonical(ps)
    ensures ParsedOf(Scan(PrintAll(ps), "")) == Chain(NodesOf(SegsOf(ps)))
    ensures forall i :: 0 <= i < |ps| ==> NodesOf(SegsOf(ps))[i] == NodeOf(SegOf(ps[i]))
  {
    ScanPrinted(ps);
    forall i | 0 <= i < |ps| ensures NodesOf(SegsOf(ps))[i] == NodeOf(SegOf(ps[i])) {
      NodesAt(SegsOf(ps), i);
    }
  }

  lemma {:induction false} NodesAt(segs: seq<Segment>, i: nat)
    requires i < |segs|
    ensures NodesOf(segs)[i] == NodeOf(segs[i])
  {
    if i < |segs| - 1 {
      NodesAt(segs[..|segs| - 1], i);
    }
  }

  // A node says which piece it came from: the pieces can be read back from the chain.

  /** No trailing blank to lose, a column wherever there is a subscript, and two-digit columns. */
  predicate Faithful(p: Piece)
  {
    match p
    case Lit(text) => text != [] && text[|text| - 1] != ' '
    case ItemRef(_, sub) => sub.HashChar? ==> sub.c != ' '
    case RuleRef(_, _, col, sub) => (!sub.NoSub? ==> col.Some?) && (col.Some? ==> 0 <= col.value <= 99)
    case ParmRef(_) => true
  }

  /** The piece without the params text, which the parser skips. */
  function DropParams(p: Piece): Piece { if p.RuleRef? then p.(params := "") else p }

  function ReadSubText(s: string): Subscript
  {
    if s == "" then NoSub else Index(Atoi(s))
  }

  /** The piece a node stands for. */
  function PieceOf(n: QBNode): Piece
  {
    match n.tokType
    case TokNone => Lit(n.tokInfo)
    case TokGlobal =>
      ItemRef(n.itemCd, if |n.tokInfo| == 2 && n.tokInfo[0] == '#' then HashChar(n.tokInfo[1]) else ReadSubText(n.tokInfo))
    case TokRule =>
      if |n.tokInfo| < 2 then RuleRef(n.itemCd, "", None, NoSub)
      else
        var rest := n.tokInfo[2..];
        RuleRef(n.itemCd, "", Some(Atoi(n.tokInfo[..2])),
                if StartsWith(rest, '#') then HashIndex(Atoi(rest[1..])) else ReadSubText(rest))
    case TokLocal => ParmRef(n.itemCd)
  }

  lemma DecIntEnd(i: int)
    ensures DecInt(i)[|DecInt(i)| - 1] != ' ' && DecInt(i)[0] != '#'
  {
    var d := Dec(if i < 0 then -i else i);
    assert IsDigit(d[|d| - 1]) && IsDigit(d[0]);
  }

  lemma Pad2Length(n: int)
    requires 0 <= n <= 99
    ensures |Pad2(n)| == 2 && Atoi(Pad2(n)) == n
  {
    hide Atoi;
    if n < 10 {
      var s := Pad2(n);
      assert Dec(n) == [DigitChar(n)];
      assert s == ['0', DigitChar(n)] && AllDigits(s) && s[..1] == ['0'] && s[..1][..0] == [];
      AtoiDigits(s, []);
      assert s + [] == s;
    } else {
      assert Dec(n / 10) == [DigitChar(n / 10)];
      assert Dec(n) == Dec(n / 10) + [DigitChar(n % 10)];
      AtoiPrinted(n);
    }
  }

  lemma {:induction false} PieceOfNode(p: Piece)
    requires PieceOk(p) && Faithful(p)
    ensures PieceOf(NodeOf(SegOf(p))) == DropParams(p)
  {
    hide Atoi, DecInt, Pad2;
    match p
    case Lit(text) =>
    case ItemRef(code, sub) =>
      if sub.Index? {
        DecIntEnd(sub.k);
        AtoiPrinted(sub.k);
      }
    case RuleRef(id, params, col, sub) => PieceOfRule(p);
    case ParmRef(code) =>
  }

  lemma PieceOfRule(p: Piece)
    requires p.RuleRef? && PieceOk(p) && Faithful(p)
    ensures PieceOf(NodeOf(SegOf(p))) == DropParams(p)
  {
    hide Atoi, DecInt, Pad2, RTrim;
    var s := RuleText(p.col, p.sub);
    if p.col.Some? {
      var col := Pad2(p.col.value);
      Pad2Length(p.col.value);
      Pad2End(p.col.value);
      if p.sub.NoSub? {
        RTrimSame(s);
        assert s[..2] == col && s[2..] == [];
      } else {
        PieceOfSub(p, col, s);
      }
    } else {
      RTrimSame(s);
    }
  }

  lemma PieceOfSub(p: Piece, col: string, s: string)
    requires p.RuleRef? && PieceOk(p) && Faithful(p) && !p.sub.NoSub? && s == RuleText(p.col, p.sub)
    requires p.col.Some? && col == Pad2(p.col.value) && |col| == 2 && Atoi(col) == p.col.value
    ensures PieceOf(NodeOf(SegOf(p))) == DropParams(p)
  {
    hide Atoi, DecInt, Pad2, RTrim;
    var d := DecInt(p.sub.k);
    DecIntEnd(p.sub.k);
    AtoiPrinted(p.sub.k);
    assert s[..2] == col && s[2..] == SubText(p.sub) && SubText(p.sub) != "";
    assert s[|s| - 1] == SubText(p.sub)[|SubText(p.sub)| - 1] == d[|d| - 1];
    RTrimSame(s);
    if p.sub.HashIndex? {
      assert s[2..][1..] == d;
    }
  }

  lemma Pad2End(n: int)
    requires 0 <= n <= 99
    ensures Pad2(n) != [] && Pad2(n)[|Pad2(n)| - 1] != ' '
  {
    if n < 10 {
      assert Dec(n) == [DigitChar(n)];
    } else {
      DecIntEnd(n);
    }
  }

  /** Printing, parsing and reading the chain back is the identity up to the skipped params. */
  lemma PrintParseReadBack(ps: seq<Piece>)
    requires Canonical(ps) && forall i :: 0 <= i < |ps| ==> Faithful(ps[i])
    ensures var r := ParsedOf(Scan(PrintAll(ps), ""));
            && r.Chain? && |r.nodes| == |ps|
            && forall i :: 0 <= i < |ps| ==> PieceOf(r.nodes[i]) == DropParams(ps[i])
  {
    ParseUndoesPrint(ps);
    forall i | 0 <= i < |ps| ensures PieceOf(NodesOf(SegsOf(ps))[i]) == DropParams(ps[i]) {
      CanonicalAt(ps, i);
      PieceOfNode(ps[i]);
    }
  }

  lemma {:induction false} CanonicalAt(ps: seq<Piece>, i: nat)
    requires Canonical(ps) && i < |ps|
    ensures PieceOk(ps[i])
  {
    if i > 0 {
      CanonicalAt(ps[1..], i - 1);
    }
  }

  /** The compiler run on a printed list: one node for each piece, which says what the piece was. */
  method PrintThenParse(ps: seq<Piece>) returns (r: Parsed)
    requires Canonical(ps) && forall i :: 0 <= i < |ps| ==> Faithful(ps[i])
    ensures r.Chain? && |r.nodes| == |ps| && forall i :: 0 <= i < |ps| ==> PieceOf(r.nodes[i]) == DropParams(ps[i])
  {
    hide Canonical, PieceOf, Faithful, PrintAll;
    PrintParseReadBack(ps);
    r := ParseBranchRule(PrintAll(ps));
  }
}
