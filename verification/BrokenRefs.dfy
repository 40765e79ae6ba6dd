// References that are not complete, and how a template that ends in one is refused.
module BrokenRefs {
  import opened CText
  import opened Template
  import opened BranchRule
  import opened BranchPrint
  import opened OnePass
  import opened QueryRule
  import opened QueryIndex
  import opened QueryParts

  /** A reference that lacks one of its signs, to the end of the text. */
  datatype Broken =
    | ItemOpen(a: string)                                             // [a
    | ItemSubOpen(code: string, a: string)                            // [code](a
    | RuleOpen(a: string)                                             // {a
    | RuleParams(id: string, a: string)                               // {id:a
    | RuleCol(id: string, params: string, a: string)                  // {id:params:a
    | RuleSubOpen(id: string, params: string, col: string, a: string) // {id:params:col}(a
    | ParmOpen(a: string)                                             // $a

  function PrintBroken(b: Broken): string
  {
    match b
    case ItemOpen(a) => "[" + a
    case ItemSubOpen(code, a) => "[" + code + "]" + ("(" + a)
    case RuleOpen(a) => "{" + a
    case RuleParams(id, a) => "{" + id + ":" + a
    case RuleCol(id, params, a) => "{" + id + ":" + (params + ":" + a)
    case RuleSubOpen(id, params, col, a) => "{" + id + ":" + (params + ":" + (col + "}" + ("(" + a)))
    case ParmOpen(a) => "$" + a
  }

  /** The sign that is missing does not come. */
  predicate BrokenOk(b: Broken)
  {
    match b
    case ItemOpen(a) => ']' !in a
    case ItemSubOpen(code, a) => ']' !in code && ')' !in a
    case RuleOpen(a) => ':' !in a
    case RuleParams(id, a) => ':' !in id && ':' !in a
    case RuleCol(id, params, a) => ':' !in id && ':' !in params && '}' !in a
    case RuleSubOpen(id, params, col, a) => ':' !in id && ':' !in params && '}' !in col && ')' !in a
    case ParmOpen(a) => StartsWithDigit(a) && '$' !in a
  }

  /** An item is given up in silence, a rule by an exception that says which sign is missing, and where a second
      colon or a dollar sign is missing the reader runs past the end. */
  function EndOf(b: Broken): End
  {
    match b
    case ItemOpen(_) => Aborted
    case ItemSubOpen(_, _) => Aborted
    case RuleOpen(_) => Thrown(Parse05)
    case RuleParams(_, _) => Overrun
    case RuleCol(_, _, _) => Thrown(Parse06)
    case RuleSubOpen(_, _, _, _) => Thrown(Parse07)
    case ParmOpen(_) => Overrun
  }

  lemma FindNone(x: string, a: string, c: char)
    requires c !in a
    ensures Find(x + a, c, |x|) == |x + a|
  {
    var t := x + a;
    assert forall k :: |x| <= k < |t| ==> t[k] == a[k - |x|];
    assert IsFirst(t, c, |x|, Find(t, c, |x|));
  }

  lemma FindSign(x: string, a: string, c: char, rest: string)
    requires c !in a
    ensures Find(x + (a + [c] + rest), c, |x|) == |x| + |a|
  {
    FindBehind(x, a, c, rest);
    assert x + a + [c] + rest == x + (a + [c] + rest);
  }

  lemma BrokenItem(b: Broken)
    requires BrokenOk(b) && (b.ItemOpen? || b.ItemSubOpen?)
    ensures ReadItem(PrintBroken(b)) == Found(0, "", |PrintBroken(b)|)
  {
    hide Atoi;
    var t := PrintBroken(b);
    match b
    case ItemOpen(a) => FindNone("[", a, ']');
    case ItemSubOpen(code, a) =>
      FindSign("[", code, ']', "(" + a);
      assert t == "[" + (code + [']'] + ("(" + a));
      var x, n := "[" + code + "](", SkipOver(t, ' ', |code| + 3);
      assert t == x + a && t[|code| + 2] == '(';
      assert forall k :: n <= k < |t| ==> t[k] == a[k - |x|];
      assert IsFirst(t, ')', n, Find(t, ')', n));
  }

  lemma BrokenRule(b: Broken)
    requires BrokenOk(b) && (b.RuleOpen? || b.RuleParams? || b.RuleCol? || b.RuleSubOpen?)
    ensures StartsWith(PrintBroken(b), '{') && !ReadRule(PrintBroken(b)).Found? && Stop(ReadRule(PrintBroken(b))) == EndOf(b)
  {
    hide Atoi, ReadRuleCol;
    var t := PrintBroken(b);
    match b
    case RuleOpen(a) => FindNone("{", a, ':');
    case RuleParams(id, a) =>
      FindSign("{", id, ':', a);
      assert t == "{" + (id + [':'] + a);
      FindNone("{" + id + ":", a, ':');
    case RuleCol(id, params, a) =>
      hide ReadRule;
      RuleHead(id, params, a);
      NoBrace("{" + id + ":" + params + ":", a, Atoi(id));
    case RuleSubOpen(id, params, col, a) =>
      hide ReadRule;
      RuleHead(id, params, col + "}" + ("(" + a));
      NoParenthesis("{" + id + ":" + params + ":", col, a, Atoi(id));
  }

  lemma NoBrace(y: string, a: string, id: int)
    requires '}' !in a && y != ""
    ensures ReadRuleCol(y + a, id, |y| - 1) == Throws(Parse06)
  {
    FindNone(y, a, '}');
  }

  lemma NoParenthesis(y: string, col: string, a: string, id: int)
    requires '}' !in col && ')' !in a && y != ""
    ensures ReadRuleCol(y + (col + "}" + ("(" + a)), id, |y| - 1) == Throws(Parse07)
  {
    hide Atoi;
    var t, z := y + (col + "}" + ("(" + a)), y + col + "}(";
    FindSign(y, col, '}', "(" + a);
    assert t == y + (col + ['}'] + ("(" + a)) && t == z + a && t[|y| + |col| + 1] == '(';
    FindNone(z, a, ')');
  }

  lemma RuleHead(id: string, params: string, more: string)
    requires ':' !in id && ':' !in params
    ensures var t, y := "{" + id + ":" + (params + ":" + more), "{" + id + ":" + params + ":";
            StartsWith(t, '{') && t == y + more && ReadRule(t) == ReadRuleCol(t, Atoi(id), |y| - 1)
  {
    ReadRuleHead(id, params, more);
  }

  /** How reading a broken reference ends. */
  lemma BrokenRead(b: Broken)
    requires BrokenOk(b)
    ensures var t := PrintBroken(b);
            && t != "" && IsOpener(t[0]) && !DollarText(t)
            && (ReadRef(t).Found? ==> ReadRef(t).code == 0) && Stop(ReadRef(t)) == EndOf(b)
  {
    hide ReadItem, ReadRule;
    var t := PrintBroken(b);
    match b
    case ItemOpen(_) => BrokenItem(b);
    case ItemSubOpen(_, _) => BrokenItem(b);
    case RuleOpen(_) => BrokenRule(b);
    case RuleParams(_, _) => BrokenRule(b);
    case RuleCol(_, _, _) => BrokenRule(b);
    case RuleSubOpen(_, _, _, _) => BrokenRule(b);
    case ParmOpen(a) =>
      FindNone("$", a, '$');
      assert t[1..] == a;
  }

  /** A branch text that ends in a broken reference: what ParseBranchRule returns, whatever plain text is in front. */
  lemma BrokenBranch(a: string, b: Broken)
    requires Plain(a) && BrokenOk(b)
    ensures ParsedOf(Scan(a + PrintBroken(b), "")) == match EndOf(b)
              case Thrown(e) => Threw(e)
              case Overrun => Overran
              case _ => Chain([])
  {
    hide ReadRef, Plain, PrintBroken, BrokenOk;
    BrokenRead(b);
    ScanPlain(a, PrintBroken(b), "");
    ScanRef(PrintBroken(b), "" + a);
  }

  /** A query text that goes on with one: the scan ends there. */
  lemma BrokenQuery(b: Broken, pending: string)
    requires BrokenOk(b)
    ensures QueryScan(PrintBroken(b), pending) == Outcome(Flush(pending), EndOf(b))
  {
    hide ReadRef, PrintBroken, BrokenOk;
    BrokenRead(b);
    QueryScanRef(PrintBroken(b), pending);
  }

  /** A code of 0, or no number at all, ends the compilation in silence, whatever follows. */
  lemma ZeroItem(a: string, rest: string, pending: string)
    requires ']' !in a && Atoi(a) == 0 && !StartsWith(rest, '(')
    ensures QueryScan("[" + a + "]" + rest, pending) == Scan("[" + a + "]" + rest, pending) == Outcome(Flush(pending), Aborted)
  {
    hide Atoi;
    var t := "[" + a + "]" + rest;
    assert t == "[" + (a + [']'] + rest) && t[1..1 + |a|] == a;
    FindSign("[", a, ']', rest);
    assert rest != "" ==> t[|a| + 2] == rest[0];
    ScanRef(t, pending);
    QueryScanRef(t, pending);
  }

  lemma ZeroParm(a: string, rest: string, pending: string)
    requires '$' !in a && StartsWithDigit(a) && Atoi(a) == 0
    ensures QueryScan("$" + a + "$" + rest, pending) == Scan("$" + a + "$" + rest, pending) == Outcome(Flush(pending), Aborted)
  {
    hide Atoi;
    var t := "$" + a + "$" + rest;
    assert t == "$" + (a + ['$'] + rest) && t[1..1 + |a|] == a;
    FindSign("$", a, '$', rest);
    assert t[1..][0] == a[0];
    ScanRef(t, pending);
    QueryScanRef(t, pending);
  }

  lemma ZeroRule(a: string, params: string, rest: string, pending: string)
    requires ':' !in a && ':' !in params && Atoi(a) == 0 && !StartsWith(rest, '(')
    ensures var t := "{" + a + ":" + (params + ":" + ("}" + rest));
            QueryScan(t, pending) == Scan(t, pending) == Outcome(Flush(pending), Aborted)
  {
    hide Atoi, ReadRule;
    var t, y := "{" + a + ":" + (params + ":" + ("}" + rest)), "{" + a + ":" + params + ":";
    RuleHead(a, params, "}" + rest);
    FindSign(y, "", '}', rest);
    assert "" + ['}'] + rest == "}" + rest && t == y + ("}" + rest);
    assert t[|y|..|y|] == "" && (rest != "" ==> t[|y| + 1] == rest[0]);
    ScanRef(t, pending);
    QueryScanRef(t, pending);
  }

  lemma PartsThenBroken(ps: seq<Part>, b: Broken) returns (segs: seq<Segment>)
    requires GoodParts(ps, PrintBroken(b)) && BrokenOk(b)
    ensures segs == Segs(ps, "") + Flush(Left(ps, "")) && Refs(segs) == Bound(ps)
    ensures QueryScan(PrintParts(ps, PrintBroken(b)), "") == Outcome(segs, EndOf(b))
  {
    hide Refs, Bound, GoodParts, PrintParts, Segs, Left, PrintBroken, BrokenOk;
    segs := Segs(ps, "") + Flush(Left(ps, ""));
    PartsScan(ps, PrintBroken(b), "");
    BrokenQuery(b, Left(ps, ""));
    PartsLits(ps, PrintBroken(b));
    PartsRefs(ps, "");
  }

  /** ParseQueryRule on parts that end in a broken reference: it says which, keeps the binds made so far, and leaves the
      statement and the count as they were. */
  method ParseBroken(rule: QRuleData, ps: seq<Part>, b: Broken, junk: string) returns (end: End)
    requires rule.pBindValue == [] && GoodParts(ps, PrintBroken(b)) && BrokenOk(b)
    modifies rule
    ensures end == EndOf(b) && rule.QueryStatement == old(rule.QueryStatement) && rule.nBindVal == old(rule.nBindVal)
    ensures |rule.pBindValue| == RefCount(ps)
    ensures forall i :: 0 <= i < RefCount(ps) ==> rule.pBindValue[i].node == NodeOf(Bound(ps)[i])
  {
    hide *;
    ghost var segs := PartsThenBroken(ps, b);
    end := rule.ParseQueryRule(PrintParts(ps, PrintBroken(b)), junk);
    NeverComplete(b);
    HeldBroken(rule, segs, EndOf(b), junk, old(rule.QueryStatement), old(rule.nBindVal));
  }

  lemma NeverComplete(b: Broken)
    ensures EndOf(b) != Complete
  {
  }

  lemma HeldBroken(rule: QRuleData, segs: seq<Segment>, end: End, junk: string, oldStatement: string, oldCount: nat)
    requires rule.Holds(Outcome(segs, end), junk, oldStatement, oldCount) && end != Complete
    ensures rule.QueryStatement == oldStatement && rule.nBindVal == oldCount && |rule.pBindValue| == |Refs(segs)|
    ensures forall i :: 0 <= i < |Refs(segs)| ==> rule.pBindValue[i].node == NodeOf(Refs(segs)[i])
  {
    hide Emit, Named, Woven, Flat;
    EmitIndexed(segs, junk);
  }

  // What subscripts are read as.

  /** Blanks in front of an item's subscript are passed; of one that begins with '#' two characters stay. */
  lemma ItemSubscript(code: int, blanks: nat, sub: string, rest: string)
    requires ')' !in sub && !StartsWith(sub, ' ')
    ensures var t := "[" + DecInt(code) + "](" + seq(blanks, _ => ' ') + sub + ")" + rest;
            ReadItem(t) == Found(code, if StartsWith(sub, '#') then sub[..if |sub| < 2 then |sub| else 2] else DecInt(Atoi(sub)),
                                 |t| - |rest|)
  {
    hide Atoi, DecInt, ReadItemSub, ItemSub;
    var d, bs := DecInt(code), seq(blanks, _ => ' ');
    var more := bs + sub + ")" + rest;
    var t := "[" + d + "](" + bs + sub + ")" + rest;
    DecIntChars(code, ']');
    AtoiPrinted(code);
    assert t == "[" + (d + [']'] + ("(" + more)) && t == ("[" + d + "](") + more;
    FindSign("[", d, ']', "(" + more);
    assert t[1..1 + |d|] == d;
    SubscriptRead("[" + d + "](", bs, sub, rest, code);
    SubscriptText(sub);
  }

  lemma SubscriptText(sub: string)
    ensures ItemSub(sub) == if StartsWith(sub, '#') then sub[..if |sub| < 2 then |sub| else 2] else DecInt(Atoi(sub))
  {
    hide Atoi, DecInt;
    assert |sub| == 1 ==> sub[..1] == sub;
  }

  lemma SubscriptRead(x: string, bs: string, sub: string, rest: string, code: int)
    requires |x| >= 2 && x[|x| - 1] == '(' && ')' !in sub && !StartsWith(sub, ' ') && forall c :: c in bs ==> c == ' '
    ensures ReadItemSub(x + (bs + sub + ")" + rest), code, |x| - 2) == Found(code, ItemSub(sub), |x| + |bs| + |sub| + 1)
  {
    hide ItemSub;
    var t, n := x + (bs + sub + ")" + rest), |x| + |bs|;
    assert t[|x| - 1] == '(';
    forall k | |x| <= k < n
      ensures t[k] == ' '
    {
      assert t[k] == bs[k - |x|] && bs[k - |x|] in bs;
    }
    assert t[n] == if sub == "" then ')' else sub[0];
    assert IsSkip(t, ' ', |x|, n) && IsSkip(t, ' ', |x|, SkipOver(t, ' ', |x|));
    assert t == (x + bs) + (sub + [')'] + rest);
    FindSign(x + bs, sub, ')', rest);
    assert t[n..n + |sub|] == sub;
  }
}
