// The reference syntax shared by branch and query rules, and the scan that splits a rule text
// into literal text and references:  [item](sub)   {rule:params:col}(sub)   $parm$
module Template {
  import opened CText

  datatype Error = Parse05 | Parse06 | Parse07

  datatype Kind = ItemKind | RuleKind | ParmKind

  /** What reading one reference yields: a code, its subscript text and the characters used;
      an exception; or a read past the terminator of the rule text. */
  datatype Read = Found(code: int, sub: string, used: nat) | Throws(error: Error) | Overruns

  predicate IsOpener(c: char) { c == '[' || c == '{' || c == '$' }

  function ItemSub(t: string): string
  {
    if StartsWith(t, '#') then (if |t| < 2 then t else t[..2]) else DecInt(Atoi(t))
  }

  /** The optional subscript of an item reference whose ']' is at `close`. */
  ghost function ReadItemSub(t: string, code: int, close: nat): (r: Read)
    requires close < |t|
    ensures r.Found? && 0 < r.used <= |t|
  {
    if close + 1 == |t| || t[close + 1] != '(' then Found(code, "", close + 1)
    else
      var b := SkipOver(t, ' ', close + 2);
      var e := Find(t, ')', b);
      if e == |t| then Found(0, "", |t|) else Found(code, ItemSub(t[b..e]), e + 1)
  }

  /** getItemCd on the text t, which starts at '['. */
  ghost function ReadItem(t: string): (r: Read)
    requires StartsWith(t, '[')
    ensures r.Found? && 0 < r.used <= |t|
  {
    var close := Find(t, ']', 1);
    if close == |t| then Found(0, "", |t|) else ReadItemSub(t, Atoi(t[1..close]), close)
  }

  /** getParmCd on the text t, which starts at '$'. */
  ghost function ReadParm(t: string): (r: Read)
    requires StartsWith(t, '$')
    ensures r.Found? ==> 0 < r.used <= |t|
  {
    var e := Find(t, '$', 1);
    if e == |t| then Overruns else Found(Atoi(t[1..e]), "", e + 1)
  }

  /** The subscript of a rule reference, read at the character behind its '('. */
  function RuleSub(col: string, t: string): string
  {
    Pad2(Atoi(col)) + if StartsWith(t, '#') then "#" + DecInt(Atoi(t[1..])) else DecInt(Atoi(t))
  }

  /** The optional subscript of a rule reference whose '}' is at e. */
  ghost function ReadRuleSub(t: string, id: int, col: string, e: nat): (r: Read)
    requires e < |t|
    ensures r.Found? ==> e < r.used <= |t|
  {
    if e + 1 == |t| || t[e + 1] != '(' then Found(id, if col == "" then "" else Pad2(Atoi(col)), e + 1)
    else
      var f := Find(t, ')', e + 2);
      if f == |t| then Throws(Parse07) else Found(id, RuleSub(col, t[e + 2..]), f + 1)
  }

  /** The column part of a rule reference whose second ':' is at c2. */
  ghost function ReadRuleCol(t: string, id: int, c2: nat): (r: Read)
    requires c2 < |t|
    ensures r.Found? ==> c2 + 1 < r.used <= |t|
  {
    var e := Find(t, '}', c2 + 1);
    if e == |t| then Throws(Parse06) else ReadRuleSub(t, id, t[c2 + 1..e], e)
  }

  /** getRuleCd on the text t, which starts at '{'. */
  ghost function ReadRule(t: string): (r: Read)
    requires StartsWith(t, '{')
    ensures r.Found? ==> 0 < r.used <= |t|
  {
    var c1 := Find(t, ':', 1);
    if c1 == |t| then Throws(Parse05)
    else
      var c2 := Find(t, ':', c1 + 1);
      if c2 == |t| then Overruns else ReadRuleCol(t, Atoi(t[1..c1]), c2)
  }

  function KindOf(c: char): Kind
    requires IsOpener(c)
  {
    if c == '[' then ItemKind else if c == '{' then RuleKind else ParmKind
  }

  ghost function ReadRef(t: string): (r: Read)
    requires t != [] && IsOpener(t[0])
    ensures r.Found? ==> 0 < r.used <= |t|
  {
    match KindOf(t[0])
    case ItemKind => ReadItem(t)
    case RuleKind => ReadRule(t)
    case ParmKind => ReadParm(t)
  }

  /** '$' opens a parameter only in front of a digit; otherwise it is text. */
  predicate DollarText(t: string) { StartsWith(t, '$') && !StartsWithDigit(t[1..]) }

  datatype Segment = Text(text: string) | Ref(kind: Kind, code: int, sub: string)

  datatype End = Complete | Aborted | Thrown(error: Error) | Overrun

  /** The segments found before the scan ended, and how it ended. */
  datatype Outcome = Outcome(segs: seq<Segment>, end: End)

  ghost function Flush(pending: string): seq<Segment> { if pending == [] then [] else [Text(pending)] }

  ghost function Prepend(segs: seq<Segment>, o: Outcome): Outcome { Outcome(segs + o.segs, o.end) }

  /** How a scan stops at a reference that cannot be used. */
  ghost function Stop(r: Read): End
    requires r.Found? ==> r.code == 0
  {
    match r
    case Found(_, _, _) => Aborted
    case Throws(e) => Thrown(e)
    case Overruns => Overrun
  }

  /** The scan of the text t with the literal text `pending` already collected. */
  ghost function Scan(t: string, pending: string): Outcome
    decreases |t|
  {
    if t == [] then Outcome(Flush(pending), Complete)
    else if t[0] == SHIFT_OUT then
      var e := Find(t, SHIFT_IN, 0);
      if e == |t| then Outcome([], Overrun) else Scan(t[e + 1..], pending + t[..e + 1])
    else if !IsOpener(t[0]) then Scan(t[1..], pending + [t[0]])
    else if DollarText(t) then Prepend(Flush(pending), Scan(t[1..], "$"))
    else
      var r := ReadRef(t);
      if r.Found? && r.code != 0 then
        Prepend(Flush(pending) + [Ref(KindOf(t[0]), r.code, r.sub)], Scan(t[r.used..], []))
      else Outcome(Flush(pending), Stop(r))
  }

  /** The scan of a whole text, seen from the point where `segs` are done, `pending` is
      collected and t is left. */
  ghost predicate At(whole: Outcome, segs: seq<Segment>, pending: string, t: string)
  {
    whole == Prepend(segs, Scan(t, pending))
  }

  lemma AtStart(source: string)
    ensures At(Scan(source, ""), [], "", source)
  {
  }

  lemma AtStop(whole: Outcome, segs: seq<Segment>, pending: string)
    requires At(whole, segs, pending, [])
    ensures whole == Outcome(segs + Flush(pending), Complete)
  {
  }

  lemma AtRun(whole: Outcome, segs: seq<Segment>, pending: string, t: string, e: nat)
    requires At(whole, segs, pending, t) && t != [] && t[0] == SHIFT_OUT && e == Find(t, SHIFT_IN, 0)
    ensures if e == |t| then whole == Outcome(segs, Overrun)
            else At(whole, segs, pending + t[..e + 1], t[e + 1..])
  {
  }

  lemma AtPlain(whole: Outcome, segs: seq<Segment>, pending: string, t: string)
    requires At(whole, segs, pending, t) && t != [] && t[0] != SHIFT_OUT && !IsOpener(t[0])
    ensures At(whole, segs, pending + [t[0]], t[1..])
  {
  }

  lemma AtDollar(whole: Outcome, segs: seq<Segment>, pending: string, t: string)
    requires At(whole, segs, pending, t) && DollarText(t)
    ensures At(whole, segs + Flush(pending), "$", t[1..])
  {
    assert segs + (Flush(pending) + Scan(t[1..], "$").segs) == segs + Flush(pending) + Scan(t[1..], "$").segs;
  }

  lemma AtRef(whole: Outcome, segs: seq<Segment>, pending: string, t: string)
    requires At(whole, segs, pending, t) && t != [] && IsOpener(t[0]) && !DollarText(t)
    ensures var r := ReadRef(t);
            if r.Found? && r.code != 0 then
              At(whole, segs + Flush(pending) + [Ref(KindOf(t[0]), r.code, r.sub)], [], t[r.used..])
            else whole == Outcome(segs + Flush(pending), Stop(r))
  {
    var r := ReadRef(t);
    if r.Found? && r.code != 0 {
      var ref := [Ref(KindOf(t[0]), r.code, r.sub)];
      var later := Scan(t[r.used..], []).segs;
      assert segs + ((Flush(pending) + ref) + later) == segs + Flush(pending) + ref + later;
    }
  }

  /** A reference that could still take a subscript: it ends in ']' or '}'. */
  predicate Bare(t: string, used: nat)
    requires 0 < used <= |t|
  {
    t[used - 1] == ']' || t[used - 1] == '}'
  }

  /** u carries the first `used` characters of t, and no '(' behind them if the reference is bare. */
  predicate KeepsRef(t: string, u: string, used: nat)
  {
    Agree(t, u, used) && 0 < used < |t| && (Bare(t, used) ==> !StartsWith(u[used..], '('))
  }

  lemma {:induction false} ReadItemSubPrefix(t: string, u: string, code: int, close: nat)
    requires close < |t| && t[close] == ']' && KeepsRef(t, u, ReadItemSub(t, code, close).used)
    ensures close < |u| && ReadItemSub(u, code, close) == ReadItemSub(t, code, close)
  {
    var n := ReadItemSub(t, code, close).used;
    if t[close + 1] == '(' {
      var b := SkipOver(t, ' ', close + 2);
      var e := Find(t, ')', b);
      assert t[close + 1] == u[close + 1];
      SkipOverAgree(t, u, n, ' ', close + 2);
      FindAgree(t, u, n, ')', b);
      SliceAgree(t, u, n, b, e);
    } else {
      assert |u| > n ==> u[n..][0] == u[n];
    }
  }

  lemma {:induction false} ReadItemPrefix(t: string, u: string)
    requires StartsWith(t, '[') && KeepsRef(t, u, ReadItem(t).used)
    ensures StartsWith(u, '[') && ReadItem(u) == ReadItem(t)
  {
    var n := ReadItem(t).used;
    assert u[0] == t[0];
    var close := Find(t, ']', 1);
    FindAgree(t, u, n, ']', 1);
    SliceAgree(t, u, n, 1, close);
    ReadItemSubPrefix(t, u, Atoi(t[1..close]), close);
  }

  lemma {:induction false} RuleSubPrefix(col: string, t: string, u: string, f: nat)
    requires Agree(t, u, f + 1) && t[f] == ')'
    ensures RuleSub(col, t) == RuleSub(col, u)
  {
    var lo := if t[0] == '#' then 1 else 0;
    SliceAgree(t, u, f + 1, lo, f);
    assert t[lo..] == t[lo..f] + [')'] + t[f + 1..] && u[lo..] == t[lo..f] + [')'] + u[f + 1..];
    AtoiStops(t[lo..f], ')', t[f + 1..]);
    AtoiStops(t[lo..f], ')', u[f + 1..]);
    assert t[0] == u[0] && t[0..] == t && u[0..] == u;
  }

  lemma {:induction false} ReadRuleSubPrefix(t: string, u: string, id: int, col: string, e: nat)
    requires e < |t| && ReadRuleSub(t, id, col, e).Found? && KeepsRef(t, u, ReadRuleSub(t, id, col, e).used)
    requires t[e] == '}'
    ensures e < |u| && ReadRuleSub(u, id, col, e) == ReadRuleSub(t, id, col, e)
  {
    hide RuleSub, Atoi, Pad2;
    var n := ReadRuleSub(t, id, col, e).used;
    if t[e + 1] == '(' {
      assert t[e + 1] == u[e + 1];
      var f := Find(t, ')', e + 2);
      FindAgree(t, u, n, ')', e + 2);
      AgreeDrop(t, u, n, e + 2);
      RuleSubPrefix(col, t[e + 2..], u[e + 2..], f - e - 2);
    } else {
      assert |u| > n ==> u[n..][0] == u[n];
    }
  }

  lemma {:induction false} ReadRuleColPrefix(t: string, u: string, id: int, c2: nat)
    requires c2 < |t| && ReadRuleCol(t, id, c2).Found? && KeepsRef(t, u, ReadRuleCol(t, id, c2).used)
    ensures c2 < |u| && ReadRuleCol(u, id, c2) == ReadRuleCol(t, id, c2)
  {
    var n := ReadRuleCol(t, id, c2).used;
    var e := Find(t, '}', c2 + 1);
    FindAgree(t, u, n, '}', c2 + 1);
    SliceAgree(t, u, n, c2 + 1, e);
    ReadRuleSubPrefix(t, u, id, t[c2 + 1..e], e);
  }

  lemma {:induction false} ReadRulePrefix(t: string, u: string)
    requires StartsWith(t, '{') && ReadRule(t).Found? && KeepsRef(t, u, ReadRule(t).used)
    ensures StartsWith(u, '{') && ReadRule(u) == ReadRule(t)
  {
    var n := ReadRule(t).used;
    assert u[0] == t[0];
    var c1 := Find(t, ':', 1);
    var c2 := Find(t, ':', c1 + 1);
    var id := Atoi(t[1..c1]);
    assert ReadRule(t) == ReadRuleCol(t, id, c2);
    assert c1 < c2 < n;
    FindAgree(t, u, n, ':', 1);
    FindAgree(t, u, n, ':', c1 + 1);
    SliceAgree(t, u, n, 1, c1);
    ReadRuleColPrefix(t, u, id, c2);
  }

  /** What a reference reads as depends on its own characters only, apart from the '(' that
      would give a bare one a subscript. */
  lemma {:induction false} ReadRefPrefix(t: string, u: string)
    requires t != [] && IsOpener(t[0]) && ReadRef(t).Found? && KeepsRef(t, u, ReadRef(t).used)
    ensures u != [] && u[0] == t[0] && ReadRef(u) == ReadRef(t)
  {
    match KindOf(t[0])
    case ItemKind => ReadItemPrefix(t, u);
    case RuleKind => ReadRulePrefix(t, u);
    case ParmKind =>
      var n := ReadRef(t).used;
      assert u[0] == t[0];
      FindAgree(t, u, n, '$', 1);
      SliceAgree(t, u, n, 1, n - 1);
  }
}
