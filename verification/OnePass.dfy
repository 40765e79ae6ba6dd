// The query text in one pass (comments, newlines and references together) and in two passes
// (strip, then bind), and when the two agree.
module OnePass {
  import opened CText
  import opened Template

  /** A block comment that is taken out: not a hint, and not at the very end of the text. */
  predicate Removable(t: string) { PairAt(t, 0, '/', '*') && |t| > 2 && t[2] != '+' }

  /** The characters a removed block comment takes. */
  ghost function CommentLength(t: string): (n: nat)
    requires |t| > 2
    ensures 2 <= n <= |t|
  {
    var i := FindPair(t, '*', '/', 2);
    if i < |t| then i + 2 else |t|
  }

  /** What ParseQueryRule finds in the text t with `pending` already collected. */
  ghost function QueryScan(t: string, pending: string): Outcome
    decreases |t|
  {
    if t == [] then Outcome(Flush(pending), Complete)
    else if t[0] == SHIFT_OUT then
      var e := Find(t, SHIFT_IN, 0);
      if e == |t| then Outcome([], Overrun) else QueryScan(t[e + 1..], pending + t[..e + 1])
    else if PairAt(t, 0, '-', '-') then QueryScan(t[Find(t, '\n', 0)..], pending)
    else if PairAt(t, 0, '\n', '\n') then QueryScan(t[1..], pending)
    else if Removable(t) then QueryScan(t[CommentLength(t)..], pending)
    else if PairAt(t, 0, '/', '*') then QueryScan(t[2..], pending + t[..2])
    else if !IsOpener(t[0]) then QueryScan(t[1..], pending + [t[0]])
    else if DollarText(t) then Prepend(Flush(pending), QueryScan(t[1..], "$"))
    else
      var r := ReadRef(t);
      if r.Found? && r.code != 0 then
        Prepend(Flush(pending) + [Ref(KindOf(t[0]), r.code, r.sub)], QueryScan(t[r.used..], []))
      else Outcome(Flush(pending), Stop(r))
  }

  /** The first of two passes: comments and doubled newlines go, shift-out runs and hints stay. */
  ghost function Strip(t: string): string
    decreases |t|
  {
    if t == [] then []
    else if t[0] == SHIFT_OUT then
      var e := Find(t, SHIFT_IN, 0);
      if e == |t| then t else t[..e + 1] + Strip(t[e + 1..])
    else if PairAt(t, 0, '-', '-') then Strip(t[Find(t, '\n', 0)..])
    else if PairAt(t, 0, '\n', '\n') then Strip(t[1..])
    else if Removable(t) then Strip(t[CommentLength(t)..])
    else if PairAt(t, 0, '/', '*') then t[..2] + Strip(t[2..])
    else [t[0]] + Strip(t[1..])
  }

  /** Text that stripping leaves alone: no run, no comment opener, no doubled newline. */
  predicate Verbatim(s: string)
  {
    && SHIFT_OUT !in s
    && forall k :: 0 <= k < |s| - 1 ==> !PairAt(s, k, '-', '-') && !PairAt(s, k, '\n', '\n') && !PairAt(s, k, '/', '*')
  }

  /** The characters of the reference t starts with, or all of t when reading it fails. */
  ghost function Span(t: string): (n: nat)
    requires t != [] && IsOpener(t[0])
    ensures 0 < n <= |t|
  {
    var r := ReadRef(t);
    if r.Found? then r.used else |t|
  }

  /** No reference met on the way holds anything that stripping would take. */
  ghost predicate RefsVerbatim(t: string)
    decreases |t|
  {
    if t == [] then true
    else if t[0] == SHIFT_OUT then
      var e := Find(t, SHIFT_IN, 0);
      e < |t| ==> RefsVerbatim(t[e + 1..])
    else if PairAt(t, 0, '-', '-') then RefsVerbatim(t[Find(t, '\n', 0)..])
    else if PairAt(t, 0, '\n', '\n') then RefsVerbatim(t[1..])
    else if Removable(t) then RefsVerbatim(t[CommentLength(t)..])
    else if PairAt(t, 0, '/', '*') then RefsVerbatim(t[2..])
    else if !IsOpener(t[0]) || DollarText(t) then RefsVerbatim(t[1..])
    else Verbatim(t[..Span(t)]) && RefsVerbatim(t[Span(t)..])
  }

  /** No removed comment gives a '$' its digit or a bare reference its '('. */
  ghost predicate NoFalseRefs(t: string)
    decreases |t|
  {
    if t == [] then true
    else if t[0] == SHIFT_OUT then
      var e := Find(t, SHIFT_IN, 0);
      e < |t| ==> NoFalseRefs(t[e + 1..])
    else if PairAt(t, 0, '-', '-') then NoFalseRefs(t[Find(t, '\n', 0)..])
    else if PairAt(t, 0, '\n', '\n') then NoFalseRefs(t[1..])
    else if Removable(t) then NoFalseRefs(t[CommentLength(t)..])
    else if PairAt(t, 0, '/', '*') then NoFalseRefs(t[2..])
    else if !IsOpener(t[0]) then NoFalseRefs(t[1..])
    else if DollarText(t) then !StartsWithDigit(Strip(t[1..])) && NoFalseRefs(t[1..])
    else (Bare(t, Span(t)) ==> !StartsWith(Strip(t[Span(t)..]), '(')) && NoFalseRefs(t[Span(t)..])
  }

  lemma VerbatimTail(a: string)
    requires Verbatim(a) && a != []
    ensures Verbatim(a[1..]) && a[0] != SHIFT_OUT
    ensures |a| > 1 ==> !PairAt(a, 0, '-', '-') && !PairAt(a, 0, '\n', '\n') && !PairAt(a, 0, '/', '*')
  {
    forall k | 0 <= k < |a[1..]| - 1
      ensures !PairAt(a[1..], k, '-', '-') && !PairAt(a[1..], k, '\n', '\n') && !PairAt(a[1..], k, '/', '*')
    {
      assert !PairAt(a, k + 1, '-', '-') && !PairAt(a, k + 1, '\n', '\n') && !PairAt(a, k + 1, '/', '*');
    }
  }

  lemma StripOne(t: string)
    requires t != [] && t[0] != SHIFT_OUT
    requires !PairAt(t, 0, '-', '-') && !PairAt(t, 0, '\n', '\n') && !PairAt(t, 0, '/', '*')
    ensures Strip(t) == [t[0]] + Strip(t[1..])
  {
  }

  lemma StripNothing()
    ensures Strip([]) == []
  {
  }

  lemma {:induction false} StripVerbatim(a: string, x: string)
    requires Verbatim(a) && (a != [] && x != [] ==> a[|a| - 1] !in "-\n/")
    ensures Strip(a + x) == a + Strip(x)
    decreases |a|
  {
    hide Verbatim, Strip;
    if a == [] {
      assert a + x == x;
    } else {
      var t := a + x;
      VerbatimTail(a);
      assert t[0] == a[0] && t[1..] == a[1..] + x && (|a| > 1 ==> t[1] == a[1]);
      StripVerbatim(a[1..], x);
      assert |a| == 1 && x != [] ==> a[|a| - 1] == t[0];
      StripOne(t);
    }
  }

  lemma {:induction false} ReadRefEnd(t: string)
    requires t != [] && IsOpener(t[0]) && ReadRef(t).Found? && ReadRef(t).used < |t|
    ensures t[ReadRef(t).used - 1] in "])}$"
  {
    hide Atoi, ItemSub, RuleSub, Pad2;
  }

  /** A reference without anything to strip survives stripping, and reads the same. */
  lemma {:induction false} StripKeepsRef(t: string)
    requires t != [] && IsOpener(t[0]) && Verbatim(t[..Span(t)])
    requires Bare(t, Span(t)) ==> !StartsWith(Strip(t[Span(t)..]), '(')
    ensures var u, n := Strip(t), Span(t);
            && u == t[..n] + Strip(t[n..]) && u[n..] == Strip(t[n..])
            && ReadRef(u) == ReadRef(t)
  {
    hide Strip, Verbatim, ReadRef;
    var n := Span(t);
    var a, x := t[..n], t[n..];
    assert t == a + x;
    if n < |t| {
      ReadRefEnd(t);
      assert a[|a| - 1] == t[n - 1];
    }
    StripVerbatim(a, x);
    var u := Strip(t);
    assert u[n..] == Strip(x);
    if n < |t| {
      forall k | 0 <= k < n ensures t[k] == u[k] {
        assert u[k] == a[k];
      }
      ReadRefPrefix(t, u);
    } else {
      StripNothing();
      assert u == t;
    }
  }

  /** One pass equals two: stripping first and binding afterwards finds the same segments. */
  lemma {:induction false} OnePassIsTwoPasses(t: string, pending: string)
    requires RefsVerbatim(t) && NoFalseRefs(t)
    ensures QueryScan(t, pending) == Scan(Strip(t), pending)
    decreases |t|
  {
    if t == [] {
    } else if t[0] == SHIFT_OUT {
      var e := Find(t, SHIFT_IN, 0);
      if e < |t| {
        OnePassIsTwoPasses(t[e + 1..], pending + t[..e + 1]);
        ScanRun(t[..e + 1], Strip(t[e + 1..]), pending);
      }
    } else if PairAt(t, 0, '-', '-') {
      OnePassIsTwoPasses(t[Find(t, '\n', 0)..], pending);
    } else if PairAt(t, 0, '\n', '\n') {
      OnePassIsTwoPasses(t[1..], pending);
    } else if Removable(t) {
      OnePassIsTwoPasses(t[CommentLength(t)..], pending);
    } else if PairAt(t, 0, '/', '*') {
      OnePassIsTwoPasses(t[2..], pending + t[..2]);
      ScanTwo(t[..2], Strip(t[2..]), pending);
    } else if !IsOpener(t[0]) {
      OnePassIsTwoPasses(t[1..], pending + [t[0]]);
      ScanOne(t[0], Strip(t[1..]), pending);
    } else if DollarText(t) {
      OnePassIsTwoPasses(t[1..], "$");
      var u := ['$'] + Strip(t[1..]);
      assert u[1..] == Strip(t[1..]) && DollarText(u);
    } else {
      SeparableRef(t, pending);
    }
  }

  lemma ParmSpan(t: string)
    requires StartsWith(t, '$') && !DollarText(t)
    ensures Span(t) >= 2
  {
    hide Atoi;
  }

  lemma {:induction false} SeparableRef(t: string, pending: string)
    requires t != [] && IsOpener(t[0]) && !DollarText(t) && RefsVerbatim(t) && NoFalseRefs(t)
    ensures QueryScan(t, pending) == Scan(Strip(t), pending)
    decreases |t|, 0
  {
    hide Strip, Verbatim, ReadRef, QueryScan, Scan, RefsVerbatim, NoFalseRefs;
    RefUnfolds(t);
    StripKeepsRef(t);
    var n, u := Span(t), Strip(t);
    assert u[0] == t[..n][0] == t[0];
    if t[0] == '$' {
      ParmSpan(t);
      assert u[1] == t[..n][1] == t[1];
    }
    assert !DollarText(u);
    QueryScanRef(t, pending);
    ScanRef(u, pending);
    hide *;
    if ReadRef(t).Found? && ReadRef(t).code != 0 {
      OnePassIsTwoPasses(t[n..], []);
    }
  }

  lemma RefUnfolds(t: string)
    requires t != [] && IsOpener(t[0]) && !DollarText(t) && RefsVerbatim(t) && NoFalseRefs(t)
    ensures Verbatim(t[..Span(t)]) && RefsVerbatim(t[Span(t)..]) && NoFalseRefs(t[Span(t)..])
    ensures Bare(t, Span(t)) ==> !StartsWith(Strip(t[Span(t)..]), '(')
    ensures ReadRef(t).Found? ==> Span(t) == ReadRef(t).used
  {
    hide Strip, Verbatim, ReadRef;
  }

  lemma QueryScanRef(t: string, pending: string)
    requires t != [] && IsOpener(t[0]) && !DollarText(t)
    ensures var r := ReadRef(t);
            QueryScan(t, pending) ==
              if r.Found? && r.code != 0 then
                Prepend(Flush(pending) + [Ref(KindOf(t[0]), r.code, r.sub)], QueryScan(t[r.used..], []))
              else Outcome(Flush(pending), Stop(r))
  {
    hide ReadRef;
  }

  lemma ScanRef(t: string, pending: string)
    requires t != [] && IsOpener(t[0]) && !DollarText(t)
    ensures var r := ReadRef(t);
            Scan(t, pending) ==
              if r.Found? && r.code != 0 then
                Prepend(Flush(pending) + [Ref(KindOf(t[0]), r.code, r.sub)], Scan(t[r.used..], []))
              else Outcome(Flush(pending), Stop(r))
  {
    hide ReadRef;
  }

  lemma ScanOne(c: char, x: string, pending: string)
    requires c != SHIFT_OUT && !IsOpener(c)
    ensures Scan([c] + x, pending) == Scan(x, pending + [c])
  {
    assert ([c] + x)[1..] == x;
  }

  lemma ScanTwo(a: string, x: string, pending: string)
    requires a == ['/', '*']
    ensures Scan(a + x, pending) == Scan(x, pending + a)
  {
    assert a + x == ['/'] + (['*'] + x);
    ScanOne('/', ['*'] + x, pending);
    ScanOne('*', x, pending + ['/']);
    assert pending + ['/'] + ['*'] == pending + a;
  }

  lemma ScanRun(a: string, x: string, pending: string)
    requires |a| > 1 && a[0] == SHIFT_OUT && Find(a, SHIFT_IN, 0) == |a| - 1
    ensures Scan(a + x, pending) == Scan(x, pending + a)
  {
    assert IsFirst(a + x, SHIFT_IN, 0, |a| - 1);
    SplitAppend(a, x, |a|);
    assert a[..|a|] == a && a[|a|..] + x == x;
  }

  // The converse: where a comment does hide a '$' or a '(' the two compilers part.

  /** Text already collected heads the first segment, if the scan ever gets to flush it. */
  lemma {:induction false} PendingLeads(t: string, pending: string)
    requires pending != []
    ensures var o := QueryScan(t, pending);
            o.segs != [] ==> o.segs[0].Text? && pending <= o.segs[0].text
    decreases |t|
  {
    if t == [] {
    } else if t[0] == SHIFT_OUT {
      var e := Find(t, SHIFT_IN, 0);
      if e < |t| {
        PendingLeads(t[e + 1..], pending + t[..e + 1]);
      }
    } else if PairAt(t, 0, '-', '-') {
      PendingLeads(t[Find(t, '\n', 0)..], pending);
    } else if PairAt(t, 0, '\n', '\n') {
      PendingLeads(t[1..], pending);
    } else if Removable(t) {
      PendingLeads(t[CommentLength(t)..], pending);
    } else if PairAt(t, 0, '/', '*') {
      PendingLeads(t[2..], pending + t[..2]);
    } else if !IsOpener(t[0]) {
      PendingLeads(t[1..], pending + [t[0]]);
    }
  }

  lemma {:induction false} FalseDollar(t: string, pending: string)
    requires DollarText(t) && StartsWithDigit(Strip(t[1..])) && Scan(Strip(t), pending).end == Complete
    ensures QueryScan(t, pending) != Scan(Strip(t), pending)
  {
    var u := Strip(t);
    StripOne(t);
    assert u[1..] == Strip(t[1..]);
    var r := ReadRef(u);
    assert r.Found? && r.code != 0;
    PendingLeads(t[1..], "$");
    var o := QueryScan(t, pending);
    var k := |Flush(pending)|;
    assert |o.segs| > k ==> o.segs[k] == QueryScan(t[1..], "$").segs[0];
    assert Scan(u, pending).segs[k] == Ref(ParmKind, r.code, r.sub);
  }

  lemma {:induction false} BareItem(t: string, u: string, n: nat)
    requires StartsWith(t, '[') && n == ReadItem(t).used && Bare(t, n) && ReadItem(t).code != 0
    requires Agree(t, u, n) && StartsWith(u[n..], '(')
    ensures StartsWith(u, '[') && ReadItem(u) != Found(ReadItem(t).code, ReadItem(t).sub, ReadItem(u).used)
  {
    hide Atoi;
    assert u[0] == t[0] && u[n] == u[n..][0];
    var close := Find(t, ']', 1);
    assert close + 1 == n;
    FindAgree(t, u, n, ']', 1);
    SliceAgree(t, u, n, 1, close);
  }

  lemma {:induction false} BareRule(t: string, u: string, n: nat)
    requires StartsWith(t, '{') && ReadRule(t).Found? && n == ReadRule(t).used && Bare(t, n)
    requires Agree(t, u, n) && StartsWith(u[n..], '(')
    ensures StartsWith(u, '{')
    ensures ReadRule(u).Found? ==> ReadRule(u).sub != ReadRule(t).sub
  {
    hide Atoi, Pad2, RuleSub, ReadRuleCol;
    assert u[0] == t[0];
    var c1 := Find(t, ':', 1);
    var c2 := Find(t, ':', c1 + 1);
    var id := Atoi(t[1..c1]);
    assert ReadRule(t) == ReadRuleCol(t, id, c2);
    FindAgree(t, u, n, ':', 1);
    FindAgree(t, u, n, ':', c1 + 1);
    SliceAgree(t, u, n, 1, c1);
    BareRuleCol(t, u, n, id, c2);
  }

  lemma {:induction false} BareRuleCol(t: string, u: string, n: nat, id: int, c2: nat)
    requires c2 < |t| && ReadRuleCol(t, id, c2).Found? && n == ReadRuleCol(t, id, c2).used && Bare(t, n)
    requires Agree(t, u, n) && StartsWith(u[n..], '(')
    ensures c2 < |u|
    ensures ReadRuleCol(u, id, c2).Found? ==> ReadRuleCol(u, id, c2).sub != ReadRuleCol(t, id, c2).sub
  {
    hide Atoi, Pad2, ReadRuleSub;
    var e := Find(t, '}', c2 + 1);
    var col := t[c2 + 1..e];
    assert ReadRuleCol(t, id, c2) == ReadRuleSub(t, id, col, e);
    BareRuleEnd(t, id, col, e);
    FindAgree(t, u, n, '}', c2 + 1);
    SliceAgree(t, u, n, c2 + 1, e);
    assert u[n] == u[n..][0];
    BareRuleSub(t, u, id, col, e);
  }

  lemma BareRuleEnd(t: string, id: int, col: string, e: nat)
    requires e < |t| && ReadRuleSub(t, id, col, e).Found? && Bare(t, ReadRuleSub(t, id, col, e).used)
    ensures ReadRuleSub(t, id, col, e) == Found(id, if col == "" then "" else Pad2(Atoi(col)), e + 1)
  {
    hide Atoi, Pad2, RuleSub;
  }

  lemma BareRuleSub(t: string, u: string, id: int, col: string, e: nat)
    requires e < |t| && e + 1 < |u| && u[e + 1] == '('
    requires ReadRuleSub(t, id, col, e) == Found(id, if col == "" then "" else Pad2(Atoi(col)), e + 1)
    ensures ReadRuleSub(u, id, col, e).Found? ==> ReadRuleSub(u, id, col, e).sub != ReadRuleSub(t, id, col, e).sub
  {
    hide Atoi, Pad2;
    assert |RuleSub(col, u[e + 2..])| > |Pad2(Atoi(col))|;
  }

  lemma BareKind(t: string)
    requires t != [] && IsOpener(t[0]) && ReadRef(t).Found? && Bare(t, ReadRef(t).used)
    ensures t[0] != '$'
  {
    hide Atoi, ReadItem, ReadRule;
  }

  lemma {:induction false} FalseSubscript(t: string, pending: string)
    requires t != [] && IsOpener(t[0]) && !DollarText(t) && Verbatim(t[..Span(t)])
    requires ReadRef(t).Found? && Bare(t, Span(t)) && StartsWith(Strip(t[Span(t)..]), '(')
    requires Scan(Strip(t), pending).end == Complete
    ensures QueryScan(t, pending) != Scan(Strip(t), pending)
  {
    hide Strip, Verbatim, ReadRef, Scan, QueryScan;
    var n, u, r := Span(t), Strip(t), ReadRef(t);
    var a, x := t[..n], t[n..];
    StripNothing();
    assert t == a + x && n < |t|;
    ReadRefEnd(t);
    assert a[|a| - 1] == t[n - 1];
    StripVerbatim(a, x);
    forall k | 0 <= k < n ensures t[k] == u[k] {
      assert u[k] == a[k];
    }
    assert u[n..] == Strip(x) && u[0] == t[0];
    BareKind(t);
    var q := ReadRef(u);
    ScanRefHead(u, pending);
    QueryScanRefHead(t, pending);
    if r.code != 0 && q.Found? {
      FalseSubscriptRead(t, u);
    }
  }

  lemma {:induction false} FalseSubscriptRead(t: string, u: string)
    requires t != [] && IsOpener(t[0]) && t[0] != '$' && ReadRef(t).Found? && ReadRef(t).code != 0
    requires Bare(t, ReadRef(t).used) && Agree(t, u, ReadRef(t).used) && StartsWith(u[ReadRef(t).used..], '(')
    ensures u[0] == t[0]
    ensures ReadRef(u) != Found(ReadRef(t).code, ReadRef(t).sub, if ReadRef(u).Found? then ReadRef(u).used else 0)
  {
    hide ReadItem, ReadRule;
    var n := ReadRef(t).used;
    if t[0] == '[' {
      BareItem(t, u, n);
    } else {
      BareRule(t, u, n);
    }
  }

  lemma ScanRefHead(t: string, pending: string)
    requires t != [] && IsOpener(t[0]) && !DollarText(t) && Scan(t, pending).end == Complete
    ensures var r, k := ReadRef(t), |Flush(pending)|;
            && r.Found? && r.code != 0 && |Scan(t, pending).segs| > k
            && Scan(t, pending).segs[k] == Ref(KindOf(t[0]), r.code, r.sub)
  {
    hide ReadRef;
  }

  lemma QueryScanRefHead(t: string, pending: string)
    requires t != [] && IsOpener(t[0]) && !DollarText(t)
    ensures var r, k, o := ReadRef(t), |Flush(pending)|, QueryScan(t, pending);
            if r.Found? && r.code != 0 then |o.segs| > k && o.segs[k] == Ref(KindOf(t[0]), r.code, r.sub)
            else o.end != Complete
  {
    hide ReadRef;
  }

  lemma {:induction false} FalseRefsDiffer(t: string, pending: string)
    requires RefsVerbatim(t) && !NoFalseRefs(t) && Scan(Strip(t), pending).end == Complete
    ensures QueryScan(t, pending) != Scan(Strip(t), pending)
    decreases |t|, 2
  {
    if t[0] == SHIFT_OUT {
      FalseBehindRun(t, pending);
    } else if PairAt(t, 0, '-', '-') {
      FalseRefsDiffer(t[Find(t, '\n', 0)..], pending);
    } else if PairAt(t, 0, '\n', '\n') {
      FalseRefsDiffer(t[1..], pending);
    } else if Removable(t) {
      FalseRefsDiffer(t[CommentLength(t)..], pending);
    } else if PairAt(t, 0, '/', '*') {
      ScanTwo(t[..2], Strip(t[2..]), pending);
      FalseRefsDiffer(t[2..], pending + t[..2]);
    } else if !IsOpener(t[0]) {
      ScanOne(t[0], Strip(t[1..]), pending);
      FalseRefsDiffer(t[1..], pending + [t[0]]);
    } else {
      FalseRefDiffers(t, pending);
    }
  }

  lemma {:induction false} FalseBehindRun(t: string, pending: string)
    requires t != [] && t[0] == SHIFT_OUT
    requires RefsVerbatim(t) && !NoFalseRefs(t) && Scan(Strip(t), pending).end == Complete
    ensures QueryScan(t, pending) != Scan(Strip(t), pending)
    decreases |t|, 1
  {
    var e := Find(t, SHIFT_IN, 0);
    RunUnfolds(t, pending);
    hide *;
    ScanRun(t[..e + 1], Strip(t[e + 1..]), pending);
    FalseRefsDiffer(t[e + 1..], pending + t[..e + 1]);
  }

  lemma RunUnfolds(t: string, pending: string)
    requires t != [] && t[0] == SHIFT_OUT && RefsVerbatim(t) && !NoFalseRefs(t)
    ensures var e := Find(t, SHIFT_IN, 0);
            && 0 < e < |t| && Strip(t) == t[..e + 1] + Strip(t[e + 1..]) && Find(t[..e + 1], SHIFT_IN, 0) == e
            && RefsVerbatim(t[e + 1..]) && !NoFalseRefs(t[e + 1..])
            && QueryScan(t, pending) == QueryScan(t[e + 1..], pending + t[..e + 1])
  {
    var e := Find(t, SHIFT_IN, 0);
    assert e < |t| && t[e] == SHIFT_IN;
    assert IsFirst(t[..e + 1], SHIFT_IN, 0, e);
  }

  lemma {:induction false} FalseRefDiffers(t: string, pending: string)
    requires t != [] && IsOpener(t[0])
    requires RefsVerbatim(t) && !NoFalseRefs(t) && Scan(Strip(t), pending).end == Complete
    ensures QueryScan(t, pending) != Scan(Strip(t), pending)
    decreases |t|, 1
  {
    if DollarText(t) {
      if StartsWithDigit(Strip(t[1..])) {
        FalseDollar(t, pending);
      } else {
        StripOne(t);
        assert Strip(t)[1..] == Strip(t[1..]);
        FalseRefsDiffer(t[1..], "$");
        PrependCancel(Flush(pending), QueryScan(t[1..], "$"), Scan(Strip(t[1..]), "$"));
      }
    } else if Bare(t, Span(t)) && StartsWith(Strip(t[Span(t)..]), '(') {
      StripNothing();
      FalseSubscript(t, pending);
    } else {
      FalseBehindRef(t, pending);
    }
  }

  lemma PrependCancel(segs: seq<Segment>, a: Outcome, b: Outcome)
    requires a != b
    ensures Prepend(segs, a) != Prepend(segs, b)
  {
    assert (segs + a.segs)[|segs|..] == a.segs && (segs + b.segs)[|segs|..] == b.segs;
  }

  lemma {:induction false} FalseBehindRef(t: string, pending: string)
    requires t != [] && IsOpener(t[0]) && !DollarText(t) && Verbatim(t[..Span(t)])
    requires RefsVerbatim(t[Span(t)..]) && !NoFalseRefs(t[Span(t)..]) && Scan(Strip(t), pending).end == Complete
    requires Bare(t, Span(t)) ==> !StartsWith(Strip(t[Span(t)..]), '(')
    ensures QueryScan(t, pending) != Scan(Strip(t), pending)
    decreases |t|, 0
  {
    hide Strip, Verbatim, ReadRef, RefsVerbatim, NoFalseRefs;
    StripKeepsRef(t);
    var n, u, r := Span(t), Strip(t), ReadRef(t);
    assert u[0] == t[..n][0] == t[0];
    if t[0] == '$' {
      ParmSpan(t);
      assert u[1] == t[..n][1] == t[1];
    }
    assert !DollarText(u);
    if r.Found? && r.code != 0 {
      FalseRefsDiffer(t[n..], []);
      PrependCancel(Flush(pending) + [Ref(KindOf(t[0]), r.code, r.sub)], QueryScan(t[n..], []), Scan(u[n..], []));
    }
  }

  /** For a text whose references are verbatim and whose stripped form compiles, one pass equals
      two exactly when no removed comment uncovers a reference. */
  lemma OnePassIffNoFalseRefs(t: string)
    requires RefsVerbatim(t) && Scan(Strip(t), "").end == Complete
    ensures QueryScan(t, "") == Scan(Strip(t), "") <==> NoFalseRefs(t)
  {
    if NoFalseRefs(t) {
      OnePassIsTwoPasses(t, "");
    } else {
      FalseRefsDiffer(t, "");
    }
  }
}
