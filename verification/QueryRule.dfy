// ParseQueryRule: the rewritten statement, the bind list and the recorded positions.
module QueryRule {
  import opened CText
  import opened Template
  import opened Reader
  import opened BranchRule
  import opened OnePass

  /** A node of the bind list with the position of its placeholder. */
  datatype Bind = Bind(node: QBNode, pos: nat)

  /** QryStr up to its terminator, the write position pQry - QryStr, and the bind list. */
  datatype Draft = Draft(buf: string, cur: nat, binds: seq<Bind>)

  /** strcpy(pQry, text): the text and a terminator at the write position. */
  function Put(d: Draft, text: string, advance: nat): (r: Draft)
    requires d.cur <= |d.buf|
  {
    Draft(d.buf[..d.cur] + text, d.cur + advance, d.binds)
  }

  function Placeholder(k: nat): string { ":v" + Pad2(k) }

  lemma PlaceholderLength(k: nat)
    ensures |Placeholder(k)| >= 4 && (|Placeholder(k)| == 4 <==> k <= 99)
  {
    if k >= 10 {
      assert Dec(k) == Dec(k / 10) + [DigitChar(k % 10)];
      if k >= 100 {
        assert Dec(k / 10) == Dec(k / 10 / 10) + [DigitChar(k / 10 % 10)];
      } else {
        assert Dec(k / 10) == [DigitChar(k / 10)];
      }
    } else {
      assert Dec(k) == [DigitChar(k)];
    }
  }

  function PutText(d: Draft, text: string): (r: Draft)
    requires d.cur <= |d.buf|
    ensures r.cur <= |r.buf| && r.binds == d.binds
  {
    Put(d, text, |text|)
  }

  function PutRef(d: Draft, node: QBNode): (r: Draft)
    requires d.cur <= |d.buf|
    ensures r.cur <= |r.buf|
  {
    PlaceholderLength(|d.binds| + 1);
    Put(d, Placeholder(|d.binds| + 1), 4).(binds := d.binds + [Bind(node, d.cur)])
  }

  function PutSegment(d: Draft, s: Segment): (r: Draft)
    requires d.cur <= |d.buf|
    ensures r.cur <= |r.buf|
  {
    if s.Text? then PutText(d, s.text) else PutRef(d, NodeOf(s))
  }

  /** Writing all segments into a buffer that holds `junk` at first. */
  ghost function Emit(segs: seq<Segment>, junk: string): (d: Draft)
    ensures d.cur <= |d.buf|
  {
    if segs == [] then Draft(junk, 0, []) else PutSegment(Emit(segs[..|segs| - 1], junk), segs[|segs| - 1])
  }

  lemma EmitAppend(segs: seq<Segment>, s: Segment, junk: string)
    ensures Emit(segs + [s], junk) == PutSegment(Emit(segs, junk), s)
  {
    assert (segs + [s])[..|segs|] == segs;
  }

  lemma EmitFlush(segs: seq<Segment>, pending: string, junk: string)
    ensures Emit(segs + Flush(pending), junk)
         == if pending == [] then Emit(segs, junk) else PutText(Emit(segs, junk), pending)
  {
    if pending == [] {
      assert segs + Flush(pending) == segs;
    } else {
      EmitAppend(segs, Text(pending), junk);
    }
  }

  // The scan as the loop of ParseQueryRule goes through it.

  ghost predicate Reached(whole: Outcome, segs: seq<Segment>, pending: string, t: string)
  {
    whole == Prepend(segs, QueryScan(t, pending))
  }

  lemma ReachedStart(source: string)
    ensures Reached(QueryScan(source, ""), [], "", source)
  {
  }

  lemma ReachedEnd(whole: Outcome, segs: seq<Segment>, pending: string)
    requires Reached(whole, segs, pending, [])
    ensures whole == Outcome(segs + Flush(pending), Complete)
  {
  }

  lemma ReachedRun(whole: Outcome, segs: seq<Segment>, pending: string, t: string, e: nat)
    requires Reached(whole, segs, pending, t) && t != [] && t[0] == SHIFT_OUT && e == Find(t, SHIFT_IN, 0)
    ensures if e == |t| then whole == Outcome(segs, Overrun)
            else Reached(whole, segs, pending + t[..e + 1], t[e + 1..])
  {
  }

  lemma ReachedComment(whole: Outcome, segs: seq<Segment>, pending: string, t: string)
    requires Reached(whole, segs, pending, t)
    ensures PairAt(t, 0, '-', '-') ==> Reached(whole, segs, pending, t[Find(t, '\n', 0)..])
    ensures PairAt(t, 0, '\n', '\n') ==> Reached(whole, segs, pending, t[1..])
    ensures Removable(t) ==> Reached(whole, segs, pending, t[CommentLength(t)..])
    ensures Removable(t) ==> pending + "" == pending
    ensures PairAt(t, 0, '/', '*') && !Removable(t) ==> Reached(whole, segs, pending + t[..2], t[2..])
  {
  }

  /** Nothing but a delimiter or an ordinary character is left to treat. */
  predicate Ordinary(t: string)
  {
    && t != [] && t[0] != SHIFT_OUT
    && !PairAt(t, 0, '-', '-') && !PairAt(t, 0, '\n', '\n') && !PairAt(t, 0, '/', '*')
  }

  lemma ReachedPlain(whole: Outcome, segs: seq<Segment>, pending: string, t: string)
    requires Reached(whole, segs, pending, t) && Ordinary(t) && !IsOpener(t[0])
    ensures Reached(whole, segs, pending + [t[0]], t[1..])
  {
  }

  lemma ReachedDollar(whole: Outcome, segs: seq<Segment>, pending: string, t: string)
    requires Reached(whole, segs, pending, t) && DollarText(t)
    ensures Reached(whole, segs + Flush(pending), "$", t[1..])
  {
    var later := QueryScan(t[1..], "$").segs;
    assert segs + (Flush(pending) + later) == segs + Flush(pending) + later;
  }

  lemma ReachedRef(whole: Outcome, segs: seq<Segment>, pending: string, t: string)
    requires Reached(whole, segs, pending, t) && t != [] && IsOpener(t[0]) && !DollarText(t)
    ensures var r := ReadRef(t);
            if r.Found? && r.code != 0 then
              Reached(whole, segs + Flush(pending) + [Ref(KindOf(t[0]), r.code, r.sub)], [], t[r.used..])
            else whole == Outcome(segs + Flush(pending), Stop(r))
  {
    hide ReadRef;
    var r := ReadRef(t);
    if r.Found? && r.code != 0 {
      var ref := [Ref(KindOf(t[0]), r.code, r.sub)];
      var later := QueryScan(t[r.used..], []).segs;
      assert segs + ((Flush(pending) + ref) + later) == segs + Flush(pending) + ref + later;
    }
  }

  method SkipLineComment(source: string, p: nat) returns (next: nat)
    requires p < |source|
    ensures p <= next <= |source|
    ensures next - p == Find(source[p..], '\n', 0)
  {
    var skipped;
    skipped, next := CopyUntil(source, p, '\n', p);
  }

  method SkipBlockComment(source: string, p: nat) returns (next: nat)
    requires p + 2 < |source|
    ensures p + 2 <= next <= |source| && next - p == CommentLength(source[p..])
    ensures var i := FindPair(source[p..], '*', '/', 2); if i < |source| - p then next == p + i + 2 else next == |source|
  {
    ghost var t := source[p..];
    next := p + 2;
    while !AtEnd(source, next)
      invariant p + 2 <= next <= |source|
      invariant forall k :: 2 <= k < next - p ==> !PairAt(t, k, '*', '/')
      decreases |source| - next
    {
      assert t[next - p] == source[next] && (next + 1 < |source| ==> t[next - p + 1] == source[next + 1]);
      if source[next] == '*' && !AtEnd(source, next + 1) && source[next + 1] == '/' {
        assert IsFirstPair(t, '*', '/', 2, next - p);
        next := next + 2;
        return;
      }
      next := next + 1;
    }
    assert IsFirstPair(t, '*', '/', 2, |t|);
  }

  /** At a block comment: skip it, or copy the two characters that open a hint. */
  method TakeComment(source: string, p: nat) returns (copied: string, next: nat)
    requires p < |source| && PairAt(source[p..], 0, '/', '*')
    ensures p < next <= |source|
    ensures var t := source[p..];
            if Removable(t) then copied == "" && next - p == CommentLength(t)
            else copied == t[..2] && next == p + 2
  {
    ghost var t := source[p..];
    assert p + 2 < |source| ==> t[2] == source[p + 2];
    if p + 2 < |source| && source[p + 2] != '+' {
      copied := "";
      next := SkipBlockComment(source, p);
    } else {
      assert t[..2] == ['/', '*'];
      copied, next := ['/', '*'], p + 2;
    }
  }

  class QRuleData {
    var pBindValue: seq<Bind>
    var QueryStatement: string
    var nBindVal: nat

    /** The result fields after a parse: an aborted or failed one leaves the binds made so far. */
    ghost predicate Holds(o: Outcome, junk: string, oldStatement: string, oldCount: nat)
      reads this
    {
      var d := Emit(o.segs, junk);
      && pBindValue == d.binds
      && QueryStatement == (if o.end == Complete then d.buf else oldStatement)
      && nBindVal == (if o.end == Complete then |d.binds| else oldCount)
    }

    /** `junk` is what the uninitialised stack buffer QryStr holds on entry. */
    method ParseQueryRule(source: string, junk: string) returns (end: End)
      requires pBindValue == []
      modifies this
      ensures end == QueryScan(source, "").end
      ensures Holds(QueryScan(source, ""), junk, old(QueryStatement), old(nBindVal))
    {
      hide *;
      ghost var whole := QueryScan(source, "");
      ghost var segs: seq<Segment> := [];
      var pSource, tempStr := 0, "";
      var qry := Draft(junk, 0, []);
      EmitNothing(junk);
      ReachedStart(source);
      assert source[0..] == source;
      while pSource < |source|
        invariant pSource <= |source|
        invariant qry == Emit(segs, junk) && pBindValue == qry.binds
        invariant Reached(whole, segs, tempStr, source[pSource..])
        invariant QueryStatement == old(QueryStatement) && nBindVal == old(nBindVal)
        decreases |source| - pSource
      {
        var turn, text, next := TakeText(source, pSource, tempStr, whole, segs);
        if turn.Unclosed? {
          end := Overrun;
          HoldsEnded(whole, junk, old(QueryStatement), old(nBindVal));
          return;
        }
        tempStr, pSource := text, next;
        if turn.AtReference? {
          end, qry, tempStr, pSource, segs := TakeReference(source, pSource, qry, tempStr, junk, whole, segs);
          if end != Complete {
            HoldsEnded(whole, junk, old(QueryStatement), old(nBindVal));
            return;
          }
        }
      }
      assert source[pSource..] == [];
      ReachedEnd(whole, segs, tempStr);
      EmitFlush(segs, tempStr, junk);
      PutTextKeeps(qry, tempStr);
      if |tempStr| > 0 {
        qry := PutText(qry, tempStr);
      }
      end, QueryStatement, nBindVal := Complete, qry.buf, |qry.binds|;
      HoldsEnded(whole, junk, old(QueryStatement), old(nBindVal));
    }

    lemma HoldsEnded(o: Outcome, junk: string, oldStatement: string, oldCount: nat)
      requires pBindValue == Emit(o.segs, junk).binds
      requires QueryStatement == (if o.end == Complete then Emit(o.segs, junk).buf else oldStatement)
      requires nBindVal == (if o.end == Complete then |Emit(o.segs, junk).binds| else oldCount)
      ensures Holds(o, junk, oldStatement, oldCount)
    {
    }

    /** At an opening delimiter: write the pending text, then keep a lone `$` as text, or read the
        reference and write its placeholder. Any end but Complete leaves the parse. */
    method TakeReference(source: string, p: nat, qry: Draft, tempStr: string, ghost junk: string,
                         ghost whole: Outcome, ghost segs: seq<Segment>)
      returns (end: End, d: Draft, text: string, next: nat, ghost after: seq<Segment>)
      requires p < |source| && IsOpener(source[p])
      requires qry == Emit(segs, junk) && pBindValue == qry.binds && Reached(whole, segs, tempStr, source[p..])
      modifies this`pBindValue
      ensures d == Emit(after, junk) && pBindValue == d.binds && next <= |source|
      ensures end == Complete ==> p < next && Reached(whole, after, text, source[next..])
      ensures end != Complete ==> whole == Outcome(after, end)
    {
      hide QueryScan, Reached, ReadRef, Emit, NodeOf, PutText, PutRef, Flush, IsOpener, KindOf;
      ghost var t := source[p..];
      assert t[0] == source[p];
      assert t[1..] == source[p + 1..];
      after, d, next := segs + Flush(tempStr), qry, p + 1;
      EmitFlush(segs, tempStr, junk);
      PutTextKeeps(qry, tempStr);
      if |tempStr| > 0 {
        d := PutText(qry, tempStr);
      }
      if source[p] == '$' && (p + 1 >= |source| || !IsDigit(source[p + 1])) {
        ReachedDollar(whole, segs, tempStr, t);
        end, text := Complete, "$";
        return;
      }
      ReachedRef(whole, segs, tempStr, t);
      text := "";
      var ref;
      ref, next := GetRef(source, p);
      if !ref.Found? {
        end := if ref.Throws? then Thrown(ref.error) else Overrun;
        return;
      }
      if ref.code == 0 {
        end := Aborted;
        return;
      }
      var segment := Ref(KindOf(source[p]), ref.code, ref.sub);
      EmitAppend(after, segment, junk);
      d := PutRef(d, NodeOf(segment));
      pBindValue := d.binds;
      assert t[ref.used..] == source[next..];
      end, after := Complete, after + [segment];
    }
  }

  lemma PutTextKeeps(d: Draft, text: string)
    requires d.cur <= |d.buf|
    ensures PutText(d, text).binds == d.binds
  {
  }

  /** What one turn of the scan meets: an open SO run, text or a comment, or an opening delimiter. */
  datatype Turn = Unclosed | Treated | AtReference

  /** One turn in front of the delimiters: a run between SO and SI, a comment, a run of newlines, a
      character of text. */
  method TakeText(source: string, p: nat, tempStr: string, ghost whole: Outcome, ghost segs: seq<Segment>)
    returns (turn: Turn, text: string, next: nat)
    requires p < |source| && Reached(whole, segs, tempStr, source[p..])
    ensures p <= next <= |source|
    ensures turn.Unclosed? ==> whole == Outcome(segs, Overrun)
    ensures turn.Treated? ==> p < next && Reached(whole, segs, text, source[next..])
    ensures turn.AtReference? ==> next < |source| && IsOpener(source[next]) && Reached(whole, segs, text, source[next..])
  {
    hide Reached, Removable, CommentLength, Find, IsOpener;
    turn, text, next := Treated, tempStr, p;
    ghost var t := source[p..];
    Front(source, p);
    if source[p] == SHIFT_OUT {
      var overrun, run;
      overrun, run, next := CopyRun(source, p);
      ReachedRun(whole, segs, tempStr, t, Find(t, SHIFT_IN, 0));
      turn := if overrun then Unclosed else Treated;
      assert !overrun ==> source[next..] == t[next - p..];
      text := tempStr + run;
      return;
    }
    ReachedComment(whole, segs, tempStr, t);
    if source[p] == '-' && p + 1 < |source| && source[p + 1] == '-' {
      next := SkipLineComment(source, p);
      assert source[next..] == t[next - p..];
      return;
    }
    var q := CollapseNewlines(source, p, whole, segs, tempStr);
    turn, text, next := TakeBehind(source, q, tempStr, whole, segs);
  }

  /** The turn behind the newlines: a block comment or a character. */
  method TakeBehind(source: string, p: nat, tempStr: string, ghost whole: Outcome, ghost segs: seq<Segment>)
    returns (turn: Turn, text: string, next: nat)
    requires p < |source| && Reached(whole, segs, tempStr, source[p..]) && source[p] != SHIFT_OUT
    requires !PairAt(source[p..], 0, '-', '-') && !PairAt(source[p..], 0, '\n', '\n')
    ensures p <= next <= |source| && !turn.Unclosed?
    ensures turn.Treated? ==> p < next && Reached(whole, segs, text, source[next..])
    ensures turn.AtReference? ==> next < |source| && IsOpener(source[next]) && Reached(whole, segs, text, source[next..])
  {
    hide Reached, Removable, CommentLength, Find, IsOpener;
    turn, text, next := Treated, tempStr, p;
    ghost var t := source[p..];
    Front(source, p);
    ReachedComment(whole, segs, tempStr, t);
    if source[p] == '/' && p + 1 < |source| && source[p + 1] == '*' {
      var copied;
      copied, next := TakeComment(source, p);
      assert source[next..] == t[next - p..];
      text := tempStr + copied;
    } else if !IsOpener(source[p]) {
      ReachedPlain(whole, segs, tempStr, t);
      text, next := tempStr + [source[p]], p + 1;
      assert source[next..] == t[1..];
    } else {
      turn := AtReference;
    }
  }

  lemma Front(source: string, p: nat)
    requires p < |source|
    ensures source[p..][0] == source[p] && (p + 1 < |source| ==> source[p..][1] == source[p + 1])
  {
  }

  /** The inner loop over doubled newlines: leaves the cursor on the last of them. */
  method CollapseNewlines(source: string, p: nat, ghost whole: Outcome, ghost segs: seq<Segment>, pending: string)
    returns (next: nat)
    requires p < |source| && source[p] != SHIFT_OUT && !PairAt(source[p..], 0, '-', '-')
    requires Reached(whole, segs, pending, source[p..])
    ensures p <= next < |source| && source[next] != SHIFT_OUT
    ensures !PairAt(source[next..], 0, '-', '-') && !PairAt(source[next..], 0, '\n', '\n')
    ensures Reached(whole, segs, pending, source[next..])
  {
    hide Reached;
    next := p;
    while source[next] == '\n' && next + 1 < |source| && source[next + 1] == '\n'
      invariant p <= next < |source| && source[next] != SHIFT_OUT
      invariant !PairAt(source[next..], 0, '-', '-')
      invariant Reached(whole, segs, pending, source[next..])
      decreases |source| - next
    {
      ghost var t := source[next..];
      assert t[0] == source[next] && t[1] == source[next + 1];
      ReachedComment(whole, segs, pending, t);
      assert t[1..] == source[next + 1..];
      next := next + 1;
    }
  }

  lemma EmitNothing(junk: string)
    ensures Emit([], junk) == Draft(junk, 0, [])
  {
  }
}
