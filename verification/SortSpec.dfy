// CMRLoadData::LoadRuleAggr (Runner/MRLODRUL.cpp): the list of sort columns of an aggregate rule.
module SortSpec {
  import opened Options
  import opened CText

  /** One sort column and its direction. */
  datatype Column = Column(idx: int, order: char)

  /** A value stored into a short. */
  function AsShort(n: int): (r: int)
    ensures -32768 <= r < 32768 && (n - r) % 65536 == 0
  {
    (n + 32768) % 65536 - 32768
  }

  function SkipBlank(s: string): (r: string)
    ensures |r| <= |s| && (r != "" ==> IsGraph(r[0]))
  {
    if s != "" && !IsGraph(s[0]) then SkipBlank(s[1..]) else s
  }

  function SkipComma(s: string): string { if StartsWith(s, ',') then s[1..] else s }

  lemma {:induction false} DigitRunPrefix(s: string)
    ensures DigitRun(s) <= s && (|DigitRun(s)| < |s| ==> !IsDigit(s[|DigitRun(s)|]))
  {
    if StartsWithDigit(s) {
      DigitRunPrefix(s[1..]);
    }
  }

  function AfterDigits(s: string): string
  {
    DigitRunPrefix(s);
    s[|DigitRun(s)|..]
  }

  /** One turn of the loop: the column read and what is left of the text. */
  function Turn(s: string): (Column, string)
  {
    var t := SkipBlank(s);
    var u := AfterDigits(t);
    var letter := u != "" && (u[0] == 'D' || u[0] == 'A');
    (Column(AsShort(DigitsValue(DigitRun(t))), if letter then u[0] else 'A'),
     SkipComma(SkipBlank(if letter then u[1..] else u)))
  }

  /** The columns read in at most room turns; None when that does not reach the end. */
  function Columns(s: string, room: nat): Option<seq<Column>>
    decreases room
  {
    if s == "" then Some([])
    else if room == 0 then None
    else
      match Columns(Turn(s).1, room - 1)
      case None => None
      case Some(rest) => Some([Turn(s).0] + rest)
  }

  /** RULE_AGGR: ten places, the last column followed by a 0. */
  class RuleAggr {
    var Option: int
    var group: string
    const nSort: array<int>
    const cOrder: array<char>

    constructor (option: int, name: string)
      ensures Option == option && group == name && fresh(nSort) && fresh(cOrder)
      ensures nSort.Length == 10 && cOrder.Length == 10
    {
      Option, group, nSort, cOrder := option, name, new int[10], new char[10];
    }

    /** The columns stored, and the 0 behind them. */
    ghost predicate Holds(cs: seq<Column>)
      reads this, nSort, cOrder
    {
      && nSort.Length == 10 && cOrder.Length == 10 && |cs| < 10 && nSort[|cs|] == 0
      && forall i :: 0 <= i < |cs| ==> nSort[i] == cs[i].idx && cOrder[i] == cs[i].order
    }
  }

  datatype Outcome =
    | Nothing                   // no aggregate
    | Loaded(aggr: RuleAggr)
    | Overrun                   // a store behind the ten places

  method SkipBlanks(s: string, p: nat) returns (q: nat)
    requires p <= |s|
    ensures p <= q <= |s| && s[q..] == SkipBlank(s[p..])
  {
    q := p;
    while q < |s| && !IsGraph(s[q])
      invariant p <= q <= |s| && SkipBlank(s[p..]) == SkipBlank(s[q..])
    {
      assert s[q..][1..] == s[q + 1..];
      q := q + 1;
    }
  }

  method ReadDigits(s: string, p: nat) returns (idx: nat, q: nat)
    requires p <= |s|
    ensures p <= q <= |s| && s[p..q] == DigitRun(s[p..]) && s[q..] == AfterDigits(s[p..]) && idx == DigitsValue(DigitRun(s[p..]))
  {
    hide DigitRun, DigitsValue, AllDigits;
    idx, q := 0, p;
    DigitStart(s, p);
    while q < |s| && IsDigit(s[q])
      invariant p <= q <= |s| && AllDigits(s[p..q]) && idx == DigitsValue(s[p..q])
      invariant DigitRun(s[p..]) == s[p..q] + DigitRun(s[q..])
    {
      DigitStep(s, p, q);
      assert (s[p..q] + [s[q]]) + DigitRun(s[q + 1..]) == s[p..q] + ([s[q]] + DigitRun(s[q + 1..]));
      idx := idx * 10 + DigitValue(s[q]);
      q := q + 1;
    }
    DigitEnd(s, q);
    assert s[p..][q - p..] == s[q..];
  }

  lemma DigitStart(s: string, p: nat)
    requires p <= |s|
    ensures s[p..p] == "" && AllDigits(s[p..p]) && DigitsValue(s[p..p]) == 0
  {
  }

  lemma DigitStep(s: string, p: nat, q: nat)
    requires p <= q < |s| && AllDigits(s[p..q]) && IsDigit(s[q])
    ensures s[p..q + 1] == s[p..q] + [s[q]] && AllDigits(s[p..q + 1])
    ensures DigitsValue(s[p..q + 1]) == 10 * DigitsValue(s[p..q]) + DigitValue(s[q])
    ensures DigitRun(s[q..]) == [s[q]] + DigitRun(s[q + 1..])
  {
    assert s[p..q + 1][..q - p] == s[p..q];
    assert s[q..][1..] == s[q + 1..];
  }

  lemma DigitEnd(s: string, q: nat)
    requires q <= |s| && (q < |s| ==> !IsDigit(s[q]))
    ensures DigitRun(s[q..]) == ""
  {
  }

  /** One turn of the loop, storing at n. */
  method OneTurn(a: RuleAggr, s: string, p: nat, n: nat) returns (q: nat)
    requires p <= |s| && n < 10 && a.nSort.Length == 10 && a.cOrder.Length == 10
    modifies a.nSort, a.cOrder
    ensures p <= q <= |s| && s[q..] == Turn(s[p..]).1
    ensures a.nSort[n] == Turn(s[p..]).0.idx && a.cOrder[n] == Turn(s[p..]).0.order
    ensures forall i :: 0 <= i < 10 && i != n ==> a.nSort[i] == old(a.nSort[i]) && a.cOrder[i] == old(a.cOrder[i])
  {
    hide SkipBlank, AfterDigits, DigitRun, DigitsValue, AsShort;
    var p1 := SkipBlanks(s, p);
    var idx, p2 := ReadDigits(s, p1);
    a.nSort[n] := AsShort(idx);
    a.cOrder[n] := 'A';
    var p3 := p2;
    if p2 < |s| && (s[p2] == 'D' || s[p2] == 'A') {
      a.cOrder[n] := s[p2];
      p3 := p2 + 1;
      assert s[p2..][1..] == s[p3..];
    }
    q := SkipBlanks(s, p3);
    if q < |s| && s[q] == ',' {
      assert s[q..][1..] == s[q + 1..];
      q := q + 1;
    }
  }

  method LoadRuleAggr(option: int, group: string, sort: string) returns (r: Outcome)
    ensures r.Nothing? <==> option == 0 && RTrim(sort) == ""
    ensures !r.Nothing? ==> (r.Loaded? <==> Columns(RTrim(sort), 9).Some?)
    ensures r.Loaded? ==> fresh(r.aggr) && r.aggr.Option == option && r.aggr.group == RTrim(group)
    ensures r.Loaded? ==> r.aggr.Holds(Columns(RTrim(sort), 9).value)
  {
    hide Turn;
    var s := RTrim(sort);
    if option == 0 && s == "" {
      return Nothing;
    }
    var pAggr := new RuleAggr(option, RTrim(group));
    var n, p := 0, 0;
    ghost var got: seq<Column> := [];
    assert s[0..] == s && forall rest: seq<Column> :: [] + rest == rest;
    while p < |s|
      invariant p <= |s| && 0 <= n == |got| <= 9
      invariant fresh(pAggr) && fresh(pAggr.nSort) && fresh(pAggr.cOrder)
      invariant pAggr.nSort.Length == 10 && pAggr.cOrder.Length == 10
      invariant pAggr.Option == option && pAggr.group == RTrim(group)
      invariant forall i :: 0 <= i < n ==> pAggr.nSort[i] == got[i].idx && pAggr.cOrder[i] == got[i].order
      invariant Columns(s, 9) == match Columns(s[p..], 9 - n) case None => None case Some(rest) => Some(got + rest)
      decreases 10 - n
    {
      if n == 9 {
        return Overrun;
      }
      ghost var t := s[p..];
      p := OneTurn(pAggr, s, p, n);
      got := got + [Turn(t).0];
      assert forall rest :: (got[..n] + [Turn(t).0]) + rest == got[..n] + ([Turn(t).0] + rest);
      n := n + 1;
    }
    pAggr.nSort[n] := 0;
    r := Loaded(pAggr);
  }
}
