// The three reference readers as they advance the source cursor (getItemCd, getParmCd, getRuleCd).
module Reader {
  import opened CText
  import opened Template

  /** `**pS == 0`: the cursor stands on the terminator. */
  predicate AtEnd(source: string, p: nat) { p >= |source| }

  /** Copy characters up to `stop` or the terminator. */
  method CopyUntil(source: string, p: nat, stop: char, ghost base: nat) returns (temp: string, next: nat)
    requires base <= p <= |source|
    ensures p <= next <= |source|
    ensures next - base == Find(source[base..], stop, p - base)
    ensures temp == source[base..][p - base..next - base]
  {
    ghost var t := source[base..];
    temp, next := "", p;
    while !AtEnd(source, next) && source[next] != stop
      invariant p <= next <= |source|
      invariant temp == t[p - base..next - base]
      invariant forall k :: p - base <= k < next - base ==> t[k] != stop
      decreases |source| - next
    {
      assert t[next - base] == source[next];
      temp := temp + [source[next]];
      next := next + 1;
    }
    assert next < |source| ==> t[next - base] == source[next];
  }

  /** The loop over a shift-out run; without a shift-in it runs past the terminator. */
  method CopyRun(source: string, p: nat) returns (overrun: bool, run: string, next: nat)
    requires p < |source| && source[p] == SHIFT_OUT
    ensures p < next <= |source|
    ensures overrun <==> Find(source[p..], SHIFT_IN, 0) == |source[p..]|
    ensures !overrun ==> next - p == Find(source[p..], SHIFT_IN, 0) + 1 && run == source[p..][..next - p]
  {
    run, next := CopyUntil(source, p, SHIFT_IN, p);
    overrun := AtEnd(source, next);
    if !overrun {
      assert run + [source[next]] == source[p..][..next + 1 - p];
      run, next := run + [source[next]], next + 1;
    } else {
      assert source[p..][0] == source[p];
    }
  }

  method SkipBlanks(source: string, p: nat, ghost base: nat) returns (next: nat)
    requires base <= p <= |source|
    ensures p <= next <= |source|
    ensures next - base == SkipOver(source[base..], ' ', p - base)
  {
    ghost var t := source[base..];
    next := p;
    while !AtEnd(source, next) && source[next] == ' '
      invariant p <= next <= |source|
      invariant forall k :: p - base <= k < next - base ==> t[k] == ' '
      decreases |source| - next
    {
      assert t[next - base] == source[next];
      next := next + 1;
    }
    assert next < |source| ==> t[next - base] == source[next];
    assert IsSkip(t, ' ', p - base, next - base);
  }

  /** getItemCd: *pS stands on '[' and is moved behind the reference. */
  method GetItemCd(source: string, pS: nat) returns (code: int, subStr: string, next: nat)
    requires pS < |source| && source[pS] == '['
    ensures pS < next <= |source|
    ensures ReadItem(source[pS..]) == Found(code, subStr, next - pS)
  {
    var temp;
    temp, next := CopyUntil(source, pS + 1, ']', pS);
    if AtEnd(source, next) {
      return 0, "", next;
    }
    code, subStr, next := GetItemSub(source, pS, next, Atoi(temp));
  }

  /** The end of getItemCd: the subscript behind the ']' at `close`. */
  method GetItemSub(source: string, pS: nat, close: nat, itemCd: int)
    returns (code: int, subStr: string, next: nat)
    requires pS < close < |source|
    ensures close < next <= |source|
    ensures ReadItemSub(source[pS..], itemCd, close - pS) == Found(code, subStr, next - pS)
  {
    hide Atoi, ItemSub;
    ghost var t := source[pS..];
    code, subStr, next := itemCd, "", close + 1;
    if AtEnd(source, next) || source[next] != '(' {
      assert next < |source| ==> t[next - pS] == source[next];
      return;
    }
    assert t[next - pS] == source[next];
    next := next + 1;
    ghost var open := next - pS;
    next := SkipBlanks(source, next, pS);
    ghost var b := next - pS;
    var temp;
    temp, next := CopyUntil(source, next, ')', pS);
    ghost var e := next - pS;
    assert e == Find(t, ')', b) && temp == t[b..e];
    if AtEnd(source, next) {
      assert ReadItemSub(t, itemCd, close - pS) == Found(0, "", |t|);
      return 0, "", next;
    }
    assert ReadItemSub(t, itemCd, close - pS) == Found(itemCd, ItemSub(t[b..e]), e + 1);
    subStr, next := ItemSub(temp), next + 1;
  }

  /** getParmCd: *pS stands on '$'.  Without a closing '$' the loop of the source runs past the
      terminator, which is the outcome `overrun`. */
  method GetParmCd(source: string, pS: nat) returns (overrun: bool, code: int, next: nat)
    requires pS < |source| && source[pS] == '$'
    ensures pS < next <= |source|
    ensures ReadParm(source[pS..]) == if overrun then Overruns else Found(code, "", next - pS)
  {
    var temp;
    temp, next := CopyUntil(source, pS + 1, '$', pS);
    if AtEnd(source, next) {
      return true, 0, next;
    }
    overrun, code, next := false, Atoi(temp), next + 1;
  }

  /** getRuleCd: *pS stands on '{'. */
  method GetRuleCd(source: string, pS: nat) returns (r: Read, next: nat)
    requires pS < |source| && source[pS] == '{'
    ensures pS < next <= |source|
    ensures r == ReadRule(source[pS..])
    ensures r.Found? ==> r.used == next - pS
  {
    hide Atoi, ReadRuleCol;
    ghost var t := source[pS..];
    var temp;
    temp, next := CopyUntil(source, pS + 1, ':', pS);
    ghost var c1 := next - pS;
    if AtEnd(source, next) {
      assert ReadRule(t) == Throws(Parse05);
      return Throws(Parse05), next;
    }
    assert temp == t[1..c1];
    var ruleId := Atoi(temp);
    var skipped;
    skipped, next := CopyUntil(source, next + 1, ':', pS);
    ghost var c2 := next - pS;
    assert c2 == Find(t, ':', c1 + 1);
    if AtEnd(source, next) {
      assert ReadRule(t) == Overruns;
      return Overruns, next;
    }
    assert ReadRule(t) == ReadRuleCol(t, ruleId, c2);
    r, next := GetRuleCol(source, pS, next, ruleId);
  }

  /** The middle of getRuleCd: the column text behind the second ':' at `colon`. */
  method GetRuleCol(source: string, pS: nat, colon: nat, ruleId: int) returns (r: Read, next: nat)
    requires pS < colon < |source|
    ensures colon < next <= |source|
    ensures r == ReadRuleCol(source[pS..], ruleId, colon - pS)
    ensures r.Found? ==> r.used == next - pS
  {
    var temp;
    temp, next := CopyUntil(source, colon + 1, '}', pS);
    assert temp == source[pS..][colon - pS + 1..next - pS];
    if AtEnd(source, next) {
      return Throws(Parse06), next;
    }
    r, next := GetRuleSub(source, pS, next, ruleId, temp);
  }

  /** The end of getRuleCd: the subscript behind the '}' at `close`. */
  method GetRuleSub(source: string, pS: nat, close: nat, ruleId: int, temp: string) returns (r: Read, next: nat)
    requires pS < close < |source|
    ensures close < next <= |source|
    ensures r == ReadRuleSub(source[pS..], ruleId, temp, close - pS)
    ensures r.Found? ==> r.used == next - pS
  {
    hide Atoi, Pad2, RuleSub;
    ghost var t := source[pS..];
    next := close + 1;
    if AtEnd(source, next) || source[next] != '(' {
      assert next < |source| ==> t[next - pS] == source[next];
      return Found(ruleId, if temp == "" then "" else Pad2(Atoi(temp)), next - pS), next;
    }
    assert t[next - pS] == source[next];
    next := next + 1;
    assert t[next - pS..] == source[next..];
    var subStr := RuleSub(temp, source[next..]);
    var skipped;
    skipped, next := CopyUntil(source, next, ')', pS);
    if AtEnd(source, next) {
      return Throws(Parse07), next;
    }
    next := next + 1;
    return Found(ruleId, subStr, next - pS), next;
  }

  /** The reference at *pS, by its opening character. */
  method GetRef(source: string, pS: nat) returns (r: Read, next: nat)
    requires pS < |source| && IsOpener(source[pS])
    ensures pS < next <= |source|
    ensures r == ReadRef(source[pS..])
    ensures r.Found? ==> r.used == next - pS
  {
    if source[pS] == '[' {
      var code, subStr;
      code, subStr, next := GetItemCd(source, pS);
      r := Found(code, subStr, next - pS);
    } else if source[pS] == '{' {
      r, next := GetRuleCd(source, pS);
    } else {
      var overrun, code;
      overrun, code, next := GetParmCd(source, pS);
      r := if overrun then Overruns else Found(code, "", next - pS);
    }
  }
}
