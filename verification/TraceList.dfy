// CBRTrace (Runner/BRTrace.cpp): the linked list of pending traces, each of which fires once.
module TraceList {
  import opened Options
  import opened CText
  import opened Chains

  /** TYPE_VALUE: the value with its data type; Other stands for the types a trace is not compared with. */
  datatype TypeValue = LongValue(n: int) | StringValue(s: string) | DoubleValue(d: real) | BoolValue(b: int) | Other

  datatype TrcItem = TrcItem(itemCode: int, strVal: string)

  /** TRC_PGM: a trace to be made when the program runs with these item values. */
  class TrcPgm {
    const TraceId: string
    const PgmId: string
    const pItem: seq<TrcItem>
    var pNext: TrcPgm?

    constructor (traceId: string, pgmId: string, items: seq<TrcItem>)
      ensures TraceId == traceId && PgmId == pgmId && pItem == items && pNext == null
    {
      TraceId, PgmId, pItem, pNext := traceId, pgmId, items, null;
    }
  }

  /** A character buffer of the caller. */
  class Text {
    var chars: string

    constructor (s: string)
      ensures chars == s
    {
      chars := s;
    }
  }

  /** The part of CMRDataList used here: the item values by code, and the buffer of the trace id. */
  class MRDataList {
    const items: map<int, TypeValue>
    const m_TraceID: Text?

    constructor (values: map<int, TypeValue>, id: Text?)
      ensures items == values && m_TraceID == id
    {
      items, m_TraceID := values, id;
    }

    function GetItemValueByID(itemCode: int): Option<TypeValue> {
      if itemCode in items then Some(items[itemCode]) else None
    }
  }

  datatype Config = Config(usTrace: bool, usAllTracle: bool)

  /** One comparison of isTrace; atof stands for the conversion of the C library. */
  predicate ItemMatches(item: TrcItem, value: Option<TypeValue>, atof: string -> real)
  {
    match value
    case None => false
    case Some(LongValue(n)) => n == Atoi(item.strVal)
    case Some(StringValue(s)) => s == item.strVal
    case Some(DoubleValue(d)) => d == atof(item.strVal)
    case Some(BoolValue(b)) => b == Atoi(item.strVal)
    case Some(Other) => false
  }

  /** The program is the one of the node and every item of the node has the value written there. */
  predicate Fits(n: TrcPgm, pgmId: string, pData: MRDataList, atof: string -> real)
  {
    n.PgmId == pgmId && forall i :: 0 <= i < |n.pItem| ==>
      ItemMatches(n.pItem[i], pData.GetItemValueByID(n.pItem[i].itemCode), atof)
  }

  // Items as they are written for the values a program ran with.

  /** The text for a value that can be written without loss. */
  function TextFor(v: TypeValue): string
    requires v.LongValue? || v.StringValue? || v.BoolValue?
  {
    match v
    case LongValue(n) => DecInt(n)
    case StringValue(s) => s
    case BoolValue(b) => DecInt(b)
  }

  predicate SameKind(v: TypeValue, w: TypeValue)
  {
    (v.LongValue? && w.LongValue?) || (v.StringValue? && w.StringValue?) || (v.BoolValue? && w.BoolValue?)
  }

  /** An item written for a value matches that value and no other of its kind; a missing value matches nothing. */
  lemma WrittenItem(code: int, w: TypeValue, v: TypeValue, atof: string -> real)
    requires SameKind(v, w)
    ensures ItemMatches(TrcItem(code, TextFor(w)), Some(v), atof) <==> v == w
    ensures !ItemMatches(TrcItem(code, TextFor(w)), None, atof)
  {
    hide Atoi, DecInt;
    if w.LongValue? {
      AtoiDec(w.n, "");
      assert DecInt(w.n) + "" == DecInt(w.n);
    } else if w.BoolValue? {
      AtoiDec(w.b, "");
      assert DecInt(w.b) + "" == DecInt(w.b);
    }
  }

  /** A double matches exactly the text that converts to it; a value of another type matches no text. */
  lemma OtherItems(item: TrcItem, d: real, atof: string -> real)
    ensures ItemMatches(item, Some(DoubleValue(d)), atof) <==> atof(item.strVal) == d
    ensures !ItemMatches(item, Some(Other), atof)
  {
  }

  /** A trace written for some values fits a program run exactly when it is the same program and every value is the one
      written. */
  lemma WrittenFits(n: TrcPgm, pgmId: string, pData: MRDataList, values: seq<TypeValue>, atof: string -> real)
    requires |n.pItem| == |values| && forall i :: 0 <= i < |values| ==>
      && n.pItem[i].itemCode in pData.items && SameKind(pData.items[n.pItem[i].itemCode], values[i])
      && n.pItem[i].strVal == TextFor(values[i])
    ensures Fits(n, pgmId, pData, atof) <==>
      n.PgmId == pgmId && forall i :: 0 <= i < |values| ==> pData.items[n.pItem[i].itemCode] == values[i]
  {
    hide ItemMatches, TextFor, SameKind;
    forall i | 0 <= i < |values|
      ensures ItemMatches(n.pItem[i], pData.GetItemValueByID(n.pItem[i].itemCode), atof) <==>
        pData.items[n.pItem[i].itemCode] == values[i]
    {
      IsWritable(pData.items[n.pItem[i].itemCode], values[i]);
      WrittenItem(n.pItem[i].itemCode, values[i], pData.items[n.pItem[i].itemCode], atof);
    }
  }

  lemma IsWritable(v: TypeValue, w: TypeValue)
    requires SameKind(v, w)
    ensures w.LongValue? || w.StringValue? || w.BoolValue?
  {
  }

  ghost function After(nodes: seq<TrcPgm>, i: nat): TrcPgm? {
    if i + 1 < |nodes| then nodes[i + 1] else null
  }

  ghost predicate Linked(head: TrcPgm?, nodes: seq<TrcPgm>)
    reads nodes`pNext
  {
    && head == (if nodes == [] then null else nodes[0])
    && forall i :: 0 <= i < |nodes| ==> nodes[i].pNext == After(nodes, i)
  }

  /** The shorter list when the node before k points past it. */
  lemma LinkedCut(head: TrcPgm?, all: seq<TrcPgm>, k: nat)
    requires k < |all| && forall a :: 0 <= a < |all| && a != k - 1 ==> all[a].pNext == After(all, a)
    requires if k == 0 then head == After(all, 0) else head == all[0] && all[k - 1].pNext == After(all, k)
    ensures Linked(head, Cut(all, k))
  {
    hide Cut;
    var nodes := Cut(all, k);
    forall a | 0 <= a < |nodes|
      ensures nodes[a].pNext == After(nodes, a)
    {
      CutAt(all, k, a);
      if a + 1 < |nodes| {
        CutAt(all, k, a + 1);
      }
    }
    if nodes != [] {
      CutAt(all, k, 0);
    }
  }

  /** k is the place of the first node that Fits, or the length when there is none. */
  ghost predicate FirstFit(nodes: seq<TrcPgm>, k: nat, pgmId: string, pData: MRDataList, atof: string -> real) {
    && k <= |nodes| && (forall i :: 0 <= i < k ==> !Fits(nodes[i], pgmId, pData, atof))
    && (k < |nodes| ==> Fits(nodes[k], pgmId, pData, atof))
  }

  lemma SomeFit(nodes: seq<TrcPgm>, k: nat, pgmId: string, pData: MRDataList, atof: string -> real)
    requires FirstFit(nodes, k, pgmId, pData, atof)
    ensures k <= |nodes| && (k < |nodes| <==> exists i :: 0 <= i < |nodes| && Fits(nodes[i], pgmId, pData, atof))
  {
  }

  ghost predicate FirstWithId(nodes: seq<TrcPgm>, k: nat, id: string) {
    && k <= |nodes| && (forall i :: 0 <= i < k ==> nodes[i].TraceId != id)
    && (k < |nodes| ==> nodes[k].TraceId == id)
  }

  predicate NoData(pData: MRDataList?) { pData == null || pData.m_TraceID == null }

  /** The answer of isTrace, and the place k of the node that leaves the list; the length when none does. */
  ghost predicate Asked(nodes: seq<TrcPgm>, pgmId: string, pData: MRDataList?, cfg: Config, atof: string -> real,
      fired: bool, k: nat)
  {
    if NoData(pData) then !fired && k == |nodes|
    else if cfg.usTrace then fired && k == |nodes|
    else FirstFit(nodes, k, pgmId, pData, atof) && (fired <==> k < |nodes|)
  }

  class CBRTrace {
    var m_pTrcRoot: TrcPgm?
    ghost var nodes: seq<TrcPgm>

    ghost predicate Valid()
      reads this, nodes
    {
      Linked(m_pTrcRoot, nodes) && Distinct(nodes)
    }

    constructor ()
      ensures Valid() && nodes == []
    {
      m_pTrcRoot, nodes := null, [];
    }

    /** The node at k leaves the list; pPrev is the one before it. */
    method Unlink(pPrev: TrcPgm?, pNode: TrcPgm, ghost k: nat)
      requires Valid() && k < |nodes| && pNode == nodes[k] && pPrev == if k == 0 then null else nodes[k - 1]
      modifies this, nodes`pNext
      ensures Valid() && nodes == Cut(old(nodes), k)
    {
      if pPrev != null {
        pPrev.pNext := pNode.pNext;
      } else {
        m_pTrcRoot := pNode.pNext;
      }
      ghost var all := nodes;
      assert forall a :: 0 <= a < |all| && a != k - 1 ==> all[a].pNext == After(all, a);
      CutDistinct(all, k);
      LinkedCut(m_pTrcRoot, all, k);
      nodes := Cut(all, k);
    }

    /** The inner loop of isTrace: the items one after the other, up to the first that differs. */
    method SameItems(pNode: TrcPgm, pData: MRDataList, atof: string -> real) returns (bEqual: bool)
      ensures bEqual <==> forall i :: 0 <= i < |pNode.pItem| ==>
        ItemMatches(pNode.pItem[i], pData.GetItemValueByID(pNode.pItem[i].itemCode), atof)
    {
      bEqual := true;
      for i := 0 to |pNode.pItem|
        invariant bEqual
        invariant forall j :: 0 <= j < i ==>
          ItemMatches(pNode.pItem[j], pData.GetItemValueByID(pNode.pItem[j].itemCode), atof)
      {
        var item := pNode.pItem[i];
        var tVal := pData.GetItemValueByID(item.itemCode);
        bEqual := tVal.Some?;
        if !bEqual {
          break;
        }
        match tVal.value {
          case LongValue(n) => bEqual := n == Atoi(item.strVal);
          case StringValue(s) => bEqual := s == item.strVal;
          case DoubleValue(d) => bEqual := d == atof(item.strVal);
          case BoolValue(b) => bEqual := b == Atoi(item.strVal);
          case Other => bEqual := false;
        }
        if !bEqual {
          break;
        }
      }
    }

    /** The outer loop of isTrace, up to the first node that fits. */
    method FindFit(pgmId: string, pData: MRDataList, atof: string -> real)
      returns (pPrev: TrcPgm?, pNode: TrcPgm?, ghost k: nat)
      requires Valid()
      ensures FirstFit(nodes, k, pgmId, pData, atof) && pNode == (if k < |nodes| then nodes[k] else null)
      ensures pPrev == if k == 0 then null else nodes[k - 1]
      ensures pNode == null <==> forall i :: 0 <= i < |nodes| ==> !Fits(nodes[i], pgmId, pData, atof)
      ensures pNode != null ==> pNode in nodes && Fits(pNode, pgmId, pData, atof)
    {
      hide ItemMatches;
      pNode := m_pTrcRoot;
      pPrev := null;
      k := 0;
      while pNode != null
        invariant k <= |nodes| && pNode == (if k < |nodes| then nodes[k] else null)
        invariant pPrev == if k == 0 then null else nodes[k - 1]
        invariant forall i :: 0 <= i < k ==> !Fits(nodes[i], pgmId, pData, atof)
        decreases |nodes| - k
      {
        if pNode.PgmId == pgmId {
          var bEqual := SameItems(pNode, pData, atof);
          if bEqual {
            break;
          }
        }
        pPrev := pNode;
        pNode := pNode.pNext;
        k := k + 1;
      }
    }

    /** What isTrace writes into the two buffers while everything is traced. */
    method StampAll(pData: MRDataList, dt: Text)
      requires pData.m_TraceID != null
      modifies dt, pData.m_TraceID
      ensures dt == pData.m_TraceID ==> dt.chars == "00000000"
      ensures dt != pData.m_TraceID ==>
        pData.m_TraceID.chars == "00000000" && dt.chars == if |old(dt.chars)| > 8 then old(dt.chars)[..8] else old(dt.chars)
    {
      pData.m_TraceID.chars := "00000000";
      if |dt.chars| > 8 {
        dt.chars := dt.chars[..8];
      }
    }

    /** isTrace with the flags off fires the first node that fits, takes only that one out, and reports its id in dt.
        k is the place of the node that leaves, or the length. */
    method IsTrace(pgmId: string, pData: MRDataList?, dt: Text, cfg: Config, atof: string -> real)
      returns (fired: bool, ghost k: nat)
      requires Valid()
      modifies this, nodes`pNext, dt, if pData == null || pData.m_TraceID == null then {} else {pData.m_TraceID}
      ensures Valid() && Asked(old(nodes), pgmId, pData, cfg, atof, fired, k)
      ensures nodes == if k < |old(nodes)| then Cut(old(nodes), k) else old(nodes)
      ensures k < |old(nodes)| ==> dt.chars == old(nodes)[k].TraceId
      ensures k == |old(nodes)| && !(fired && cfg.usAllTracle) ==> dt.chars == old(dt.chars)
      ensures NoData(pData) ==> !fired
      ensures !NoData(pData) && cfg.usTrace && cfg.usAllTracle ==>
        && (dt == pData.m_TraceID ==> dt.chars == "00000000")
        && (dt != pData.m_TraceID ==>
              && pData.m_TraceID.chars == "00000000"
              && dt.chars == if |old(dt.chars)| > 8 then old(dt.chars)[..8] else old(dt.chars))
      ensures !NoData(pData) && !cfg.usTrace ==>
        (fired <==> exists i :: 0 <= i < |old(nodes)| && Fits(old(nodes)[i], pgmId, pData, atof))
    {
      hide Fits, FirstFit, Distinct, Linked, Cut;
      k := |nodes|;
      if pData == null || pData.m_TraceID == null {
        return false, k;
      }
      if cfg.usTrace {
        if cfg.usAllTracle {
          StampAll(pData, dt);
        }
        return true, k;
      }
      var pPrev, pNode;
      pPrev, pNode, k := FindFit(pgmId, pData, atof);
      SomeFit(nodes, k, pgmId, pData, atof);
      if pNode == null {
        return false, k;
      }
      dt.chars := pNode.TraceId;
      Unlink(pPrev, pNode, k);
      fired := true;
    }

    /** DelTraceInfo takes out the first node with the id made of the program and the date, and no other. */
    method DelTraceInfo(dt: string, pgmId: string) returns (ghost k: nat)
      requires Valid()
      modifies this, nodes`pNext
      ensures Valid() && FirstWithId(old(nodes), k, pgmId + "_" + dt)
      ensures nodes == if k < |old(nodes)| then Cut(old(nodes), k) else old(nodes)
    {
      var id := pgmId + "_" + dt;
      var pNode := m_pTrcRoot;
      var pPrev: TrcPgm? := null;
      k := 0;
      while pNode != null
        invariant k <= |nodes| && pNode == (if k < |nodes| then nodes[k] else null)
        invariant pPrev == if k == 0 then null else nodes[k - 1]
        invariant forall i :: 0 <= i < k ==> nodes[i].TraceId != id
        decreases |nodes| - k
      {
        if pNode.TraceId == id {
          break;
        }
        pPrev := pNode;
        pNode := pNode.pNext;
        k := k + 1;
      }
      if pNode == null {
        return;
      }
      Unlink(pPrev, pNode, k);
    }
  }

  /** One call on the list. */
  datatype Call = Ask(pgmId: string, pData: MRDataList?, cfg: Config) | Delete(dt: string, pgmId: string)

  /** A call answers for the list it finds, and only the node at k leaves. */
  ghost predicate Step(before: seq<TrcPgm>, call: Call, fired: bool, k: nat, after: seq<TrcPgm>, atof: string -> real)
  {
    && k <= |before| && after == (if k < |before| then Cut(before, k) else before)
    && match call
       case Ask(pgmId, pData, cfg) => Asked(before, pgmId, pData, cfg, atof, fired, k)
       case Delete(dt, pgmId) => FirstWithId(before, k, pgmId + "_" + dt) && !fired
  }

  /** hist is the list in front of each call and behind the last one, at the places of the nodes that leave. */
  ghost predicate IsRun(hist: seq<seq<TrcPgm>>, calls: seq<Call>, fired: seq<bool>, at: seq<nat>, atof: string -> real)
  {
    && |hist| == |calls| + 1 && |fired| == |at| == |calls|
    && forall i :: 0 <= i < |calls| ==> Step(hist[i], calls[i], fired[i], at[i], hist[i + 1], atof)
  }

  method OneCall(t: CBRTrace, call: Call, dt: Text, atof: string -> real) returns (fired: bool, ghost k: nat)
    requires t.Valid()
    modifies t, t.nodes`pNext, dt, if call.Ask? && !NoData(call.pData) then {call.pData.m_TraceID} else {}
    ensures t.Valid() && Step(old(t.nodes), call, fired, k, t.nodes, atof)
    ensures forall i :: 0 <= i < |t.nodes| ==> t.nodes[i] in old(t.nodes)
    ensures call.Ask? && k < |old(t.nodes)| ==> dt.chars == old(t.nodes)[k].TraceId
  {
    hide Asked, FirstWithId, Cut, Linked;
    ghost var before := t.nodes;
    match call {
      case Ask(pgmId, pData, cfg) =>
        fired, k := t.IsTrace(pgmId, pData, dt, cfg, atof);
        PlaceAsked(before, pgmId, pData, cfg, atof, fired, k);
      case Delete(d, pgmId) =>
        fired := false;
        k := t.DelTraceInfo(d, pgmId);
        PlaceOfId(before, k, pgmId + "_" + d);
    }
    if k < |before| {
      CutDistinct(before, k);
    }
    forall i | 0 <= i < |t.nodes|
      ensures t.nodes[i] in before
    {
      assert t.nodes[i] in t.nodes;
    }
  }

  lemma PlaceAsked(nodes: seq<TrcPgm>, pgmId: string, pData: MRDataList?, cfg: Config, atof: string -> real, fired: bool, k: nat)
    requires Asked(nodes, pgmId, pData, cfg, atof, fired, k)
    ensures k <= |nodes|
  {
  }

  lemma PlaceOfId(nodes: seq<TrcPgm>, k: nat, id: string)
    requires FirstWithId(nodes, k, id)
    ensures k <= |nodes|
  {
  }

  /** Any run of calls, with what each one finds, answers and takes out. */
  method Run(t: CBRTrace, calls: seq<Call>, dt: Text, atof: string -> real)
    returns (fired: seq<bool>, told: seq<string>, ghost hist: seq<seq<TrcPgm>>, ghost at: seq<nat>)
    requires t.Valid()
    modifies t, t.nodes`pNext, dt
    modifies set i | 0 <= i < |calls| && calls[i].Ask? && !NoData(calls[i].pData) :: calls[i].pData.m_TraceID
    ensures t.Valid() && IsRun(hist, calls, fired, at, atof) && hist[0] == old(t.nodes) && hist[|calls|] == t.nodes
    ensures Distinct(hist[0]) && |told| == |calls|
    ensures forall i :: 0 <= i < |calls| && calls[i].Ask? && at[i] < |hist[i]| ==> told[i] == hist[i][at[i]].TraceId
  {
    hide Step, Cut, Linked;
    fired, told, hist, at := [], [], [t.nodes], [];
    for i := 0 to |calls|
      invariant t.Valid() && |fired| == |told| == |at| == i && |hist| == i + 1
      invariant hist[0] == old(t.nodes) && hist[i] == t.nodes
      invariant forall j :: 0 <= j < i ==> Step(hist[j], calls[j], fired[j], at[j], hist[j + 1], atof)
      invariant forall j :: 0 <= j < i && calls[j].Ask? && at[j] < |hist[j]| ==> told[j] == hist[j][at[j]].TraceId
      invariant forall j :: 0 <= j < |t.nodes| ==> t.nodes[j] in old(t.nodes)
    {
      ghost var k;
      var yes;
      yes, k := OneCall(t, calls[i], dt, atof);
      fired, told, hist, at := fired + [yes], told + [dt.chars], hist + [t.nodes], at + [k];
    }
  }

  /** A node that leaves at call i is not there at any later time. */
  lemma {:induction false} NeverBack(hist: seq<seq<TrcPgm>>, calls: seq<Call>, fired: seq<bool>, at: seq<nat>, atof: string -> real,
      i: nat, j: nat)
    requires IsRun(hist, calls, fired, at, atof) && Distinct(hist[0]) && i < j <= |calls|
    ensures at[i] < |hist[i]| ==> hist[i][at[i]] !in hist[j]
    decreases j
  {
    hide Cut, Distinct;
    assert Step(hist[j - 1], calls[j - 1], fired[j - 1], at[j - 1], hist[j], atof);
    StaysDistinct(hist, calls, fired, at, atof, j - 1);
    if at[j - 1] < |hist[j - 1]| {
      CutDistinct(hist[j - 1], at[j - 1]);
    }
    if i < j - 1 {
      NeverBack(hist, calls, fired, at, atof, i, j - 1);
    }
  }

  lemma {:induction false} StaysDistinct(hist: seq<seq<TrcPgm>>, calls: seq<Call>, fired: seq<bool>, at: seq<nat>,
      atof: string -> real, i: nat)
    requires IsRun(hist, calls, fired, at, atof) && Distinct(hist[0]) && i <= |calls|
    ensures Distinct(hist[i])
  {
    hide Cut, Distinct;
    if i > 0 {
      assert Step(hist[i - 1], calls[i - 1], fired[i - 1], at[i - 1], hist[i], atof);
      StaysDistinct(hist, calls, fired, at, atof, i - 1);
      if at[i - 1] < |hist[i - 1]| {
        CutDistinct(hist[i - 1], at[i - 1]);
      }
    }
  }

  /** Over any run no node fires twice, and none fires that was deleted before: the nodes that leave are pairwise distinct. */
  lemma FiresOnce(hist: seq<seq<TrcPgm>>, calls: seq<Call>, fired: seq<bool>, at: seq<nat>, atof: string -> real, i: nat, j: nat)
    requires IsRun(hist, calls, fired, at, atof) && Distinct(hist[0]) && i < j < |calls|
    requires at[i] < |hist[i]| && at[j] < |hist[j]|
    ensures hist[i][at[i]] != hist[j][at[j]]
  {
    NeverBack(hist, calls, fired, at, atof, i, j);
    assert hist[j][at[j]] in hist[j];
  }

  /** The nodes that leave in the calls before i. */
  ghost function Gone(hist: seq<seq<TrcPgm>>, at: seq<nat>, i: nat): seq<TrcPgm>
    requires i <= |at| <= |hist|
  {
    if i == 0 then [] else
      Gone(hist, at, i - 1) + if at[i - 1] < |hist[i - 1]| then [hist[i - 1][at[i - 1]]] else []
  }

  /** What is left are the other nodes, in the order they had; each node is left or has gone, once. */
  lemma {:induction false} OthersStay(hist: seq<seq<TrcPgm>>, calls: seq<Call>, fired: seq<bool>, at: seq<nat>,
      atof: string -> real, i: nat)
    requires IsRun(hist, calls, fired, at, atof) && Distinct(hist[0]) && i <= |calls|
    ensures Parted(hist[0], hist[i], Gone(hist, at, i))
  {
    hide Cut, Parted, Distinct;
    if i == 0 {
      PartedStart(hist[0]);
    } else {
      assert Step(hist[i - 1], calls[i - 1], fired[i - 1], at[i - 1], hist[i], atof);
      OthersStay(hist, calls, fired, at, atof, i - 1);
      if at[i - 1] < |hist[i - 1]| {
        PartedNext(hist[0], hist[i - 1], Gone(hist, at, i - 1), at[i - 1]);
      } else {
        assert Gone(hist, at, i - 1) + [] == Gone(hist, at, i - 1);
      }
    }
  }
}
