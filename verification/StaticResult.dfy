// CMRStaticResult: the cache of rule results, a linked list of deep copies, and the account of what it allocated.
module StaticResult {
  import opened Chains

  datatype Value = Value(number: int, text: string)

  /** The part of RULE_LIST used here: the column count of the rule. */
  class RuleNode {
    const retCnt: nat

    constructor (n: nat)
      ensures retCnt == n
    {
      retCnt := n;
    }
  }

  /** RESULT_REC, one row.  owner and at are the node it belongs to and its place there. */
  class ResultRec {
    var value: array?<Value>
    var pNext: ResultRec?
    ghost var owner: RuleResult?
    ghost var at: nat

    constructor (block: array?<Value>, ghost node: RuleResult, ghost place: nat)
      ensures value == block && pNext == null && owner == node && at == place
    {
      value, pNext, owner, at := block, null, node, place;
    }
  }

  /** RULE_RESULT; recs is the list behind resRecord. */
  class RuleResult {
    var ruleId: int
    var parmInfo: string
    var pRuleNode: RuleNode
    var resRecord: ResultRec?
    var pNext: RuleResult?
    ghost var recs: seq<ResultRec>

    constructor Copy(src: RuleResult)
      ensures ruleId == src.ruleId && parmInfo == src.parmInfo && pRuleNode == src.pRuleNode
      ensures resRecord == null && pNext == null && recs == []
    {
      ruleId, parmInfo, pRuleNode, resRecord, pNext := src.ruleId, src.parmInfo, src.pRuleNode, null, null;
      recs := [];
    }
  }

  /** sizeof of a struct. */
  type Size = x: nat | x > 0 witness 1

  /** What a node stands for. */
  datatype Entry = Entry(ruleId: int, parmInfo: string, retCnt: nat, rows: seq<seq<Value>>)

  ghost function RecAfter(recs: seq<ResultRec>, a: nat): ResultRec? {
    if a + 1 < |recs| then recs[a + 1] else null
  }

  ghost function NodeAfter(nodes: seq<RuleResult>, i: nat): RuleResult? {
    if i + 1 < |nodes| then nodes[i + 1] else null
  }

  ghost predicate RecsLinked(head: ResultRec?, recs: seq<ResultRec>)
    reads recs`pNext
  {
    && head == (if recs == [] then null else recs[0])
    && forall a :: 0 <= a < |recs| ==> recs[a].pNext == RecAfter(recs, a)
  }

  ghost function Blocks(recs: seq<ResultRec>): set<array<Value>>
    reads recs`value
  {
    set r | r in recs && r.value != null :: r.value as array<Value>
  }

  /** The row of a record: the cols values of its block. */
  ghost predicate RowIs(r: ResultRec, cols: nat, row: seq<Value>)
    reads r`value, r.value
  {
    if cols == 0 then row == []
    else r.value != null && r.value.Length == cols && r.value[..] == row
  }

  ghost predicate RowsAre(recs: seq<ResultRec>, cols: nat, rows: seq<seq<Value>>)
    reads recs`value, Blocks(recs)
  {
    |recs| == |rows| && forall a :: 0 <= a < |recs| ==> RowIs(recs[a], cols, rows[a])
  }

  /** The node stands for the entry: its own fields and its list of rows. */
  ghost predicate Denotes(n: RuleResult, e: Entry)
    reads n`ruleId, n`parmInfo, n`pRuleNode, n`resRecord, n`recs, n.recs`value, n.recs`pNext, Blocks(n.recs)
  {
    && n.ruleId == e.ruleId && n.parmInfo == e.parmInfo && n.pRuleNode.retCnt == e.retCnt
    && RecsLinked(n.resRecord, n.recs)
    && RowsAre(n.recs, e.retCnt, e.rows)
  }

  ghost predicate Linked(head: RuleResult?, nodes: seq<RuleResult>)
    reads nodes`pNext
  {
    && head == (if nodes == [] then null else nodes[0])
    && forall i :: 0 <= i < |nodes| ==> nodes[i].pNext == NodeAfter(nodes, i)
  }

  /** The shorter list when the node before k points past it. */
  lemma LinkedCut(head: RuleResult?, all: seq<RuleResult>, k: nat)
    requires k < |all| && forall a :: 0 <= a < |all| && a != k - 1 ==> all[a].pNext == NodeAfter(all, a)
    requires if k == 0 then head == NodeAfter(all, 0) else head == all[0] && all[k - 1].pNext == NodeAfter(all, k)
    ensures Linked(head, Cut(all, k))
  {
    hide Cut;
    var nodes := Cut(all, k);
    forall a | 0 <= a < |nodes|
      ensures nodes[a].pNext == NodeAfter(nodes, a)
    {
      CutAt(all, k, a);
      if a + 1 < |nodes| {
        CutAt(all, k, a + 1);
      }
    }
    if nodes != [] {
      CutAt(all, k, 0);
    }
  }

  /** The records belong to n, each with its place, each with a block no other record has, of one value for each
      column; all are allocated. */
  ghost predicate Owned(recs: seq<ResultRec>, n: RuleResult, live: set<object>, owners: map<object, ResultRec>)
    reads recs`owner, recs`at, recs`value, n`pRuleNode
  {
    forall a :: 0 <= a < |recs| ==>
      && recs[a] in live && recs[a].owner == n && recs[a].at == a
      && (recs[a].value != null ==>
        && recs[a].value in live && recs[a].value in owners && owners[recs[a].value] == recs[a]
        && recs[a].value.Length == n.pRuleNode.retCnt)
  }

  /** All the memory of the records recs[k..]. */
  ghost function Things(recs: seq<ResultRec>): set<object>
    reads recs`value
  {
    (set o: object | o in recs) + Blocks(recs)
  }

  lemma LinkAt(head: ResultRec?, recs: seq<ResultRec>, i: nat)
    requires RecsLinked(head, recs) && i < |recs|
    ensures recs[i].pNext == if i + 1 < |recs| then recs[i + 1] else null
  {
  }

  lemma RowAt(recs: seq<ResultRec>, cols: nat, rows: seq<seq<Value>>, i: nat)
    requires RowsAre(recs, cols, rows) && i < |recs|
    ensures |rows| == |recs| && RowIs(recs[i], cols, rows[i])
  {
  }

  lemma RowsAppend(recs: seq<ResultRec>, r: ResultRec, cols: nat, rows: seq<seq<Value>>, i: nat)
    requires i < |rows| && RowsAre(recs, cols, rows[..i]) && RowIs(r, cols, rows[i])
    ensures RowsAre(recs + [r], cols, rows[..i + 1])
  {
    hide RowIs;
  }

  lemma OwnedDistinct(recs: seq<ResultRec>, n: RuleResult, live: set<object>, owners: map<object, ResultRec>)
    requires Owned(recs, n, live, owners)
    ensures forall a, b :: 0 <= a < b < |recs| ==> recs[a] != recs[b]
  {
    assert forall a :: 0 <= a < |recs| ==> recs[a].at == a;
  }

  /** What one record adds to the memory in use, and to the blocks with an owner. */
  ghost function Of(r: ResultRec): set<object>
    reads r`value
  {
    if r.value == null then {r} else {r, r.value}
  }

  ghost function OwnersWith(owners: map<object, ResultRec>, r: ResultRec): map<object, ResultRec>
    reads r`value
  {
    if r.value == null then owners else owners[r.value := r]
  }

  lemma OwnedAppend(recs: seq<ResultRec>, r: ResultRec, n: RuleResult, live: set<object>, owners: map<object, ResultRec>)
    requires Owned(recs, n, live, owners) && r.owner == n && r.at == |recs|
    requires r.value != null ==> r.value !in owners && r.value.Length == n.pRuleNode.retCnt
    ensures Owned(recs + [r], n, live + Of(r), OwnersWith(owners, r))
  {
  }

  /** More memory and more blocks do not disturb a node. */
  lemma OwnedGrows(recs: seq<ResultRec>, n: RuleResult, live: set<object>, owners: map<object, ResultRec>,
      live': set<object>, owners': map<object, ResultRec>)
    requires Owned(recs, n, live, owners) && live <= live'
    requires forall v :: v in owners ==> v in owners' && owners'[v] == owners[v]
    ensures Owned(recs, n, live', owners')
  {
  }

  /** Freeing everything of one node takes nothing from another. */
  lemma OwnedElsewhere(mine: seq<ResultRec>, m: RuleResult, others: seq<ResultRec>, n: RuleResult,
      live: set<object>, owners: map<object, ResultRec>)
    requires m != n && Owned(mine, m, live, owners) && Owned(others, n, live, owners)
    ensures Owned(mine, m, live - Things(others) - {n}, owners)
    ensures m !in Things(others) && n !in Things(others)
  {
    forall a | 0 <= a < |mine|
      ensures mine[a] !in Things(others)
      ensures mine[a].value != null ==> mine[a].value !in Things(others)
    {
      assert forall r :: r in others ==> r.owner == n;
      assert mine[a].owner == m;
      forall r | r in others && r.value != null
        ensures owners[r.value] == r
      {
        var b :| 0 <= b < |others| && others[b] == r;
      }
    }
  }

  // The simple sequence behind the list.

  /** The entries with another id, in their order. */
  function Without(es: seq<Entry>, id: int): seq<Entry>
  {
    if es == [] then [] else (if es[0].ruleId == id then [] else [es[0]]) + Without(es[1..], id)
  }

  /** The list in the course of a deletion: the entries in front of i have been looked at. */
  ghost function Pending(es: seq<Entry>, i: nat, id: int): seq<Entry>
    requires i <= |es|
  {
    es[..i] + Without(es[i..], id)
  }

  lemma PendingStart(es: seq<Entry>, id: int)
    ensures Pending(es, 0, id) == Without(es, id)
  {
    assert es[..0] == [] && es[0..] == es;
  }

  lemma PendingEnd(es: seq<Entry>, id: int)
    ensures Pending(es, |es|, id) == es
  {
    assert es[|es|..] == [];
  }

  lemma WithoutAt(es: seq<Entry>, id: int, i: nat)
    requires i < |es|
    ensures Without(es[i..], id) == (if es[i].ruleId == id then [] else [es[i]]) + Without(es[i + 1..], id)
  {
    assert es[i..][1..] == es[i + 1..];
  }

  lemma PendingDrop(es: seq<Entry>, i: nat, id: int)
    requires i < |es| && es[i].ruleId == id
    ensures Pending(Cut(es, i), i, id) == Pending(es, i, id)
  {
    WithoutAt(es, id, i);
    assert Cut(es, i)[..i] == es[..i] && Cut(es, i)[i..] == es[i + 1..];
  }

  lemma PendingKeep(es: seq<Entry>, i: nat, id: int)
    requires i < |es| && es[i].ruleId != id
    ensures Pending(es, i + 1, id) == Pending(es, i, id)
  {
    WithoutAt(es, id, i);
    assert es[..i + 1] == es[..i] + [es[i]];
  }

  /** Without removes all entries of the id and no other. */
  lemma {:induction false} WithoutMembers(es: seq<Entry>, id: int)
    ensures forall e :: e in Without(es, id) <==> e in es && e.ruleId != id
  {
    if es != [] {
      WithoutMembers(es[1..], id);
      assert forall e :: e in es <==> e == es[0] || e in es[1..];
    }
  }

  /** Without changes nothing exactly when the id does not occur. */
  lemma {:induction false} WithoutNone(es: seq<Entry>, id: int)
    ensures |Without(es, id)| <= |es|
    ensures Without(es, id) == es <==> forall i :: 0 <= i < |es| ==> es[i].ruleId != id
  {
    if es != [] {
      WithoutNone(es[1..], id);
      var rest := Without(es[1..], id);
      assert es == [es[0]] + es[1..] && ([es[0]] + rest)[1..] == rest;
      assert (forall i :: 0 <= i < |es| ==> es[i].ruleId != id) <==>
        es[0].ruleId != id && forall i :: 0 <= i < |es[1..]| ==> es[1..][i].ruleId != id by {
        assert forall i :: 0 < i < |es| ==> es[i] == es[1..][i - 1];
      }
    }
  }

  lemma WithoutCons(x: Entry, es: seq<Entry>, id: int)
    ensures Without([x] + es, id) == if x.ruleId == id then Without(es, id) else [x] + Without(es, id)
  {
    assert ([x] + es)[1..] == es;
    assert [] + Without(es, id) == Without(es, id);
  }

  /** Deletions of two ids commute; a deletion works on the parts of a list one by one. */
  lemma {:induction false} WithoutCommutes(es: seq<Entry>, id: int, id': int)
    ensures Without(Without(es, id), id') == Without(Without(es, id'), id)
  {
    if es != [] {
      hide Without;
      var x, rest := es[0], es[1..];
      assert es == [x] + rest;
      WithoutCommutes(rest, id, id');
      WithoutCons(x, rest, id);
      WithoutCons(x, rest, id');
      WithoutCons(x, Without(rest, id), id');
      WithoutCons(x, Without(rest, id'), id);
    }
  }

  lemma {:induction false} WithoutConcat(es: seq<Entry>, fs: seq<Entry>, id: int)
    ensures Without(es + fs, id) == Without(es, id) + Without(fs, id)
  {
    if es == [] {
      assert es + fs == fs;
    } else {
      assert (es + fs)[1..] == es[1..] + fs;
      WithoutConcat(es[1..], fs, id);
      var first := if es[0].ruleId == id then [] else [es[0]];
      assert first + (Without(es[1..], id) + Without(fs, id)) == (first + Without(es[1..], id)) + Without(fs, id);
    }
  }

  class CMRStaticResult {
    var m_pRuleResult: RuleResult?
    var m_AllocSize: int
    const szResult: Size
    const szRec: Size
    const szValue: Size

    ghost var nodes: seq<RuleResult>
    ghost var Contents: seq<Entry>
    /** Everything allocated here and not yet freed, and this object. */
    ghost var live: set<object>
    /** Everything allocated here and freed since. */
    ghost var freed: set<object>
    /** Nodes that are in no list any more and were never freed. */
    ghost var lost: set<RuleResult>
    /** The record each value block was made for. */
    ghost var owners: map<object, ResultRec>

    function BlockSize(cols: nat): nat { szValue * cols }

    function RowsSize(n: nat, cols: nat): nat { if n == 0 then 0 else RowsSize(n - 1, cols) + szRec + BlockSize(cols) }

    function EntrySize(e: Entry): nat { szResult + RowsSize(|e.rows|, e.retCnt) }

    function Footprint(es: seq<Entry>): nat { if es == [] then 0 else EntrySize(es[0]) + Footprint(es[1..]) }

    function LostSize(n: nat): nat { szResult * n }

    /** The size of a piece of memory, by what it is: a node, a record, or a block of values. */
    ghost function SizeOf(o: object): nat
    {
      if o is RuleResult then szResult
      else if o is ResultRec then szRec
      else if o is array<Value> then szValue * (o as array<Value>).Length
      else 0
    }

    /** The size of all the memory in s. */
    ghost function Held(s: set<object>): nat
    {
      if s == {} then 0 else
        var o :| o in s;
        SizeOf(o) + Held(s - {o})
    }

    lemma {:induction false} HeldWithout(s: set<object>, o: object)
      requires o in s
      ensures Held(s) == SizeOf(o) + Held(s - {o})
    {
      hide SizeOf;
      var x :| x in s && Held(s) == SizeOf(x) + Held(s - {x});
      if x != o {
        HeldWithout(s - {x}, o);
        HeldWithout(s - {o}, x);
        assert s - {x} - {o} == s - {o} - {x};
      }
    }

    lemma HeldWith(s: set<object>, o: object)
      requires o !in s
      ensures Held(s + {o}) == Held(s) + SizeOf(o)
    {
      hide SizeOf;
      HeldWithout(s + {o}, o);
      assert s + {o} - {o} == s;
    }

    lemma Sizes(n: RuleResult, r: ResultRec)
      ensures SizeOf(n) == szResult && SizeOf(r) == szRec
      ensures r.value != null ==> SizeOf(r.value) == BlockSize(r.value.Length)
    {
    }

    lemma BlockOf(a: array<Value>)
      ensures SizeOf(a) == BlockSize(a.Length)
    {
    }

    lemma HeldNothing()
      ensures Held({this}) == 0
    {
      HeldWithout({this}, this);
    }

    lemma NoDrift()
      ensures Drift() == 0 ==> m_AllocSize == Held(live)
    {
    }

    /** What the account says beyond the memory in use. */
    ghost function Drift(): int
      reads this`m_AllocSize, this`live
    {
      m_AllocSize - Held(live)
    }

    lemma {:induction false} RowsSizeIs(n: nat, cols: nat)
      ensures RowsSize(n, cols) == n * szRec + szValue * (n * cols)
    {
      if n > 0 {
        RowsSizeIs(n - 1, cols);
        assert szValue * (n * cols) == szValue * ((n - 1) * cols) + szValue * cols by {
          assert n * cols == (n - 1) * cols + cols;
          Distributes(szValue, (n - 1) * cols, cols);
        }
      }
    }

    /** The node, its records and their blocks are allocated. */
    ghost predicate Inside(n: RuleResult)
      reads this`live, live
    {
      n in live && forall r :: r in n.recs ==> r in live && (r.value != null ==> r.value in live)
    }

    ghost predicate Kept(n: RuleResult, e: Entry)
      requires Inside(n)
      reads this`live, this`lost, this`owners, live
    {
      n !in lost && Owned(n.recs, n, live, owners) && Denotes(n, e)
    }

    ghost predicate Valid()
      reads this, live
    {
      && this in live && freed !! live && (forall n :: n in lost ==> n in live)
      && (forall n :: n in nodes ==> n in live && Inside(n))
      && Linked(m_pRuleResult, nodes) && Distinct(nodes)
      && |Contents| == |nodes| && (forall i :: 0 <= i < |nodes| ==> Kept(nodes[i], Contents[i]))
      && m_AllocSize == Footprint(Contents) + LostSize(|lost|) && Drift() == 0
    }

    lemma LostSizeNext(n: nat)
      ensures LostSize(n + 1) == LostSize(n) + szResult
    {
    }

    lemma {:induction false} FootprintAt(es: seq<Entry>, i: nat)
      requires i < |es|
      ensures Footprint(es) == Footprint(es[..i] + es[i + 1..]) + EntrySize(es[i])
    {
      hide EntrySize;
      if i == 0 {
        assert es[..0] + es[1..] == es[1..];
      } else {
        FootprintAt(es[1..], i - 1);
        assert (es[..i] + es[i + 1..])[1..] == es[1..][..i - 1] + es[1..][i..];
      }
    }

    constructor (ruleResult: Size, resultRec: Size, value: Size)
      ensures Valid() && fresh(live) && Contents == [] && nodes == [] && lost == {} && freed == {}
      ensures szResult == ruleResult && szRec == resultRec && szValue == value
    {
      m_pRuleResult, m_AllocSize := null, 0;
      szResult, szRec, szValue := ruleResult, resultRec, value;
      nodes, Contents, owners, live, lost, freed := [], [], map[], {this}, {}, {};
      new;
      HeldNothing();
    }

    method GetStaticResult() returns (p: RuleResult?)
      requires Valid()
      ensures Linked(p, nodes)
    {
      p := m_pRuleResult;
    }

    /** MetisAlloc: a size of 0 gives no block.  mm is what malloc returns, the new at the call. */
    method MetisAlloc(ghost mm: object?, sz: nat) returns (ok: bool)
      requires sz > 0 ==> mm != null
      modifies this`m_AllocSize, this`live
      ensures ok == (sz > 0) && m_AllocSize == old(m_AllocSize) + sz
      ensures live == if sz > 0 then old(live) + {mm} else old(live)
    {
      if sz == 0 {
        return false;
      }
      m_AllocSize := m_AllocSize + sz;
      live := live + {mm};
      ok := true;
    }

    /** A block is freed once, while it is still allocated. */
    method MetisFree(ghost p: object, sz: nat)
      requires p in live
      modifies this`m_AllocSize, this`live, this`freed
      ensures m_AllocSize == old(m_AllocSize) - sz && live == old(live) - {p} && freed == old(freed) + {p}
    {
      m_AllocSize := m_AllocSize - sz;
      live := live - {p};
      freed := freed + {p};
    }

    lemma BlockSizeZero(cols: nat)
      ensures BlockSize(cols) == 0 <==> cols == 0
    {
    }

    /** The copy of one block; a size of 0 allocates nothing. */
    method CopyBlock(block: array?<Value>, cols: nat, ghost row: seq<Value>) returns (copy: array?<Value>)
      requires if cols == 0 then row == [] else block != null && block.Length == cols && block[..] == row
      modifies this`m_AllocSize, this`live
      ensures m_AllocSize == old(m_AllocSize) + BlockSize(cols)
      ensures live == old(live) + if copy == null then {} else {copy}
      ensures if cols == 0 then copy == null && row == []
              else copy != null && fresh(copy) && copy.Length == cols && copy[..] == row
      ensures Drift() == old(Drift())
    {
      hide SizeOf, Held;
      BlockSizeZero(cols);
      if cols == 0 {
        var ok := MetisAlloc(null, BlockSize(cols));
        return null;
      }
      var a := new Value[cols](i requires 0 <= i < cols && block != null && block.Length == cols reads block => block[i]);
      var ok := MetisAlloc(a, BlockSize(cols));
      assert a[..] == block[..];
      copy := a;
      HeldWith(old(live), a);
      BlockOf(a);
    }

    /** The link step of the copy loop: r goes behind the last record, or becomes the head. */
    method LinkRow(pNew: RuleResult, last: ResultRec?, r: ResultRec, ghost recs: seq<ResultRec>)
      requires RecsLinked(pNew.resRecord, recs) && r.pNext == null && r !in recs
      requires last == (if recs == [] then null else recs[|recs| - 1])
      requires forall a, b :: 0 <= a < b < |recs| ==> recs[a] != recs[b]
      modifies pNew`resRecord, (if last == null then {} else {last})`pNext
      ensures RecsLinked(pNew.resRecord, recs + [r])
    {
      if last == null {
        pNew.resRecord := r;
      } else {
        last.pNext := r;
      }
    }

    /** The allocations of one turn: a record and a copy of the block of pRec1. */
    method NewRow(pNew: RuleResult, pRec1: ResultRec, cols: nat, ghost place: nat, ghost row: seq<Value>) returns (r: ResultRec)
      requires RowIs(pRec1, cols, row)
      modifies this`m_AllocSize, this`live
      ensures fresh(r) && r.pNext == null && r.owner == pNew && r.at == place && RowIs(r, cols, row)
      ensures r.value != null ==> fresh(r.value) && r.value.Length == cols
      ensures m_AllocSize == old(m_AllocSize) + szRec + BlockSize(cols)
      ensures live == old(live) + Of(r) && Drift() == old(Drift())
    {
      hide BlockSize, Held, SizeOf;
      var block := CopyBlock(pRec1.value, cols, row);
      r := new ResultRec(block, pNew, place);
      HeldWith(live, r);
      Sizes(pNew, r);
      var ok := MetisAlloc(r, szRec);
      assert live == old(live) + Of(r);
    }

    /** One turn of the copy loop: a new record with a copy of the block of pRec1, behind the last one. */
    method CopyRow(pNew: RuleResult, last: ResultRec?, pRec1: ResultRec, cols: nat, ghost recs: seq<ResultRec>, ghost row: seq<Value>)
      returns (r: ResultRec)
      requires RowIs(pRec1, cols, row) && Owned(recs, pNew, live, owners) && cols == pNew.pRuleNode.retCnt
      requires RecsLinked(pNew.resRecord, recs) && last == (if recs == [] then null else recs[|recs| - 1])
      modifies this`m_AllocSize, this`live, this`owners, pNew`resRecord, (if last == null then {} else {last})`pNext
      ensures fresh(r) && (r.value != null ==> fresh(r.value))
      ensures RowIs(r, cols, row) && RecsLinked(pNew.resRecord, recs + [r]) && Owned(recs + [r], pNew, live, owners)
      ensures m_AllocSize == old(m_AllocSize) + szRec + BlockSize(cols)
      ensures live == old(live) + Of(r) && owners == OwnersWith(old(owners), r) && Drift() == old(Drift())
    {
      hide BlockSize, RecsLinked, Owned, Drift, RowIs;
      OwnedDistinct(recs, pNew, live, owners);
      r := NewRow(pNew, pRec1, cols, |recs|, row);
      OwnedAppend(recs, r, pNew, old(live), owners);
      owners := OwnersWith(owners, r);
      LinkRow(pNew, last, r, recs);
    }

    /** The whole state of the copy loop after |recs| turns: recs are the copies of the first rows of src. */
    ghost predicate Copied(pNew: RuleResult, src: RuleResult, e: Entry, recs: seq<ResultRec>)
      reads this`live, this`owners, src`resRecord, src`recs, src.recs`pNext, src.recs`value, Blocks(src.recs)
      reads pNew`resRecord, pNew`pRuleNode, recs, Blocks(recs)
    {
      && pNew.pRuleNode.retCnt == e.retCnt
      && RecsLinked(src.resRecord, src.recs) && RowsAre(src.recs, e.retCnt, e.rows) && |recs| <= |src.recs| == |e.rows|
      && RecsLinked(pNew.resRecord, recs) && RowsAre(recs, e.retCnt, e.rows[..|recs|]) && Owned(recs, pNew, live, owners)
    }

    method CopyTurn(pNew: RuleResult, src: RuleResult, last: ResultRec?, pRec1: ResultRec, cols: nat, ghost e: Entry, ghost recs: seq<ResultRec>)
      returns (r: ResultRec, next: ResultRec?)
      requires pNew != src && Copied(pNew, src, e, recs) && cols == e.retCnt
      requires |recs| < |src.recs| && pRec1 == src.recs[|recs|] && last == (if recs == [] then null else recs[|recs| - 1])
      requires last != null ==> last !in src.recs
      modifies this`m_AllocSize, this`live, this`owners, pNew`resRecord, (if last == null then {} else {last})`pNext
      ensures fresh(r) && (r.value != null ==> fresh(r.value))
      ensures Copied(pNew, src, e, recs + [r]) && next == if |recs| + 1 < |src.recs| then src.recs[|recs| + 1] else null
      ensures m_AllocSize == old(m_AllocSize) + szRec + BlockSize(cols)
      ensures live == old(live) + Of(r) && owners == OwnersWith(old(owners), r) && Drift() == old(Drift())
    {
      hide BlockSize, RowIs, RecsLinked, Owned, Drift;
      ghost var i := |recs|;
      RowAt(src.recs, cols, e.rows, i);
      LinkAt(src.resRecord, src.recs, i);
      r := CopyRow(pNew, last, pRec1, cols, recs, e.rows[i]);
      RowsAppend(recs, r, cols, e.rows, i);
      next := pRec1.pNext;
    }

    /** The loop of AddStaticResult: a copy of every row of src under pNew, in order. */
    method CopyRows(pNew: RuleResult, src: RuleResult, ghost e: Entry)
      requires Denotes(src, e) && pNew != src && pNew.recs == [] && pNew.resRecord == null
      requires pNew.pRuleNode.retCnt == e.retCnt
      modifies this`m_AllocSize, this`live, this`owners, pNew`resRecord, pNew`recs
      ensures RecsLinked(pNew.resRecord, pNew.recs) && RowsAre(pNew.recs, e.retCnt, e.rows)
      ensures Owned(pNew.recs, pNew, live, owners)
      ensures forall r :: r in pNew.recs ==> fresh(r) && (r.value != null ==> fresh(r.value))
      ensures m_AllocSize == old(m_AllocSize) + RowsSize(|e.rows|, e.retCnt) && Drift() == old(Drift())
      ensures old(live) <= live && fresh(live - old(live))
      ensures forall v :: v in old(owners) ==> v in owners && owners[v] == old(owners)[v]
    {
      hide BlockSize, RowIs, RecsLinked, Owned, Copied, Drift;
      var cols := src.pRuleNode.retCnt;
      var pRec1 := src.resRecord;
      var pRec2: ResultRec? := null;
      ghost var recs: seq<ResultRec> := [];
      CopyBegins(pNew, src, e);
      while pRec1 != null
        invariant |recs| <= |src.recs| == |e.rows| && pRec1 == (if |recs| < |src.recs| then src.recs[|recs|] else null)
        invariant pRec2 == (if recs == [] then null else recs[|recs| - 1])
        invariant forall r :: r in recs ==> fresh(r) && (r.value != null ==> fresh(r.value))
        invariant Copied(pNew, src, e, recs)
        invariant m_AllocSize == old(m_AllocSize) + RowsSize(|recs|, cols) && Drift() == old(Drift())
        invariant old(live) <= live && fresh(live - old(live))
        invariant forall v :: v in old(owners) ==> v in owners && owners[v] == old(owners)[v]
        decreases |src.recs| - |recs|
      {
        assert pRec2 != null ==> pRec2 in recs;
        pRec2, pRec1 := CopyTurn(pNew, src, pRec2, pRec1, cols, e, recs);
        recs := recs + [pRec2];
      }
      CopyEnds(pNew, src, e, recs);
      pNew.recs := recs;
    }

    lemma CopyBegins(pNew: RuleResult, src: RuleResult, e: Entry)
      requires Denotes(src, e) && pNew.resRecord == null && pNew.pRuleNode.retCnt == e.retCnt
      ensures Copied(pNew, src, e, [])
      ensures |src.recs| == |e.rows| && src.resRecord == if src.recs == [] then null else src.recs[0]
    {
    }

    lemma CopyEnds(pNew: RuleResult, src: RuleResult, e: Entry, recs: seq<ResultRec>)
      requires Copied(pNew, src, e, recs) && |recs| == |src.recs|
      ensures RecsLinked(pNew.resRecord, recs) && RowsAre(recs, e.retCnt, e.rows) && Owned(recs, pNew, live, owners)
    {
      assert e.rows[..|recs|] == e.rows;
    }

    lemma InsideKept(n: RuleResult, e: Entry)
      requires n in live && n !in lost && Denotes(n, e) && Owned(n.recs, n, live, owners)
      ensures Inside(n) && Kept(n, e)
    {
      hide Denotes;
    }

    lemma Accounting()
      requires Valid()
      ensures Linked(m_pRuleResult, nodes) && Distinct(nodes) && |Contents| == |nodes| && this in live && freed !! live
      ensures (forall n :: n in lost ==> n in live) && forall n :: n in nodes ==> n in live && n !in lost
      ensures m_AllocSize == Footprint(Contents) + LostSize(|lost|) && Drift() == 0
    {
    }

    twostate lemma AllUntouched()
      requires old(Valid()) && forall o :: o in old(live) && o != this ==> unchanged(o)
      ensures forall n :: n in old(nodes) ==> Untouched(n)
    {
      hide Kept, Linked, Footprint, LostSize, Distinct;
      forall n | n in old(nodes)
        ensures Untouched(n)
      {
        assert old(Inside(n));
      }
    }

    /** An untouched node of the list owns what it owned. */
    twostate lemma OwnedStays(new i: nat)
      requires i < |old(nodes)| && old(Owned(nodes[i].recs, nodes[i], live, owners)) && Untouched(old(nodes)[i])
      ensures Owned(old(nodes)[i].recs, old(nodes)[i], old(live), old(owners))
    {
    }

    /** The old nodes keep their meaning while they are untouched and the memory in use only grows. */
    twostate lemma ListStays()
      requires old(Valid()) && (forall n :: n in old(nodes) ==> Untouched(n))
      requires old(live) <= live && lost == old(lost)
      requires forall v :: v in old(owners) ==> v in owners && owners[v] == old(owners)[v]
      ensures forall i :: 0 <= i < |old(nodes)| ==> Inside(old(nodes)[i]) && Kept(old(nodes)[i], old(Contents)[i])
    {
      hide Denotes, Owned, Linked, Distinct, Footprint, LostSize;
      forall i | 0 <= i < |old(nodes)|
        ensures Inside(old(nodes)[i]) && Kept(old(nodes)[i], old(Contents)[i])
      {
        ghost var n, e := old(nodes)[i], old(Contents)[i];
        assert old(Kept(nodes[i], Contents[i]));
        DenotesStays(n, e);
        OwnedStays(i);
        OwnedGrows(n.recs, n, old(live), old(owners), live, owners);
        InsideKept(n, e);
      }
    }

    lemma ValidPush(p: RuleResult, ns: seq<RuleResult>, e: Entry, es: seq<Entry>)
      requires nodes == [p] + ns && Contents == [e] + es && |ns| == |es| && p !in ns && Distinct(ns)
      requires this in live && freed !! live && (forall n :: n in lost ==> n in live) && Linked(m_pRuleResult, nodes)
      requires Inside(p) && Kept(p, e) && forall i :: 0 <= i < |ns| ==> Inside(ns[i]) && Kept(ns[i], es[i])
      requires m_AllocSize == szResult + RowsSize(|e.rows|, e.retCnt) + Footprint(es) + LostSize(|lost|) && Drift() == 0
      ensures Valid()
    {
      hide Drift, Kept, Inside, Linked, LostSize, RowsSize;
      assert Contents[1..] == es;
      forall i | 0 <= i < |nodes|
        ensures nodes[i] in live && Inside(nodes[i]) && Kept(nodes[i], Contents[i])
      {
        assert i > 0 ==> nodes[i] == ns[i - 1] && Contents[i] == es[i - 1];
        InsideLive(nodes[i]);
      }
    }

    lemma InsideLive(n: RuleResult)
      requires Inside(n)
      ensures n in live
    {
    }

    /** The new node, with the fields of the given one and no rows yet, becomes the head. */
    method PushNode(src: RuleResult, ghost e: Entry) returns (pNew: RuleResult)
      requires Linked(m_pRuleResult, nodes)
      modifies this`m_pRuleResult, this`m_AllocSize, this`nodes, this`Contents, this`live
      ensures fresh(pNew) && pNew.resRecord == null && pNew.recs == []
      ensures pNew.ruleId == src.ruleId && pNew.parmInfo == src.parmInfo && pNew.pRuleNode == src.pRuleNode
      ensures nodes == [pNew] + old(nodes) && Contents == [e] + old(Contents) && Linked(m_pRuleResult, nodes)
      ensures live == old(live) + {pNew} && m_AllocSize == old(m_AllocSize) + szResult && Drift() == old(Drift())
    {
      hide Linked, Held;
      pNew := new RuleResult.Copy(src);
      HeldWith(live, pNew);
      var ok := MetisAlloc(pNew, szResult);
      pNew.pNext := m_pRuleResult;
      m_pRuleResult := pNew;
      LinkedPush(pNew, pNew.pNext, nodes);
      nodes, Contents := [pNew] + nodes, [e] + Contents;
    }

    /** New memory has not been freed. */
    twostate lemma FreedApart()
      requires old(freed !! live) && freed == old(freed) && fresh(live - old(live))
      ensures freed !! live
    {
      forall o | o in freed
        ensures o !in live
      {
      }
    }

    /** Nothing of the node has been freed by this cache. */
    ghost predicate Readable(n: RuleResult)
      reads this`freed, n`recs, n.recs`value
    {
      n !in freed && forall r :: r in n.recs ==> r !in freed && (r.value != null ==> r.value !in freed)
    }

    /** AddStaticResult puts an equal record list in front, made of new memory only; nothing but this object changes. */
    method AddStaticResult(pResultAdd: RuleResult, ghost e: Entry) returns (pNew: RuleResult)
      requires Valid() && Denotes(pResultAdd, e) && Readable(pResultAdd)
      modifies this
      ensures Valid() && fresh(pNew) && nodes == [pNew] + old(nodes) && Contents == [e] + old(Contents) && lost == old(lost)
      ensures freed == old(freed)
      ensures old(live) <= live && fresh(live - old(live))
      ensures forall r :: r in pNew.recs ==> fresh(r) && (r.value != null ==> fresh(r.value))
      ensures m_AllocSize == old(m_AllocSize) + szResult + |e.rows| * szRec + szValue * (|e.rows| * e.retCnt)
    {
      hide *;
      Accounting();
      RowsSizeIs(|e.rows|, e.retCnt);
      DenotesFields(pResultAdd, e);
      pNew := PushNode(pResultAdd, e);
      DenotesUnchanged(pResultAdd, e);
      CopyRows(pNew, pResultAdd, e);
      NewDenotes(pNew, e);
      InsideKept(pNew, e);
      AllUntouched();
      ListStays();
      FreedApart();
      ValidPush(pNew, old(nodes), e, old(Contents));
    }

    /** DeleteResRec frees the records recs[k..] and their blocks, the last one first, each exactly once. */
    method DeleteResRec(p: ResultRec?, cnt: nat, ghost n: RuleResult, ghost e: Entry, ghost had: set<object>, ghost k: nat)
      requires Denotes(n, e) && Owned(n.recs, n, had, owners) && cnt == e.retCnt
      requires k <= |n.recs| && p == (if k < |n.recs| then n.recs[k] else null) && Things(n.recs[k..]) <= live
      modifies this`m_AllocSize, this`live, this`freed
      ensures live == old(live) - Things(n.recs[k..]) && freed == old(freed) + Things(n.recs[k..])
      ensures m_AllocSize == old(m_AllocSize) - RowsSize(|e.rows| - k, cnt) && Drift() == old(Drift())
      decreases |n.recs| - k
    {
      hide Denotes, Owned, Things, RowsAre, RecsLinked, Held, SizeOf, BlockSize;
      DenotesFields(n, e);
      assert |n.recs| == |e.rows| by { RowCount(n.recs, cnt, e.rows); }
      if p == null {
        NoThings(n.recs[k..]);
        return;
      }
      LinkAt(n.resRecord, n.recs, k);
      ThingsSplit(n.recs, n, had, owners, k);
      RowAt(n.recs, cnt, e.rows, k);
      DeleteResRec(p.pNext, cnt, n, e, had, k + 1);
      BlockIs(n.recs, n, had, k);
      BlockSizeZero(cnt);
      Sizes(n, p);
      if p.value != null {
        HeldWithout(live, p.value);
        MetisFree(p.value, BlockSize(cnt));
      }
      HeldWithout(live, p);
      MetisFree(p, szRec);
    }

    lemma BlockIs(recs: seq<ResultRec>, n: RuleResult, had: set<object>, k: nat)
      requires Owned(recs, n, had, owners) && k < |recs|
      ensures recs[k].value != null ==> recs[k].value.Length == n.pRuleNode.retCnt
    {
    }

    /** The same when the link of the node before i is set as well. */
    twostate lemma AllButLink(new i: nat)
      requires old(Valid()) && i < |old(nodes)|
      requires forall o :: o in old(live) && o != this && (i == 0 || o != old(nodes)[i - 1]) ==> unchanged(o)
      requires i > 0 ==> var p := old(nodes)[i - 1];
        && p.ruleId == old(nodes[i - 1].ruleId) && p.parmInfo == old(nodes[i - 1].parmInfo)
        && p.pRuleNode == old(nodes[i - 1].pRuleNode) && p.resRecord == old(nodes[i - 1].resRecord)
        && p.recs == old(nodes[i - 1].recs)
      ensures forall n :: n in old(nodes) ==> Untouched(n)
    {
      hide Kept, Linked, Footprint, LostSize, Distinct;
      forall n | n in old(nodes)
        ensures Untouched(n)
      {
        assert old(Inside(n));
      }
    }

    /** Freeing one node and its rows leaves the others what they are. */
    twostate lemma OthersStay(new i: nat)
      requires old(Valid()) && i < |old(nodes)| && (forall n :: n in old(nodes) ==> Untouched(n))
      requires owners == old(owners) && old(live) - Things(old(nodes)[i].recs) - {old(nodes)[i]} <= live
      requires forall n :: n in old(nodes) && n != old(nodes)[i] ==> n !in lost
      ensures forall j :: 0 <= j < |old(nodes)| && j != i ==>
        Inside(old(nodes)[j]) && Kept(old(nodes)[j], old(Contents)[j])
    {
      hide Denotes, Owned, Linked, Footprint, LostSize, Things;
      ghost var d := old(nodes)[i];
      assert old(forall j :: 0 <= j < |nodes| ==> Kept(nodes[j], Contents[j]));
      assert old(Kept(nodes[i], Contents[i]));
      OwnedStays(i);
      forall j | 0 <= j < |old(nodes)| && j != i
        ensures Inside(old(nodes)[j]) && Kept(old(nodes)[j], old(Contents)[j])
      {
        ghost var n, e := old(nodes)[j], old(Contents)[j];
        assert n != d && old(Kept(nodes[j], Contents[j]));
        DenotesStays(n, e);
        OwnedStays(j);
        OwnedElsewhere(n.recs, n, d.recs, d, old(live), owners);
        OwnedGrows(n.recs, n, old(live) - Things(d.recs) - {d}, owners, live, owners);
        InsideKept(n, e);
      }
    }

    lemma ValidCut(ns: seq<RuleResult>, es: seq<Entry>, i: nat)
      requires i < |ns| == |es| && nodes == Cut(ns, i) && Contents == Cut(es, i) && Distinct(ns)
      requires this in live && freed !! live && (forall n :: n in lost ==> n in live) && Linked(m_pRuleResult, nodes)
      requires forall j :: 0 <= j < |ns| && j != i ==> Inside(ns[j]) && Kept(ns[j], es[j])
      requires m_AllocSize == Footprint(Contents) + LostSize(|lost|) && Drift() == 0
      ensures Valid()
    {
      hide Drift, Kept, Inside, Linked, LostSize, Footprint, Cut;
      CutDistinct(ns, i);
      forall a | 0 <= a < |nodes|
        ensures nodes[a] in live && Inside(nodes[a]) && Kept(nodes[a], Contents[a])
      {
        var j := if a < i then a else a + 1;
        CutAt(ns, i, a);
        CutAt(es, i, a);
        InsideLive(nodes[a]);
      }
    }

    /** The link past the node at i, which leaves the list as it is. */
    method Unlink(pPrev: RuleResult?, pDelete: RuleResult, ghost i: nat)
      requires Linked(m_pRuleResult, nodes) && Distinct(nodes) && i < |nodes| == |Contents| && pDelete == nodes[i]
      requires pPrev == (if i == 0 then null else nodes[i - 1]) && Denotes(pDelete, Contents[i])
      modifies this`m_pRuleResult, this`nodes, this`Contents, (if pPrev == null then {} else {pPrev})`pNext
      ensures nodes == Cut(old(nodes), i) && Contents == Cut(old(Contents), i)
      ensures Linked(m_pRuleResult, nodes) && pDelete.pNext == NodeAfter(old(nodes), i) && Denotes(pDelete, old(Contents)[i])
    {
      hide Denotes;
      if pPrev != null {
        pPrev.pNext := pDelete.pNext;
      } else {
        m_pRuleResult := pDelete.pNext;
      }
      ghost var all := nodes;
      assert forall a :: 0 <= a < |all| && a != i - 1 ==> all[a].pNext == NodeAfter(all, a);
      LinkedCut(m_pRuleResult, all, i);
      nodes, Contents := Cut(all, i), Cut(Contents, i);
      DenotesStays(pDelete, old(Contents)[i]);
    }

    lemma FootprintCut(es: seq<Entry>, i: nat)
      requires i < |es|
      ensures Footprint(es) == Footprint(Cut(es, i)) + szResult + RowsSize(|es[i].rows|, es[i].retCnt)
    {
      FootprintAt(es, i);
    }

    /** What is known of the node at i before anything is freed. */
    lemma NodeParts(i: nat)
      requires Valid() && i < |nodes|
      ensures Denotes(nodes[i], Contents[i]) && Owned(nodes[i].recs, nodes[i], live, owners)
      ensures nodes[i] !in lost && Things(nodes[i].recs) <= live && nodes[i] !in Things(nodes[i].recs)
      ensures this !in Things(nodes[i].recs) && forall n :: n in lost ==> n !in Things(nodes[i].recs)
    {
      hide Denotes, Footprint, LostSize;
      assert Inside(nodes[i]) && Kept(nodes[i], Contents[i]);
      forall r | r in nodes[i].recs
        ensures r.owner == nodes[i]
      {
      }
    }

    /** The rows of a node are freed; the node itself is not. */
    method FreeRows(pDelete: RuleResult, ghost e: Entry, ghost had: set<object>)
      requires Denotes(pDelete, e) && Owned(pDelete.recs, pDelete, had, owners) && Things(pDelete.recs) <= live
      modifies this`m_AllocSize, this`live, this`freed
      ensures live == old(live) - Things(pDelete.recs) && freed == old(freed) + Things(pDelete.recs)
      ensures m_AllocSize == old(m_AllocSize) - RowsSize(|e.rows|, e.retCnt) && Drift() == old(Drift())
    {
      hide RowsAre, Owned, RowsSize, Things, Drift;
      assert pDelete.recs[0..] == pDelete.recs;
      DeleteResRec(pDelete.resRecord, pDelete.pRuleNode.retCnt, pDelete, e, had, 0);
    }

    method FreeNode(pDelete: RuleResult)
      requires pDelete in live
      modifies this`m_AllocSize, this`live, this`freed
      ensures m_AllocSize == old(m_AllocSize) - szResult && live == old(live) - {pDelete} && freed == old(freed) + {pDelete}
      ensures Drift() == old(Drift())
    {
      hide Held;
      HeldWithout(live, pDelete);
      MetisFree(pDelete, szResult);
    }

    /** The body of the match in DelRuleResult: unlink the node at i, free its rows and then the node. */
    method Drop(pPrev: RuleResult?, pDelete: RuleResult, ghost i: nat) returns (next: RuleResult?)
      requires Valid() && i < |nodes| && pDelete == nodes[i] && pPrev == (if i == 0 then null else nodes[i - 1])
      modifies this, (if pPrev == null then {} else {pPrev})`pNext
      ensures Valid() && next == if i + 1 < |old(nodes)| then old(nodes)[i + 1] else null
      ensures nodes == Cut(old(nodes), i) && Contents == Cut(old(Contents), i) && lost == old(lost)
      ensures var gone := Things(pDelete.recs) + {pDelete};
        gone <= old(live) && live == old(live) - gone && freed == old(freed) + gone
    {
      hide *;
      Accounting();
      NodeParts(i);
      FootprintCut(Contents, i);
      Unlink(pPrev, pDelete, i);
      next := pDelete.pNext;
      NodeAfterIs(old(nodes), i);
      FreeRows(pDelete, old(Contents)[i], old(live));
      FreeNode(pDelete);
      AllButLink(i);
      OthersStay(i);
      ValidCut(old(nodes), old(Contents), i);
    }

    lemma HeadParts()
      requires Valid()
      ensures m_pRuleResult == (if nodes == [] then null else nodes[0]) && |Contents| == |nodes|
      ensures forall i :: 0 <= i < |nodes| ==> nodes[i].ruleId == Contents[i].ruleId
    {
      hide Footprint, LostSize, RecsLinked, RowsAre, Owned;
    }

    /** DelRuleResult takes out every entry of the id, keeps the others in order, and does nothing for id 0. */
    method DelRuleResult(id: int)
      requires Valid()
      modifies this, nodes`pNext
      ensures Valid() && lost == old(lost) && live <= old(live) && freed == old(freed) + (old(live) - live)
      ensures forall n :: n in old(nodes) ==> if id != 0 && n.ruleId == id then n in freed else n in nodes
      ensures Contents == if id == 0 then old(Contents) else Without(old(Contents), id)
      ensures forall i :: 0 <= i < |nodes| ==> nodes[i] in old(nodes)
    {
      hide *;
      if id == 0 {
        return;
      }
      HeadParts();
      var pSelected := m_pRuleResult;
      var pPrev: RuleResult? := null;
      ghost var i := 0;
      PendingStart(Contents, id);
      while pSelected != null
        invariant Valid() && lost == old(lost) && live <= old(live) && freed == old(freed) + (old(live) - live)
        invariant forall n :: n in old(nodes) ==> n in nodes || (n.ruleId == id && n in freed)
        invariant i <= |nodes| == |Contents| && pSelected == (if i < |nodes| then nodes[i] else null)
        invariant pPrev == if i == 0 then null else nodes[i - 1]
        invariant Pending(Contents, i, id) == Without(old(Contents), id)
        invariant forall n :: n in nodes ==> n in old(nodes)
        decreases |nodes| - i
      {
        HeadParts();
        if id == pSelected.ruleId {
          assert pPrev != null ==> pPrev in nodes;
          PendingDrop(Contents, i, id);
          CutKeeps(nodes, i);
          pSelected := Drop(pPrev, pSelected, i);
          HeadParts();
        } else {
          PendingKeep(Contents, i, id);
          NextOf(i);
          NodeAfterIs(nodes, i);
          pPrev := pSelected;
          pSelected := pSelected.pNext;
          i := i + 1;
        }
      }
      PendingEnd(Contents, id);
      NoneLeft(old(Contents), id);
    }

    lemma NoneLeft(es: seq<Entry>, id: int)
      requires Valid() && Contents == Without(es, id)
      ensures forall n :: n in nodes ==> n.ruleId != id
    {
      hide Valid;
      HeadParts();
      WithoutMembers(es, id);
      forall n | n in nodes
        ensures n.ruleId != id
      {
        var i :| 0 <= i < |nodes| && nodes[i] == n;
        assert Contents[i] in Contents;
      }
    }

    lemma NextOf(i: nat)
      requires Valid() && i < |nodes|
      ensures nodes[i].pNext == NodeAfter(nodes, i)
    {
    }

    /** The body of the loop of DelRuleResultAll: the head leaves the list, its rows are freed, the node is not. */
    method DropHead(pDelete: RuleResult)
      requires Valid() && nodes != [] && pDelete == nodes[0]
      modifies this
      ensures Valid() && nodes == Cut(old(nodes), 0) && Contents == Cut(old(Contents), 0)
      ensures var gone := Things(pDelete.recs); gone <= old(live) && live == old(live) - gone && freed == old(freed) + gone
      ensures pDelete !in old(lost) && lost == old(lost) + {pDelete}
    {
      hide *;
      Accounting();
      NodeParts(0);
      FootprintCut(Contents, 0);
      LostSizeNext(|lost|);
      Unlink(null, pDelete, 0);
      FreeRows(pDelete, old(Contents)[0], old(live));
      lost := lost + {pDelete};
      AllUntouched();
      OthersStay(0);
      ValidCut(old(nodes), old(Contents), 0);
    }

    /** DelRuleResultAll empties the list and loses the nodes: what is left of the account is theirs. */
    method DelRuleResultAll()
      requires Valid()
      modifies this
      ensures Valid() && nodes == [] && Contents == [] && live <= old(live) && freed == old(freed) + (old(live) - live)
      ensures |lost| == |old(lost)| + |old(nodes)| && m_AllocSize == LostSize(|lost|)
    {
      hide Valid, LostSize;
      HeadParts();
      while m_pRuleResult != null
        invariant Valid() && live <= old(live) && freed == old(freed) + (old(live) - live)
        invariant |lost| + |nodes| == |old(lost)| + |old(nodes)|
        invariant m_pRuleResult == null <==> nodes == []
        decreases |nodes|
      {
        HeadParts();
        DropHead(m_pRuleResult);
        HeadParts();
      }
      HeadParts();
      Accounting();
    }

    /** No record and no block belongs to two nodes, or to two places of one node. */
    lemma NothingShared(i: nat, a: nat, j: nat, b: nat)
      requires Valid() && i < |nodes| && j < |nodes| && a < |nodes[i].recs| && b < |nodes[j].recs|
      ensures nodes[i] == nodes[j] <==> i == j
      ensures nodes[i].recs[a] == nodes[j].recs[b] <==> i == j && a == b
      ensures nodes[i].recs[a].value != null && nodes[i].recs[a].value == nodes[j].recs[b].value ==> i == j && a == b
    {
      hide Footprint, LostSize, Linked, Denotes;
      assert Inside(nodes[i]) && Kept(nodes[i], Contents[i]) && Inside(nodes[j]) && Kept(nodes[j], Contents[j]);
      var r, r' := nodes[i].recs[a], nodes[j].recs[b];
      assert r.owner == nodes[i] && r.at == a && r'.owner == nodes[j] && r'.at == b;
    }

    /** A source that stays can be read when its turn comes. */
    lemma SourceReadable(used: set<object>, newer: set<object>, ns: seq<RuleResult>, ops: seq<Op>, k: nat)
      requires Valid() && live + freed <= used + newer && k < |ops| && ops[k].Add?
      requires SourceStays(used, ns, ops, k) && Apart(ops[k].src, newer)
      requires forall n :: n in ns && (forall j :: 0 <= j < k ==> !Removes(ops[j], n.ruleId)) ==> n in nodes
      ensures Readable(ops[k].src)
    {
      hide Valid, Removes;
      if ops[k].src in nodes {
        NodeReadable(ops[k].src);
      }
    }

    lemma NodeReadable(n: RuleResult)
      requires Valid() && n in nodes
      ensures Readable(n)
    {
      hide Footprint, LostSize, Linked, Kept, Distinct;
      assert Inside(n);
    }

    lemma AllDenote()
      requires Valid()
      ensures |nodes| == |Contents| && forall i :: 0 <= i < |nodes| ==> Denotes(nodes[i], Contents[i])
    {
      hide Footprint, LostSize, Linked, Denotes, Owned;
    }
  }

  lemma Distributes(x: int, y: int, z: int)
    ensures x * (y + z) == x * y + x * z
  {
  }

  function Reversed<T>(s: seq<T>): seq<T> { if s == [] then [] else Reversed(s[1..]) + [s[0]] }

  lemma {:induction false} ReversedSnoc<T>(s: seq<T>, x: T)
    ensures Reversed(s + [x]) == [x] + Reversed(s)
  {
    if s == [] {
      assert (s + [x])[1..] == [];
    } else {
      assert (s + [x])[1..] == s[1..] + [x];
      ReversedSnoc(s[1..], x);
    }
  }

  lemma OneMore<T>(es: seq<T>, k: nat, cs: seq<T>)
    requires k < |es|
    ensures Reversed(es[..k + 1]) + cs == [es[k]] + (Reversed(es[..k]) + cs)
  {
    ReversedSnoc(es[..k], es[k]);
    assert es[..k] + [es[k]] == es[..k + 1];
  }

  lemma NoneYet<T>(es: seq<T>, cs: seq<T>)
    ensures Reversed(es[..0]) + cs == cs
  {
  }

  /** A head taken from the cache still stands for the same entries after any number of additions. */
  method AddAll(cache: CMRStaticResult, srcs: seq<RuleResult>, ghost es: seq<Entry>) returns (head: RuleResult?)
    requires cache.Valid() && |srcs| == |es|
    requires forall k :: 0 <= k < |srcs| ==> Denotes(srcs[k], es[k]) && cache.Readable(srcs[k])
    modifies cache
    ensures cache.Valid() && cache.Contents == Reversed(es) + old(cache.Contents)
    ensures Linked(head, old(cache.nodes)) && |old(cache.nodes)| == |old(cache.Contents)|
    ensures forall i :: 0 <= i < |old(cache.nodes)| ==> Denotes(old(cache.nodes)[i], old(cache.Contents)[i])
  {
    hide CMRStaticResult.Valid, Denotes, Linked, Reversed;
    cache.AllDenote();
    NoneYet(es, cache.Contents);
    head := cache.GetStaticResult();
    var k := 0;
    while k < |srcs|
      invariant k <= |srcs| && cache.Valid() && cache.Contents == Reversed(es[..k]) + old(cache.Contents)
      invariant cache.freed == old(cache.freed)
    {
      DenotesUnchanged(srcs[k], es[k]);
      var pNew := cache.AddStaticResult(srcs[k], es[k]);
      OneMore(es, k, old(cache.Contents));
      k := k + 1;
    }
    assert es[..k] == es;
    forall i | 0 <= i < |old(cache.nodes)|
      ensures Denotes(old(cache.nodes)[i], old(cache.Contents)[i])
    {
      DenotesUnchanged(old(cache.nodes)[i], old(cache.Contents)[i]);
    }
  }

  /** One call on the cache. */
  datatype Op = Add(src: RuleResult, e: Entry) | Del(id: int) | DelAll

  function AfterOne(op: Op, es: seq<Entry>): seq<Entry>
  {
    match op
    case Add(_, e) => [e] + es
    case Del(id) => if id == 0 then es else Without(es, id)
    case DelAll => []
  }

  /** The entries after a run that starts with es. */
  function After(ops: seq<Op>, es: seq<Entry>): seq<Entry>
  {
    if ops == [] then es else AfterOne(ops[|ops| - 1], After(ops[..|ops| - 1], es))
  }

  /** The nodes a run loses: those in the list at each DelAll. */
  function LostBy(ops: seq<Op>, es: seq<Entry>): nat
  {
    if ops == [] then 0 else
      LostBy(ops[..|ops| - 1], es) + if ops[|ops| - 1].DelAll? then |After(ops[..|ops| - 1], es)| else 0
  }

  lemma AfterNext(ops: seq<Op>, k: nat, es: seq<Entry>)
    requires k < |ops|
    ensures After(ops[..k + 1], es) == AfterOne(ops[k], After(ops[..k], es))
    ensures LostBy(ops[..k + 1], es) == LostBy(ops[..k], es) + if ops[k].DelAll? then |After(ops[..k], es)| else 0
  {
    assert ops[..k + 1][..k] == ops[..k];
  }

  lemma NothingDone(ops: seq<Op>, es: seq<Entry>)
    ensures After(ops[..0], es) == es && LostBy(ops[..0], es) == 0
  {
  }

  /** The call takes the nodes of the id out of the list. */
  predicate Removes(op: Op, id: int) { op.DelAll? || (op.Del? && op.id == id && id != 0) }

  /** The node, its records and its blocks are none of the memory used. */
  ghost predicate Apart(n: RuleResult, used: set<object>)
    reads n`recs, n.recs`value
  {
    n !in used && forall r :: r in n.recs ==> r !in used && (r.value != null ==> r.value !in used)
  }

  /** The source of the k-th call is still there when the call is made: it is none of the memory the cache used
      before the run, or a node of the list that no earlier call takes out. */
  ghost predicate SourceStays(used: set<object>, nodes: seq<RuleResult>, ops: seq<Op>, k: nat)
    requires k < |ops| && ops[k].Add?
    reads ops[k].src`recs, ops[k].src`ruleId, ops[k].src.recs`value
  {
    var src := ops[k].src;
    Apart(src, used) || (src in nodes && forall j :: 0 <= j < k ==> !Removes(ops[j], src.ruleId))
  }

  /** Over every run that reads no freed memory the account is the size of the memory in use, piece by piece, and
      that is the footprint of the list plus one RULE_RESULT for each node lost. */
  method Run(cache: CMRStaticResult, ops: seq<Op>)
    requires cache.Valid() && forall k :: 0 <= k < |ops| && ops[k].Add? ==>
      Denotes(ops[k].src, ops[k].e) && SourceStays(cache.live + cache.freed, cache.nodes, ops, k)
    modifies cache, cache.nodes`pNext
    ensures cache.Valid() && cache.Contents == After(ops, old(cache.Contents))
    ensures cache.m_AllocSize == cache.Footprint(After(ops, old(cache.Contents)))
      + cache.LostSize(|old(cache.lost)| + LostBy(ops, old(cache.Contents)))
    ensures cache.m_AllocSize == cache.Held(cache.live) && cache.freed !! cache.live
  {
    hide *;
    ghost var es, used, ns := cache.Contents, cache.live + cache.freed, cache.nodes;
    ghost var newer: set<object> := {};
    NothingDone(ops, es);
    var k := 0;
    while k < |ops|
      invariant k <= |ops| && cache.Valid() && cache.Contents == After(ops[..k], es)
      invariant |cache.lost| == |old(cache.lost)| + LostBy(ops[..k], es)
      invariant forall i :: 0 <= i < |cache.nodes| ==> cache.nodes[i] in ns || fresh(cache.nodes[i])
      invariant forall n :: n in ns && (forall j :: 0 <= j < k ==> !Removes(ops[j], n.ruleId)) ==> n in cache.nodes
      invariant cache.live + cache.freed <= used + newer && fresh(newer)
    {
      AfterNext(ops, k, es);
      if ops[k].Add? {
        var src := ops[k].src;
        StillThere(src);
        DenotesStays(src, ops[k].e);
        OldApart(src, newer);
        cache.SourceReadable(used, newer, ns, ops, k);
      }
      ghost var had := cache.live + cache.freed;
      OneOp(cache, ops[k]);
      newer := newer + (cache.live + cache.freed - had);
      k := k + 1;
    }
    assert ops[..k] == ops;
    cache.Accounting();
    cache.NoDrift();
  }

  /** A node of the old state is none of the memory allocated since. */
  twostate lemma OldApart(n: RuleResult, new newer: set<object>)
    requires Untouched(n) && fresh(newer)
    ensures Apart(n, newer)
  {
    forall r | r in n.recs
      ensures r !in newer && (r.value != null ==> r.value !in newer)
    {
      assert r in old(n.recs) && r.value == old(r.value);
    }
  }

  /** One call. */
  method OneOp(cache: CMRStaticResult, op: Op)
    requires cache.Valid() && (op.Add? ==> Denotes(op.src, op.e) && cache.Readable(op.src))
    modifies cache, cache.nodes`pNext
    ensures cache.Valid() && cache.Contents == AfterOne(op, old(cache.Contents))
    ensures |cache.lost| == |old(cache.lost)| + if op.DelAll? then |old(cache.Contents)| else 0
    ensures forall i :: 0 <= i < |cache.nodes| ==> cache.nodes[i] in old(cache.nodes) || fresh(cache.nodes[i])
    ensures forall n :: n in old(cache.nodes) && !Removes(op, n.ruleId) ==> n in cache.nodes
    ensures forall o :: o in cache.live + cache.freed ==> o in old(cache.live + cache.freed) || fresh(o)
  {
    hide CMRStaticResult.Valid, CMRStaticResult.LostSize, CMRStaticResult.Footprint, CMRStaticResult.Readable, Denotes, Without, Distinct;
    cache.HeadParts();
    match op {
      case Add(src, e) => var pNew := cache.AddStaticResult(src, e);
      case Del(id) => cache.DelRuleResult(id);
      case DelAll => cache.DelRuleResultAll();
    }
  }

  /** Links may change; the rest of the node and its rows have not. */
  twostate lemma StillThere(n: RuleResult)
    requires unchanged(n`ruleId, n`parmInfo, n`pRuleNode, n`resRecord, n`recs)
    requires forall r :: r in n.recs ==> unchanged(r) && (r.value != null ==> unchanged(r.value))
    ensures Untouched(n)
  {
  }

  lemma NodeAfterIs(nodes: seq<RuleResult>, i: nat)
    ensures NodeAfter(nodes, i) == if i + 1 < |nodes| then nodes[i + 1] else null
  {
  }

  lemma RowCount(recs: seq<ResultRec>, cols: nat, rows: seq<seq<Value>>)
    requires RowsAre(recs, cols, rows)
    ensures |recs| == |rows|
  {
  }

  lemma NoThings(recs: seq<ResultRec>)
    requires recs == []
    ensures Things(recs) == {}
  {
  }

  lemma ThingsSplit(recs: seq<ResultRec>, n: RuleResult, had: set<object>, owners: map<object, ResultRec>, k: nat)
    requires Owned(recs, n, had, owners) && k < |recs|
    ensures Things(recs[k..]) == Of(recs[k]) + Things(recs[k + 1..])
    ensures Of(recs[k]) !! Things(recs[k + 1..])
    ensures recs[k].value != null ==> (recs[k].value as object) != recs[k]
  {
    var all, rest := recs[k..], recs[k + 1..];
    assert all == [recs[k]] + rest;
    assert forall r :: r in all <==> r == recs[k] || r in rest;
    assert Blocks(all) == Blocks(rest) + if recs[k].value == null then {} else {recs[k].value};
    assert (set o: object | o in all) == (set o: object | o in rest) + {recs[k]};
    forall r | r in recs[k + 1..]
      ensures r != recs[k] && (r.value != null ==> r.value != recs[k].value)
    {
      var a :| k < a < |recs| && recs[a] == r;
    }
  }

  lemma LinkedPush(p: RuleResult, head: RuleResult?, nodes: seq<RuleResult>)
    requires Linked(head, nodes) && p.pNext == head
    ensures Linked(p, [p] + nodes)
  {
    var all := [p] + nodes;
    forall i | 0 <= i < |all|
      ensures all[i].pNext == NodeAfter(all, i)
    {
      assert i > 0 ==> all[i] == nodes[i - 1];
    }
  }

  lemma DenotesFields(n: RuleResult, e: Entry)
    requires Denotes(n, e)
    ensures n.ruleId == e.ruleId && n.parmInfo == e.parmInfo && n.pRuleNode.retCnt == e.retCnt
    ensures RecsLinked(n.resRecord, n.recs) && RowsAre(n.recs, e.retCnt, e.rows)
  {
  }

  lemma NewDenotes(n: RuleResult, e: Entry)
    requires n.ruleId == e.ruleId && n.parmInfo == e.parmInfo && n.pRuleNode.retCnt == e.retCnt
    requires RecsLinked(n.resRecord, n.recs) && RowsAre(n.recs, e.retCnt, e.rows)
    ensures Denotes(n, e)
  {
  }

  /** Nothing of the node has changed but perhaps its link to the next one. */
  twostate predicate Untouched(n: RuleResult)
    reads n, n.recs, Blocks(n.recs)
  {
    && n.ruleId == old(n.ruleId) && n.parmInfo == old(n.parmInfo) && n.pRuleNode == old(n.pRuleNode)
    && n.resRecord == old(n.resRecord) && n.recs == old(n.recs)
    && forall r :: r in n.recs ==>
      && r.value == old(r.value) && r.pNext == old(r.pNext) && r.owner == old(r.owner) && r.at == old(r.at)
      && (r.value != null ==> r.value[..] == old(r.value[..]))
  }

  twostate lemma DenotesUnchanged(n: RuleResult, new e: Entry)
    requires old(Denotes(n, e)) && unchanged(n) && forall r :: r in n.recs ==> unchanged(r) && (r.value != null ==> unchanged(r.value))
    ensures Denotes(n, e)
  {
    DenotesStays(n, e);
  }

  twostate lemma DenotesStays(n: RuleResult, new e: Entry)
    requires old(Denotes(n, e)) && Untouched(n)
    ensures Denotes(n, e)
  {
  }
}
