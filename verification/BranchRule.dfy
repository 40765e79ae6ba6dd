// ParseBranchRule: from a branch text to its chain of nodes.
module BranchRule {
  import opened CText
  import opened Template
  import opened Reader

  datatype TokType = TokNone | TokGlobal | TokRule | TokLocal

  /** QBRULE_SUBSTR without its link; tokInfo "" is the null pointer. */
  datatype QBNode = QBNode(tokType: TokType, itemCd: int, tokInfo: string)

  /** createQBNode; the null subStr of a parameter is passed as "". */
  function CreateQBNode(tokType: TokType, itemCd: int, subStr: string): (p: QBNode)
    ensures p.tokType == tokType && p.itemCd == itemCd && p.tokInfo <= subStr
    ensures p.tokInfo != "" ==> p.tokInfo[|p.tokInfo| - 1] != ' '
    ensures forall i :: |p.tokInfo| <= i < |subStr| ==> subStr[i] == ' '
  {
    QBNode(tokType, itemCd, RTrim(subStr))
  }

  function TokOf(k: Kind): TokType
  {
    match k
    case ItemKind => TokGlobal
    case RuleKind => TokRule
    case ParmKind => TokLocal
  }

  function NodeOf(s: Segment): QBNode
  {
    match s
    case Text(text) => CreateQBNode(TokNone, 0, text)
    case Ref(kind, code, sub) => CreateQBNode(TokOf(kind), code, sub)
  }

  ghost function NodesOf(segs: seq<Segment>): (nodes: seq<QBNode>)
    ensures |nodes| == |segs|
  {
    if segs == [] then [] else NodesOf(segs[..|segs| - 1]) + [NodeOf(segs[|segs| - 1])]
  }

  lemma NodesAppend(segs: seq<Segment>, s: Segment)
    ensures NodesOf(segs + [s]) == NodesOf(segs) + [NodeOf(s)]
  {
    assert (segs + [s])[..|segs|] == segs;
  }

  lemma NodesFlush(segs: seq<Segment>, pending: string)
    ensures NodesOf(segs + Flush(pending)) ==
            NodesOf(segs) + if pending == [] then [] else [CreateQBNode(TokNone, 0, pending)]
  {
    if pending == [] {
      assert segs + Flush(pending) == segs;
    } else {
      NodesAppend(segs, Text(pending));
    }
  }

  /** The returned chain (null is the empty one, also after an aborted parse), the exception
      thrown, or the read past the terminator. */
  datatype Parsed = Chain(nodes: seq<QBNode>) | Threw(error: Error) | Overran

  ghost function ParsedOf(o: Outcome): Parsed
  {
    match o.end
    case Complete => Chain(NodesOf(o.segs))
    case Aborted => Chain([])
    case Thrown(e) => Threw(e)
    case Overrun => Overran
  }

  method ParseBranchRule(source: string) returns (r: Parsed)
    ensures r == ParsedOf(Scan(source, ""))
  {
    hide Scan, At, ReadRef, NodesOf, RTrim;
    ghost var whole := Scan(source, "");
    ghost var segs: seq<Segment> := [];
    var pSource, tempStr := 0, "";
    var chain: seq<QBNode> := [];
    assert chain == NodesOf(segs);
    AtStart(source);
    assert source[0..] == source;
    while !AtEnd(source, pSource)
      invariant pSource <= |source|
      invariant chain == NodesOf(segs)
      invariant At(whole, segs, tempStr, source[pSource..])
      decreases |source| - pSource
    {
      ghost var t := source[pSource..];
      assert t[0] == source[pSource];
      if source[pSource] == SHIFT_OUT {
        var overrun, run, next := CopyRun(source, pSource);
        AtRun(whole, segs, tempStr, t, Find(t, SHIFT_IN, 0));
        if overrun {
          return Overran;
        }
        assert source[next..] == t[next - pSource..];
        tempStr, pSource := tempStr + run, next;
        continue;
      }
      if !IsOpener(source[pSource]) {
        AtPlain(whole, segs, tempStr, t);
        tempStr, pSource := tempStr + [source[pSource]], pSource + 1;
        continue;
      }
      NodesFlush(segs, tempStr);
      if |tempStr| > 0 {
        chain := chain + [CreateQBNode(TokNone, 0, tempStr)];
      }
      assert chain == NodesOf(segs + Flush(tempStr));
      if source[pSource] == '$' && (AtEnd(source, pSource + 1) || !IsDigit(source[pSource + 1])) {
        AtDollar(whole, segs, tempStr, t);
        segs, tempStr, pSource := segs + Flush(tempStr), "$", pSource + 1;
        continue;
      }
      AtRef(whole, segs, tempStr, t);
      var ref, next := GetRef(source, pSource);
      if !ref.Found? {
        return if ref.Throws? then Threw(ref.error) else Overran;
      }
      if ref.code == 0 {
        return Chain([]);
      }
      var node := Ref(KindOf(source[pSource]), ref.code, ref.sub);
      chain := chain + [NodeOf(node)];
      NodesAppend(segs + Flush(tempStr), node);
      assert t[ref.used..] == source[next..];
      segs, tempStr, pSource := segs + Flush(tempStr) + [node], "", next;
    }
    assert source[pSource..] == [];
    AtStop(whole, segs, tempStr);
    NodesFlush(segs, tempStr);
    if |tempStr| > 0 {
      chain := chain + [CreateQBNode(TokNone, 0, tempStr)];
    }
    return Chain(chain);
  }
}
