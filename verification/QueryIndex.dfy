// The recorded positions against the statement they index.
module QueryIndex {
  import opened CText
  import opened Template
  import opened BranchRule
  import opened OnePass
  import opened QueryRule

  ghost function Refs(segs: seq<Segment>): (refs: seq<Segment>)
    ensures forall i :: 0 <= i < |refs| ==> refs[i].Ref?
  {
    if segs == [] then []
    else Refs(segs[..|segs| - 1]) + if segs[|segs| - 1].Ref? then [segs[|segs| - 1]] else []
  }

  /** The literal text of a rule, in order. */
  ghost function Literal(segs: seq<Segment>): string
  {
    if segs == [] then ""
    else Literal(segs[..|segs| - 1]) + if segs[|segs| - 1].Text? then segs[|segs| - 1].text else []
  }

  /** Every slot of four characters ends before the next one, and before `limit`. */
  ghost predicate Spaced(binds: seq<Bind>, limit: nat)
  {
    binds != [] ==>
      var last := binds[|binds| - 1];
      last.pos + 4 <= limit && Spaced(binds[..|binds| - 1], last.pos)
  }

  lemma {:induction false} SpacedPairs(binds: seq<Bind>, limit: nat)
    requires Spaced(binds, limit)
    ensures forall k :: 0 <= k < |binds| ==> binds[k].pos + 4 <= limit
    ensures forall i, k :: 0 <= i < k < |binds| ==> binds[i].pos + 4 <= binds[k].pos
  {
    if binds != [] {
      var before := binds[..|binds| - 1];
      SpacedPairs(before, binds[|binds| - 1].pos);
      assert forall k :: 0 <= k < |before| ==> binds[k] == before[k];
    }
  }

  /** The text with the slot of each bind taken out. */
  ghost function Erase(buf: string, binds: seq<Bind>): string
    requires Spaced(binds, |buf|)
    decreases |binds|
  {
    if binds == [] then buf
    else
      var p := binds[|binds| - 1].pos;
      Erase(buf[..p], binds[..|binds| - 1]) + buf[p + 4..]
  }

  lemma SpacedLast(binds: seq<Bind>, limit: nat)
    requires binds != []
    ensures var p := binds[|binds| - 1].pos;
            Spaced(binds, limit) <==> p + 4 <= limit && Spaced(binds[..|binds| - 1], p)
  {
  }

  lemma EraseLast(buf: string, binds: seq<Bind>)
    requires binds != [] && Spaced(binds, |buf|)
    ensures var p := binds[|binds| - 1].pos;
            && p + 4 <= |buf| && Spaced(binds[..|binds| - 1], p)
            && Erase(buf, binds) == Erase(buf[..p], binds[..|binds| - 1]) + buf[p + 4..]
  {
  }

  lemma EraseNone(buf: string)
    ensures Spaced([], |buf|) && Erase(buf, []) == buf
  {
  }

  lemma EraseAppend(buf: string, text: string, binds: seq<Bind>)
    requires Spaced(binds, |buf|)
    ensures Spaced(binds, |buf + text|) && Erase(buf + text, binds) == Erase(buf, binds) + text
  {
    hide Spaced, Erase;
    if binds == [] {
      EraseNone(buf);
      EraseNone(buf + text);
    } else {
      var p := binds[|binds| - 1].pos;
      SpacedLast(binds, |buf|);
      SpacedLast(binds, |buf + text|);
      EraseLast(buf, binds);
      EraseLast(buf + text, binds);
      SplitAppend(buf, text, p);
      SplitAppend(buf, text, p + 4);
      var front := Erase(buf[..p], binds[..|binds| - 1]);
      assert front + (buf[p + 4..] + text) == front + buf[p + 4..] + text;
    }
  }

  lemma EraseSlot(buf: string, slot: string, binds: seq<Bind>, node: QBNode)
    requires Spaced(binds, |buf|) && |slot| == 4
    ensures Spaced(binds + [Bind(node, |buf|)], |buf| + 4)
    ensures Erase(buf + slot, binds + [Bind(node, |buf|)]) == Erase(buf, binds)
  {
    var all := binds + [Bind(node, |buf|)];
    assert all[..|all| - 1] == binds;
    SplitAppend(buf, slot, |buf|);
    assert buf[..|buf|] == buf && (buf + slot)[|buf| + 4..] == [];
  }

  /** What the slot of the k-th bind (from 0) holds: the first four characters of its placeholder. */
  function Slot(k: nat): (s: string)
    ensures |s| == 4
  {
    PlaceholderLength(k + 1);
    Placeholder(k + 1)[..4]
  }

  /** The bind list holds the nodes of the references, in order. */
  ghost predicate Listed(d: Draft, segs: seq<Segment>)
  {
    |d.binds| == |Refs(segs)| && forall k :: 0 <= k < |d.binds| ==> d.binds[k].node == NodeOf(Refs(segs)[k])
  }

  /** Each slot holds its numbered name. */
  ghost predicate Named(d: Draft)
  {
    && d.cur <= |d.buf|
    && forall k {:trigger d.binds[k]} :: 0 <= k < |d.binds| ==>
         d.binds[k].pos + 4 <= d.cur && d.buf[d.binds[k].pos..d.binds[k].pos + 4] == Slot(k)
  }

  /** Without the slots the text written so far is the literal text. */
  ghost predicate Woven(d: Draft, segs: seq<Segment>)
  {
    && d.cur <= |d.buf| && Spaced(d.binds, d.cur)
    && Erase(d.buf[..d.cur], d.binds) == Literal(segs)
  }

  /** Up to 99 references nothing sticks out behind the write position. */
  ghost predicate Flat(d: Draft, segs: seq<Segment>)
  {
    segs != [] && |d.binds| <= 99 ==> |d.buf| == d.cur
  }

  ghost predicate Indexed(d: Draft, segs: seq<Segment>)
  {
    d.cur <= |d.buf| && Listed(d, segs) && Named(d) && Woven(d, segs) && Flat(d, segs)
  }

  lemma {:induction false} NamedKept(d: Draft, r: Draft, k: nat)
    requires Named(d) && d.cur <= |r.buf| && r.buf[..d.cur] == d.buf[..d.cur] && k < |d.binds|
    ensures var p := d.binds[k].pos; p + 4 <= d.cur && r.buf[p..p + 4] == Slot(k)
  {
    hide Slot;
    var p := d.binds[k].pos;
    assert r.buf[p..p + 4] == r.buf[..d.cur][p..p + 4] == d.buf[..d.cur][p..p + 4] == d.buf[p..p + 4];
  }

  lemma {:induction false} IndexedText(d: Draft, segs: seq<Segment>, text: string)
    requires Indexed(d, segs)
    ensures Indexed(PutText(d, text), segs + [Text(text)])
  {
    hide Placeholder, Slot, NodeOf, Spaced;
    var r, all := PutText(d, text), segs + [Text(text)];
    assert all[..|segs|] == segs;
    assert Refs(all) == Refs(segs) && Literal(all) == Literal(segs) + text;
    assert r.buf[..d.cur] == d.buf[..d.cur] && r.buf[..r.cur] == d.buf[..d.cur] + text;
    EraseAppend(d.buf[..d.cur], text, d.binds);
    forall k | 0 <= k < |r.binds|
      ensures r.binds[k].pos + 4 <= r.cur && r.buf[r.binds[k].pos..r.binds[k].pos + 4] == Slot(k)
    {
      NamedKept(d, r, k);
    }
  }

  lemma {:induction false} IndexedRef(d: Draft, segs: seq<Segment>, s: Segment)
    requires Indexed(d, segs) && s.Ref?
    ensures Indexed(PutRef(d, NodeOf(s)), segs + [s])
  {
    hide Placeholder, NodeOf, Slot, Listed, Named, Woven, Put, Refs, Literal;
    var r, k := PutRef(d, NodeOf(s)), |d.binds|;
    PutRefText(d, NodeOf(s));
    ListedRef(d, r, segs, s);
    NamedRef(d, r, NodeOf(s));
    WovenRef(d, r, segs, s);
  }

  /** The write of one placeholder, seen as text. */
  lemma PutRefText(d: Draft, node: QBNode)
    requires d.cur <= |d.buf|
    ensures var r, k := PutRef(d, node), |d.binds|;
            && r.cur == d.cur + 4 && r.binds == d.binds + [Bind(node, d.cur)]
            && r.buf[..d.cur] == d.buf[..d.cur] && r.buf[..r.cur] == d.buf[..d.cur] + Slot(k)
            && (k < 99 ==> |r.buf| == r.cur)
  {
    hide Placeholder;
    PlaceholderLength(|d.binds| + 1);
  }

  lemma ListedRef(d: Draft, r: Draft, segs: seq<Segment>, s: Segment)
    requires Listed(d, segs) && s.Ref? && r.binds == d.binds + [Bind(NodeOf(s), d.cur)]
    ensures Listed(r, segs + [s])
  {
    hide NodeOf;
    assert (segs + [s])[..|segs|] == segs;
    assert Refs(segs + [s]) == Refs(segs) + [s];
  }

  lemma WovenRef(d: Draft, r: Draft, segs: seq<Segment>, s: Segment)
    requires Woven(d, segs) && s.Ref? && r.binds == d.binds + [Bind(NodeOf(s), d.cur)]
    requires r.cur == d.cur + 4 <= |r.buf| && r.buf[..r.cur] == d.buf[..d.cur] + Slot(|d.binds|)
    ensures Woven(r, segs + [s])
  {
    hide NodeOf, Slot, Spaced;
    assert (segs + [s])[..|segs|] == segs;
    assert Literal(segs + [s]) == Literal(segs);
    EraseSlot(d.buf[..d.cur], Slot(|d.binds|), d.binds, NodeOf(s));
  }

  lemma {:induction false} NamedRef(d: Draft, r: Draft, node: QBNode)
    requires Named(d) && r.binds == d.binds + [Bind(node, d.cur)] && r.cur == d.cur + 4 <= |r.buf|
    requires r.buf[..d.cur] == d.buf[..d.cur] && r.buf[..r.cur] == d.buf[..d.cur] + Slot(|d.binds|)
    ensures Named(r)
  {
    hide Placeholder, Slot;
    var k := |d.binds|;
    forall i | 0 <= i < |r.binds|
      ensures r.binds[i].pos + 4 <= r.cur && r.buf[r.binds[i].pos..r.binds[i].pos + 4] == Slot(i)
    {
      var p := r.binds[i].pos;
      if i < k {
        NamedKept(d, r, i);
      } else {
        assert r.buf[p..p + 4] == r.buf[..r.cur][p..] == Slot(k);
      }
    }
  }

  /** For every rule text: the binds are its references in order, their slots follow one another
      without overlap and hold the numbered names, and what is left is the literal text. */
  lemma {:induction false} EmitIndexed(segs: seq<Segment>, junk: string)
    ensures Indexed(Emit(segs, junk), segs)
  {
    if segs != [] {
      var before, s := segs[..|segs| - 1], segs[|segs| - 1];
      assert segs == before + [s];
      EmitIndexed(before, junk);
      EmitAppend(before, s, junk);
      if s.Text? {
        IndexedText(Emit(before, junk), before, s.text);
      } else {
        IndexedRef(Emit(before, junk), before, s);
      }
    }
  }

  // The statement itself: the buffer up to its terminator.

  /** The characters of the last name that stick out behind its slot. */
  function Overhang(segs: seq<Segment>, refs: nat): nat
  {
    PlaceholderLength(refs);
    if segs != [] && segs[|segs| - 1].Ref? then |Placeholder(refs)| - 4 else 0
  }

  /** Behind the write position the statement holds what sticks out of the last name, and nothing behind a text. */
  lemma StatementLength(segs: seq<Segment>, junk: string)
    requires segs != []
    ensures var d := Emit(segs, junk);
            && |d.buf| == d.cur + Overhang(segs, |Refs(segs)|)
            && (|d.buf| == d.cur <==> segs[|segs| - 1].Text? || |Refs(segs)| <= 99)
  {
    hide Placeholder, NodeOf, Refs;
    var before, s := segs[..|segs| - 1], segs[|segs| - 1];
    assert segs == before + [s];
    EmitAppend(before, s, junk);
    EmitIndexed(before, junk);
    EmitIndexed(segs, junk);
    PlaceholderLength(|Refs(segs)|);
  }

  /** The statement without its slots is the literal text exactly when nothing sticks out. */
  lemma ErasedStatement(segs: seq<Segment>, junk: string)
    requires segs != []
    ensures var d := Emit(segs, junk);
            && Spaced(d.binds, |d.buf|) && Erase(d.buf, d.binds) == Literal(segs) + d.buf[d.cur..]
            && (Erase(d.buf, d.binds) == Literal(segs) <==> segs[|segs| - 1].Text? || |Refs(segs)| <= 99)
  {
    hide Placeholder, NodeOf, Refs, Literal, Erase, Spaced, Emit;
    var d := Emit(segs, junk);
    EmitIndexed(segs, junk);
    StatementLength(segs, junk);
    assert d.buf == d.buf[..d.cur] + d.buf[d.cur..];
    EraseAppend(d.buf[..d.cur], d.buf[d.cur..], d.binds);
  }

  /** The text in front of the first reference. */
  ghost function LeadText(segs: seq<Segment>): string
  {
    if segs == [] || segs[0].Ref? then "" else segs[0].text + LeadText(segs[1..])
  }

  predicate AllText(segs: seq<Segment>) { forall i :: 0 <= i < |segs| ==> segs[i].Text? }

  lemma {:induction false} LeadTextSnoc(b: seq<Segment>, s: Segment)
    ensures LeadText(b + [s]) == LeadText(b) + if AllText(b) && s.Text? then s.text else ""
  {
    if b == [] {
      assert (b + [s])[1..] == [];
    } else {
      assert (b + [s])[1..] == b[1..] + [s];
      LeadTextSnoc(b[1..], s);
    }
  }

  /** What stands behind a slot that ends at `from`: the text up to the next name, or to the end. */
  ghost predicate Behind(d: Draft, from: nat, b: seq<Segment>)
  {
    && from <= d.cur <= |d.buf|
    && if AllText(b) then d.buf[from..] == LeadText(b) && d.cur == |d.buf|
       else LeadText(b) + ":" <= d.buf[from..d.cur]
  }

  /** The next segment is written at the write position. */
  lemma BehindStep(d: Draft, from: nat, b: seq<Segment>, s: Segment)
    requires from <= d.cur <= |d.buf|
    requires b == [] ==> from == d.cur && s.Text?
    requires b != [] ==> Behind(d, from, b)
    ensures var r := PutSegment(d, s); Behind(r, from, b + [s]) && r.buf[..from] == d.buf[..from]
  {
    hide Placeholder, NodeOf, LeadText, Behind;
    if s.Text? {
      TextBehind(d, from, b, s);
    } else {
      NameBehind(d, from, b, s);
    }
  }

  lemma AllTextSnoc(b: seq<Segment>, s: Segment)
    ensures AllText(b + [s]) <==> AllText(b) && s.Text?
  {
    var all := b + [s];
    assert all[|b|] == s && forall i :: 0 <= i < |b| ==> all[i] == b[i];
  }

  lemma TextBehind(d: Draft, from: nat, b: seq<Segment>, s: Segment)
    requires s.Text? && from <= d.cur <= |d.buf| && if b == [] then from == d.cur else Behind(d, from, b)
    ensures var r := PutText(d, s.text); Behind(r, from, b + [s]) && r.buf[..from] == d.buf[..from]
  {
    hide LeadText, AllText;
    var r := PutText(d, s.text);
    LeadTextSnoc(b, s);
    AllTextSnoc(b, s);
    NoLead();
    assert r.buf[from..] == d.buf[from..d.cur] + s.text && r.buf[from..r.cur] == r.buf[from..];
  }

  lemma NameBehind(d: Draft, from: nat, b: seq<Segment>, s: Segment)
    requires s.Ref? && b != [] && Behind(d, from, b)
    ensures var r := PutRef(d, NodeOf(s)); Behind(r, from, b + [s]) && r.buf[..from] == d.buf[..from]
  {
    hide Placeholder, NodeOf, LeadText, AllText;
    var r, name := PutRef(d, NodeOf(s)), Placeholder(|d.binds| + 1);
    LeadTextSnoc(b, s);
    AllTextSnoc(b, s);
    PlaceholderLength(|d.binds| + 1);
    NameStart(|d.binds| + 1);
    var x := d.buf[from..d.cur];
    assert r.buf[from..r.cur] == x + name[..4] && (x + name[..4])[|x|] == ':';
  }

  lemma NoLead()
    ensures LeadText([]) == "" && AllText([])
  {
  }

  lemma NameStart(k: nat)
    ensures Placeholder(k) != "" && Placeholder(k)[0] == ':'
  {
    PlaceholderLength(k);
  }

  /** Everything behind one reference, emitted segment by segment. */
  lemma {:induction false} BehindRef(a: seq<Segment>, ref: Segment, b: seq<Segment>, junk: string)
    requires ref.Ref? && b != []
    ensures var d, e := Emit(a, junk), Emit(a + [ref] + b, junk);
            Behind(e, d.cur + 4, b) && e.buf[..d.cur + 4] == d.buf[..d.cur] + Slot(|d.binds|)
    decreases |b|
  {
    hide Placeholder, NodeOf, LeadText, Slot, PutSegment, Behind, Emit;
    var d, before, s := Emit(a, junk), b[..|b| - 1], b[|b| - 1];
    assert b == before + [s] && a + [ref] + b == (a + [ref] + before) + [s];
    var f := Emit(a + [ref] + before, junk);
    EmitAppend(a + [ref] + before, s, junk);
    if before == [] {
      EmitAppend(a, ref, junk);
      PutRefText(d, NodeOf(ref));
      SegmentIsRef(d, ref);
      assert a + [ref] + before == a + [ref];
      FirstBehind(f, d.cur + 4, s);
    } else {
      BehindRef(a, ref, before, junk);
      BehindFrom(f, d.cur + 4, before);
      BehindStep(f, d.cur + 4, before, s);
    }
  }

  lemma FirstBehind(d: Draft, from: nat, s: Segment)
    requires from == d.cur <= |d.buf|
    ensures var r := PutSegment(d, s); Behind(r, from, [s]) && r.buf[..from] == d.buf[..from]
  {
    hide Placeholder, NodeOf, LeadText, Behind;
    assert [] + [s] == [s];
    if s.Text? {
      TextBehind(d, from, [], s);
    } else {
      NameFirst(d, s);
    }
  }

  lemma NameFirst(d: Draft, s: Segment)
    requires s.Ref? && d.cur <= |d.buf|
    ensures var r := PutRef(d, NodeOf(s)); Behind(r, d.cur, [s]) && r.buf[..d.cur] == d.buf[..d.cur]
  {
    hide Placeholder, NodeOf;
    var r, name := PutRef(d, NodeOf(s)), Placeholder(|d.binds| + 1);
    PlaceholderLength(|d.binds| + 1);
    NameStart(|d.binds| + 1);
    var b := [s];
    assert b[0].Ref?;
    assert !AllText(b) && LeadText(b) == "" && r.buf[d.cur..r.cur] == name[..4];
  }

  lemma SegmentIsRef(d: Draft, ref: Segment)
    requires d.cur <= |d.buf| && ref.Ref?
    ensures PutSegment(d, ref) == PutRef(d, NodeOf(ref))
  {
    hide Placeholder, NodeOf;
  }

  lemma BehindFrom(d: Draft, from: nat, b: seq<Segment>)
    requires d.cur <= |d.buf| && (b != [] ==> Behind(d, from, b))
    ensures b != [] ==> from <= d.cur
  {
    hide LeadText;
  }

  /** The rest of the name of the k-th reference, behind its slot: digits only, none for the first 99. */
  function NameRest(k: nat): (s: string)
    ensures AllDigits(s) && (s == "" <==> k < 99)
  {
    PlaceholderLength(k + 1);
    NameDigits(k + 1);
    Placeholder(k + 1)[4..]
  }

  lemma NameDigits(k: nat)
    ensures |Placeholder(k)| >= 4 && AllDigits(Placeholder(k)[4..])
  {
    PlaceholderLength(k);
    var n := Pad2(k);
    assert AllDigits(n);
    assert forall i :: 4 <= i < |Placeholder(k)| ==> Placeholder(k)[i] == n[i - 2];
  }

  /** The reference at j is followed by the end, or by text that begins with the rest of its name. */
  ghost predicate NameGoesOn(segs: seq<Segment>, j: nat)
    requires j < |segs|
  {
    j == |segs| - 1 || NameRest(|Refs(segs[..j])|) <= LeadText(segs[j + 1..])
  }

  /** The name of a reference stands in full at its position exactly when nothing was written over the part that
      sticks out, or just the same characters were. */
  lemma NameInFull(segs: seq<Segment>, j: nat, junk: string)
    requires j < |segs| && segs[j].Ref?
    ensures var d, k := Emit(segs, junk), |Refs(segs[..j])|;
            && k < |d.binds| && d.binds[k].node == NodeOf(segs[j]) && d.binds[k].pos <= |d.buf|
            && (Placeholder(k + 1) <= d.buf[d.binds[k].pos..] <==> NameGoesOn(segs, j))
  {
    hide Placeholder, NodeOf, LeadText, Slot, Emit, Behind, NameRest;
    var a, ref, b := segs[..j], segs[j], segs[j + 1..];
    var e, d, k := Emit(segs, junk), Emit(a, junk), |Refs(a)|;
    assert segs == a + [ref] + b;
    EmitIndexed(a, junk);
    EmitIndexed(segs, junk);
    BindAt(a, ref, b, junk);
    NameParts(k);
    if b == [] {
      assert a + [ref] + [] == a + [ref];
      LastName(a, ref, junk);
    } else {
      BehindRef(a, ref, b, junk);
      NameOrNot(e, d.cur, k, b);
    }
  }

  /** The k-th bind is the k-th reference, at the write position it was met. */
  lemma {:induction false} BindAt(a: seq<Segment>, ref: Segment, b: seq<Segment>, junk: string)
    requires ref.Ref?
    ensures var d, e := Emit(a, junk), Emit(a + [ref] + b, junk);
            |d.binds| == |Refs(a)| < |e.binds| && e.binds[|d.binds|] == Bind(NodeOf(ref), d.cur)
    decreases |b|
  {
    hide Placeholder, NodeOf;
    EmitIndexed(a, junk);
    if b == [] {
      assert a + [ref] + b == a + [ref];
      EmitAppend(a, ref, junk);
    } else {
      var before, s := b[..|b| - 1], b[|b| - 1];
      assert a + [ref] + b == (a + [ref] + before) + [s];
      BindAt(a, ref, before, junk);
      EmitAppend(a + [ref] + before, s, junk);
    }
  }

  lemma NameParts(k: nat)
    ensures Placeholder(k + 1) == Slot(k) + NameRest(k)
  {
    PlaceholderLength(k + 1);
  }

  lemma LastName(a: seq<Segment>, ref: Segment, junk: string)
    requires ref.Ref?
    ensures var d, e := Emit(a, junk), Emit(a + [ref], junk);
            d.cur <= |e.buf| && e.buf[d.cur..] == Placeholder(|d.binds| + 1)
  {
    hide Placeholder, NodeOf;
    EmitAppend(a, ref, junk);
  }

  /** Digits stand in front of a colon or the end exactly when they stand in the text there. */
  lemma NameOrNot(e: Draft, p: nat, k: nat, b: seq<Segment>)
    requires Behind(e, p + 4, b) && e.buf[p..p + 4] == Slot(k) && Placeholder(k + 1) == Slot(k) + NameRest(k)
    ensures Placeholder(k + 1) <= e.buf[p..] <==> NameRest(k) <= LeadText(b)
  {
    hide Placeholder, Slot, LeadText;
    var x, lead, rest := e.buf[p + 4..], LeadText(b), NameRest(k);
    assert e.buf[p..] == Slot(k) + x;
    assert Slot(k) + rest <= Slot(k) + x <==> rest <= x by { PrefixBehind(Slot(k), rest, x); }
    if !AllText(b) {
      assert x[..e.cur - (p + 4)] == e.buf[p + 4..e.cur];
      assert |lead| < |x| && x[..|lead|] == lead && x[|lead|] == ':';
      DigitsStop(rest, lead, x);
    }
  }

  /** A run of digits does not reach over a colon. */
  lemma DigitsStop(rest: string, lead: string, x: string)
    requires AllDigits(rest) && |lead| < |x| && x[..|lead|] == lead && x[|lead|] == ':'
    ensures rest <= x <==> rest <= lead
  {
    if |rest| > |lead| {
      assert IsDigit(rest[|lead|]) && rest[|lead|] != x[|lead|];
    } else {
      assert x[..|rest|] == lead[..|rest|];
    }
  }

  lemma PrefixBehind(a: string, r: string, x: string)
    ensures a + r <= a + x <==> r <= x
  {
    assert (a + r)[|a|..] == r && (a + x)[|a|..] == x;
    if a + r <= a + x {
      assert (a + x)[..|a + r|][|a|..] == x[..|r|];
    }
  }

  /** With at most 99 references every one has its name in full at its position. */
  lemma SlotsNameTheirBinds(segs: seq<Segment>, junk: string)
    requires |Refs(segs)| <= 99
    ensures var d := Emit(segs, junk);
            forall j :: 0 <= j < |segs| && segs[j].Ref? ==> var k := |Refs(segs[..j])|;
              k < |d.binds| && d.binds[k].pos <= |d.buf| && Placeholder(k + 1) <= d.buf[d.binds[k].pos..]
  {
    hide Placeholder, NodeOf, Emit, NameGoesOn;
    EmitIndexed(segs, junk);
    forall j | 0 <= j < |segs| && segs[j].Ref?
      ensures var d, k := Emit(segs, junk), |Refs(segs[..j])|;
        k < |d.binds| && d.binds[k].pos <= |d.buf| && Placeholder(k + 1) <= d.buf[d.binds[k].pos..]
    {
      NameInFull(segs, j, junk);
      ShortName(segs, j);
    }
  }

  lemma ShortName(segs: seq<Segment>, j: nat)
    requires j < |segs| && |Refs(segs[..j])| < 99
    ensures NameGoesOn(segs, j)
  {
    hide NameRest, LeadText;
    assert NameRest(|Refs(segs[..j])|) == "";
  }

  lemma HundredthSlot()
    ensures Slot(99) == Slot(9)
  {
    PlaceholderLength(10);
    assert Dec(10) == [DigitChar(1), DigitChar(0)] by { assert Dec(1) == [DigitChar(1)]; }
    assert Dec(100) == Dec(10) + [DigitChar(0)];
    assert Placeholder(100) == Placeholder(10) + [DigitChar(0)];
  }

  /** From the 100th reference on the names repeat: its slot reads like the 10th. */
  lemma HundredthBindCollides(segs: seq<Segment>, junk: string)
    requires |Refs(segs)| >= 100
    ensures var d := Emit(segs, junk);
            && |d.binds| >= 100 && d.binds[9].pos + 4 <= d.binds[99].pos <= |d.buf| - 4
            && d.buf[d.binds[99].pos..d.binds[99].pos + 4] == d.buf[d.binds[9].pos..d.binds[9].pos + 4]
  {
    hide *;
    var d := Emit(segs, junk);
    EmitIndexed(segs, junk);
    IndexedParts(d, segs);
    SpacedPair(d.binds, d.cur, 9, 99);
    NamedKept(d, d, 9);
    NamedKept(d, d, 99);
    HundredthSlot();
  }

  lemma IndexedParts(d: Draft, segs: seq<Segment>)
    requires Indexed(d, segs)
    ensures d.cur <= |d.buf| && |d.binds| == |Refs(segs)| && Named(d) && Spaced(d.binds, d.cur)
  {
    hide Slot, Refs, Spaced;
  }

  lemma SpacedPair(binds: seq<Bind>, limit: nat, i: nat, k: nat)
    requires Spaced(binds, limit) && i < k < |binds|
    ensures binds[i].pos + 4 <= binds[k].pos && binds[k].pos + 4 <= limit
  {
    hide Spaced;
    SpacedPairs(binds, limit);
  }

  /** Nothing is ever written exactly when stripping leaves nothing; the statement is then
      whatever the uninitialised buffer held. */
  lemma {:induction false} NothingWritten(t: string, pending: string)
    ensures QueryScan(t, pending) == Outcome([], Complete) <==> pending == [] && Strip(t) == []
    decreases |t|
  {
    hide ReadRef;
    if t == [] {
    } else if t[0] == SHIFT_OUT {
      var e := Find(t, SHIFT_IN, 0);
      if e < |t| {
        NothingWritten(t[e + 1..], pending + t[..e + 1]);
      }
    } else if PairAt(t, 0, '-', '-') {
      NothingWritten(t[Find(t, '\n', 0)..], pending);
    } else if PairAt(t, 0, '\n', '\n') {
      NothingWritten(t[1..], pending);
    } else if Removable(t) {
      NothingWritten(t[CommentLength(t)..], pending);
    } else if PairAt(t, 0, '/', '*') {
      NothingWritten(t[2..], pending + t[..2]);
    } else if !IsOpener(t[0]) {
      NothingWritten(t[1..], pending + [t[0]]);
    } else if DollarText(t) {
      NothingWritten(t[1..], "$");
    }
  }

  lemma StatementWithoutText(source: string, junk: string)
    requires QueryScan(source, "").end == Complete
    ensures Strip(source) == [] ==> Emit(QueryScan(source, "").segs, junk).buf == junk
    ensures Strip(source) != [] ==> forall other :: Emit(QueryScan(source, "").segs, junk) == Emit(QueryScan(source, "").segs, other)
  {
    NothingWritten(source, "");
    var segs := QueryScan(source, "").segs;
    if Strip(source) != [] {
      forall other ensures Emit(segs, junk) == Emit(segs, other) {
        EmitForgets(segs, junk, other);
      }
    }
  }

  lemma {:induction false} EmitForgets(segs: seq<Segment>, junk: string, other: string)
    requires segs != []
    ensures Emit(segs, junk) == Emit(segs, other)
  {
    hide NodeOf, Placeholder;
    if |segs| > 1 {
      EmitForgets(segs[..|segs| - 1], junk, other);
    }
  }
}
