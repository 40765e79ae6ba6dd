// The text a rule reference leaves in its node: column and subscript without a mark between them.
module RuleNodes {
  import opened Options
  import opened CText
  import opened Template
  import opened BranchRule
  import opened BranchPrint

  /** The references whose node no other reference of the same rule leaves. */
  predicate OwnNode(col: Option<int>, sub: Subscript)
  {
    match sub
    case NoSub => col.None? || -9 <= col.value <= 99
    case Index(k) => col.Some? && if k < 0 then col.value != 0 else 1 <= col.value <= 9
    case HashIndex(_) => col.Some? && col.value != 0
    case HashChar(_) => false
  }

  /** The column that is written: 0 stands in for a missing one in front of a subscript. */
  function Column(col: Option<int>): int { if col.None? then 0 else col.value }

  // Numerals.

  lemma Pad2Value(i: int)
    ensures Atoi(Pad2(i)) == i && |Pad2(i)| >= 2
  {
    if 0 <= i < 10 {
      var s := "0" + Dec(i);
      assert Dec(i) == [DigitChar(i)] && s[..1] == "0" && s[..1][..0] == "";
      assert DigitsValue("0") == 0 by { assert "0"[..0] == ""; }
      assert DigitsValue(s) == i;
      AtoiDigits(s, "");
      assert s + "" == s;
    } else {
      AtoiPrinted(i);
      Pad2Long(i);
    }
  }

  lemma Pad2Long(i: int)
    requires !(0 <= i < 10)
    ensures |Pad2(i)| >= 2 && Pad2(i) == DecInt(i)
  {
    if i >= 10 {
      assert Dec(i) == Dec(i / 10) + [DigitChar(i % 10)];
    }
  }

  /** Digits with at most a sign in front, and a 0 in front only of one more digit. */
  lemma Pad2Chars(i: int)
    ensures |Pad2(i)| >= 2 && (Pad2(i)[0] == '-' <==> i < 0) && (Pad2(i)[0] == '0' <==> 0 <= i < 10)
    ensures forall k :: 1 <= k < |Pad2(i)| ==> IsDigit(Pad2(i)[k])
    ensures (IsDigit(Pad2(i)[0]) || Pad2(i)[0] == '-') && (|Pad2(i)| == 2 <==> -9 <= i <= 99)
  {
    if 0 <= i < 10 {
      assert Dec(i) == [DigitChar(i)];
    } else {
      Pad2Long(i);
      DecSize(if i < 0 then -i else i);
    }
  }

  lemma DecSize(n: nat)
    ensures (|Dec(n)| == 1 <==> n < 10) && (|Dec(n)| == 2 <==> 10 <= n < 100) && (Dec(n)[0] == '0' <==> n == 0)
  {
    if n >= 10 {
      assert Dec(n) == Dec(n / 10) + [DigitChar(n % 10)];
      assert n >= 100 ==> Dec(n / 10) == Dec(n / 10 / 10) + [DigitChar(n / 10 % 10)];
    }
  }

  /** Digits without a 0 in front are the numeral of their value. */
  lemma {:induction false} DecOfValue(s: string)
    requires s != "" && AllDigits(s) && (s[0] != '0' || |s| == 1)
    ensures Dec(DigitsValue(s)) == s
  {
    var front, last := s[..|s| - 1], s[|s| - 1];
    if front == "" {
      assert DigitsValue(front) == 0 && DigitChar(DigitValue(last)) == last;
    } else {
      DecOfValue(front);
      DecSize(DigitsValue(front));
      assert front[0] != '0';
      var v := DigitsValue(front);
      assert v > 0 && DigitsValue(s) == 10 * v + DigitValue(last);
      assert (10 * v + DigitValue(last)) / 10 == v && (10 * v + DigitValue(last)) % 10 == DigitValue(last);
      assert s == front + [last] && DigitChar(DigitValue(last)) == last;
    }
  }

  // Texts that only one reference leaves.

  lemma RuleTextParts(col: Option<int>, sub: Subscript)
    requires !sub.HashChar?
    ensures sub.NoSub? ==> RuleText(col, sub) == if col.None? then "" else Pad2(col.value)
    ensures !sub.NoSub? ==> RuleText(col, sub) == Pad2(Column(col)) + SubText(sub) && SubText(sub) != ""
  {
  }

  /** p is the first place behind the first character that holds no digit, or the end. */
  ghost predicate IsMark(t: string, p: nat) {
    1 <= p <= |t| && (forall i :: 1 <= i < p ==> IsDigit(t[i])) && (p < |t| ==> !IsDigit(t[p]))
  }

  lemma MarkUnique(t: string, p: nat, q: nat)
    requires IsMark(t, p) && IsMark(t, q)
    ensures p == q
  {
  }

  lemma MarkBehind(a: string, x: string)
    requires |a| >= 1 && (forall i :: 1 <= i < |a| ==> IsDigit(a[i])) && (x != "" ==> !IsDigit(x[0]))
    ensures IsMark(a + x, |a|)
  {
  }

  lemma NoMark(a: string, x: string)
    requires |a| >= 1 && (forall i :: 1 <= i < |a| ==> IsDigit(a[i])) && AllDigits(x)
    ensures IsMark(a + x, |a + x|)
  {
    var t := a + x;
    assert forall i :: |a| <= i < |t| ==> t[i] == x[i - |a|];
  }

  lemma SameParts(a: string, x: string, b: string, y: string)
    requires a + x == b + y && |a| == |b|
    ensures a == b && x == y
  {
    assert (a + x)[..|a|] == a && (b + y)[..|b|] == b && (a + x)[|a|..] == x && (b + y)[|b|..] == y;
  }

  predicate Marked(sub: Subscript) { sub.HashIndex? || (sub.Index? && sub.k < 0) }

  /** What a subscript text begins with tells its kind. */
  lemma SubChars(sub: Subscript)
    requires sub.Index? || sub.HashIndex?
    ensures SubText(sub) != "" && (Marked(sub) ==> !IsDigit(SubText(sub)[0])) && (!Marked(sub) ==> AllDigits(SubText(sub)))
    ensures SubText(sub)[0] == '#' <==> sub.HashIndex?
  {
  }

  lemma SameSub(sub: Subscript, sub': Subscript)
    requires (sub.Index? || sub.HashIndex?) && (sub'.Index? || sub'.HashIndex?) && SubText(sub) == SubText(sub')
    ensures sub == sub'
  {
    hide Atoi, DecInt;
    SubChars(sub);
    SubChars(sub');
    AtoiPrinted(sub.k);
    AtoiPrinted(sub'.k);
    assert sub.HashIndex? ==> SubText(sub)[1..] == DecInt(sub.k) && SubText(sub')[1..] == DecInt(sub'.k);
  }

  lemma SameColumn(i: int, j: int)
    requires Pad2(i) == Pad2(j)
    ensures i == j
  {
    hide Atoi, Pad2;
    Pad2Value(i);
    Pad2Value(j);
  }

  /** Where the digits of a node text end. */
  lemma RuleMark(col: Option<int>, sub: Subscript)
    requires !sub.HashChar? && (sub.NoSub? ==> col.Some?)
    ensures var t := RuleText(col, sub);
      IsMark(t, if Marked(sub) then |Pad2(Column(col))| else |t|) && |Pad2(Column(col))| >= 2
    ensures |RuleText(col, sub)| >= if sub.NoSub? then 2 else 3
    ensures Marked(sub) ==> |Pad2(Column(col))| < |RuleText(col, sub)|
  {
    hide Pad2, SubText;
    RuleTextParts(col, sub);
    var a := Pad2(Column(col));
    Pad2Chars(Column(col));
    if sub.NoSub? {
      NoMark(a, "");
      assert a + "" == a;
    } else {
      SubChars(sub);
      if Marked(sub) {
        MarkBehind(a, SubText(sub));
      } else {
        NoMark(a, SubText(sub));
      }
    }
  }

  /** A reference with a mark shares its text with references of the same column and subscript only. */
  lemma MarkedIsOwn(col: Option<int>, sub: Subscript, col': Option<int>, sub': Subscript)
    requires Marked(sub) && !sub'.HashChar? && RuleText(col, sub) == RuleText(col', sub')
    ensures sub' == sub && Column(col') == Column(col)
  {
    hide Pad2, SubText, RuleText, IsMark;
    RuleTextParts(col, sub);
    RuleTextParts(col', sub');
    RuleMark(col, sub);
    assert sub'.NoSub? ==> col'.Some?;
    RuleMark(col', sub');
    var a, b := Pad2(Column(col)), Pad2(Column(col'));
    MarkUnique(RuleText(col, sub), |a|, if Marked(sub') then |b| else |RuleText(col', sub')|);
    SameParts(a, SubText(sub), b, SubText(sub'));
    SameColumn(Column(col), Column(col'));
    SameSub(sub, sub');
  }

  /** A one-digit column and a plain subscript: the 0 in front gives the column away. */
  lemma DigitIsOwn(c: int, k: int, col': Option<int>, sub': Subscript)
    requires 0 <= c <= 9 && k >= 0 && !sub'.HashChar? && RuleText(Some(c), Index(k)) == RuleText(col', sub')
    ensures sub' == Index(k) && Column(col') == c
  {
    hide Pad2, SubText, RuleText, IsMark;
    RuleTextParts(Some(c), Index(k));
    RuleTextParts(col', sub');
    RuleMark(Some(c), Index(k));
    assert sub'.NoSub? ==> col'.Some?;
    RuleMark(col', sub');
    var t, a, b := RuleText(Some(c), Index(k)), Pad2(c), Pad2(Column(col'));
    Pad2Chars(c);
    Pad2Chars(Column(col'));
    MarkUnique(t, |t|, if Marked(sub') then |b| else |t|);
    assert t[0] == a[0] == '0' && t[0] == b[0];
    assert |a| == 2 && |b| == 2;
    assert sub'.NoSub? ==> t == b;
    SameParts(a, SubText(Index(k)), b, SubText(sub'));
    SameColumn(c, Column(col'));
    SameSub(Index(k), sub');
  }

  /** A column alone, of two characters, is shorter than any text with a subscript. */
  lemma ShortIsOwn(col: Option<int>, col': Option<int>, sub': Subscript)
    requires OwnNode(col, NoSub) && !sub'.HashChar? && RuleText(col, NoSub) == RuleText(col', sub')
    ensures sub' == NoSub && col' == col
  {
    hide Pad2, SubText, RuleText, IsMark;
    RuleTextParts(col, NoSub);
    RuleTextParts(col', sub');
    if col.Some? {
      Pad2Chars(col.value);
      if sub'.NoSub? {
        assert col'.Some?;
        SameColumn(col.value, col'.value);
      } else {
        RuleMark(col', sub');
      }
    } else if !sub'.NoSub? {
      RuleMark(col', sub');
    } else if col'.Some? {
      Pad2Chars(col'.value);
    }
  }

  // References that share their text.

  /** A wide column reads like a shorter one with its last digit as the subscript. */
  lemma WideColumn(c: int)
    requires c >= 100 || c <= -10
    ensures var n: nat := if c < 0 then -c else c;
      var e: int := if c < 0 then -(n / 10) else n / 10;
      RuleText(Some(e), Index(n % 10)) == RuleText(Some(c), NoSub)
  {
    var n: nat := if c < 0 then -c else c;
    assert Dec(n) == Dec(n / 10) + [DigitChar(n % 10)] && Dec(n % 10) == [DigitChar(n % 10)];
  }

  /** Two numerals written together are one numeral. */
  lemma Joined(n: nat, k: nat) returns (v: nat)
    requires n > 0
    ensures Dec(v) == Dec(n) + Dec(k) && v >= 10
  {
    hide Dec, DigitsValue;
    var s := Dec(n) + Dec(k);
    DecSize(n);
    assert s[0] == Dec(n)[0];
    DecOfValue(s);
    v := DigitsValue(s);
    DecSize(v);
  }

  lemma PlainTexts(c: int, e: int, k: nat)
    ensures RuleText(Some(c), NoSub) == Pad2(c) && RuleText(Some(e), Index(k)) == Pad2(e) + Dec(k)
  {
    hide Pad2, Dec;
  }

  lemma SignAndDigits(i: int, n: nat)
    requires (i >= 10 && n == i) || (i < 0 && n == -i)
    ensures Pad2(i) == (if i < 0 then ['-'] else []) + Dec(n)
  {
    hide Dec;
  }

  /** A column of two characters or more and a plain subscript read like one wide column. */
  lemma WideTwin(e: int, k: nat) returns (c: int)
    requires e >= 10 || e < 0
    ensures RuleText(Some(c), NoSub) == RuleText(Some(e), Index(k))
  {
    hide *;
    var n: nat := if e < 0 then -e else e;
    var v := Joined(n, k);
    c := if e < 0 then -(v as int) else v;
    PlainTexts(c, e, k);
    SignAndDigits(c, v);
    SignAndDigits(e, n);
    var sign := if e < 0 then ['-'] else [];
    assert sign + (Dec(n) + Dec(k)) == (sign + Dec(n)) + Dec(k);
  }

  /** A reference leaves a node of its own exactly when OwnNode says so. */
  lemma OwnNodeExactly(col: Option<int>, sub: Subscript)
    requires !sub.HashChar?
    ensures OwnNode(col, sub) <==> forall col': Option<int>, sub': Subscript ::
        !sub'.HashChar? && RuleText(col', sub') == RuleText(col, sub) ==> col' == col && sub' == sub
  {
    hide Pad2, SubText, RuleText;
    if OwnNode(col, sub) {
      forall col': Option<int>, sub': Subscript | !sub'.HashChar? && RuleText(col', sub') == RuleText(col, sub)
        ensures col' == col && sub' == sub
      {
        if sub.NoSub? {
          ShortIsOwn(col, col', sub');
        } else if Marked(sub) {
          MarkedIsOwn(col, sub, col', sub');
        } else {
          DigitIsOwn(col.value, sub.k, col', sub');
        }
      }
    } else {
      var col', sub' := Twin(col, sub);
    }
  }

  lemma Twin(col: Option<int>, sub: Subscript) returns (col': Option<int>, sub': Subscript)
    requires !sub.HashChar? && !OwnNode(col, sub)
    ensures !sub'.HashChar? && RuleText(col', sub') == RuleText(col, sub) && (col' != col || sub' != sub)
  {
    hide Pad2, SubText, RuleText;
    if sub.NoSub? {
      WideColumn(col.value);
      var c := col.value;
      var n: nat := if c < 0 then -c else c;
      col', sub' := Some(if c < 0 then -(n / 10) else n / 10), Index(n % 10);
    } else if Column(col) == 0 {
      col', sub' := if col.None? then Some(0) else None, sub;
      RuleTextParts(col, sub);
      RuleTextParts(col', sub);
    } else {
      var c := WideTwin(col.value, sub.k);
      col', sub' := Some(c), NoSub;
    }
  }

  /** The compiler cannot tell a wide column from its twin, for every rule. */
  lemma WideColumnsCollide(id: int, c: int)
    requires id != 0 && (c >= 100 || c <= -10)
    ensures var n: nat := if c < 0 then -c else c;
      var e: int := if c < 0 then -(n / 10) else n / 10;
      var a, b := RuleRef(id, "", Some(e), Index(n % 10)), RuleRef(id, "", Some(c), NoSub);
      && Canonical([a]) && Canonical([b]) && ParsedOf(Scan(PrintAll([a]), "")) == ParsedOf(Scan(PrintAll([b]), ""))
  {
    hide RuleText, PrintAll, Scan, ParsedOf;
    var n: nat := if c < 0 then -c else c;
    var e: int := if c < 0 then -(n / 10) else n / 10;
    var a, b := RuleRef(id, "", Some(e), Index(n % 10)), RuleRef(id, "", Some(c), NoSub);
    WideColumn(c);
    assert [a][1..] == [] && [b][1..] == [];
    assert SegOf(a) == SegOf(b) && SegsOf([a]) == [SegOf(a)] && SegsOf([b]) == [SegOf(b)];
    ParseUndoesPrint([a]);
    ParseUndoesPrint([b]);
  }

  /** The trim of a node takes nothing from a rule text, which ends in a digit. */
  lemma NothingToTrim(col: Option<int>, sub: Subscript)
    requires !sub.HashChar?
    ensures RTrim(RuleText(col, sub)) == RuleText(col, sub)
  {
    hide Dec, RuleText;
    RuleTextParts(col, sub);
    if !sub.NoSub? {
      LastDigit(sub.k);
      assert SubText(sub)[|SubText(sub)| - 1] == DecInt(sub.k)[|DecInt(sub.k)| - 1];
    } else if col.Some? {
      Pad2Chars(col.value);
    }
  }

  lemma LastDigit(i: int)
    ensures DecInt(i) != "" && IsDigit(DecInt(i)[|DecInt(i)| - 1])
  {
    hide Dec;
    var d := Dec(if i < 0 then -i else i);
    assert IsDigit(d[|d| - 1]);
  }

  /** So over all pieces: the node tells the reference, up to its params, exactly when OwnNode says so. */
  lemma NodeTellsReference(p: Piece)
    requires p.RuleRef? && PieceOk(p)
    ensures OwnNode(p.col, p.sub) <==>
      forall q: Piece :: PieceOk(q) && NodeOf(SegOf(q)) == NodeOf(SegOf(p)) ==> DropParams(q) == DropParams(p)
  {
    hide RuleText, OwnNode, RTrim;
    OwnNodeExactly(p.col, p.sub);
    NothingToTrim(p.col, p.sub);
    if OwnNode(p.col, p.sub) {
      forall q: Piece | PieceOk(q) && NodeOf(SegOf(q)) == NodeOf(SegOf(p))
        ensures DropParams(q) == DropParams(p)
      {
        assert q.RuleRef?;
        NothingToTrim(q.col, q.sub);
      }
    } else {
      var col, sub := Twin(p.col, p.sub);
      var q := RuleRef(p.id, p.params, col, sub);
      assert PieceOk(q) && NodeOf(SegOf(q)) == NodeOf(SegOf(p)) && DropParams(q) != DropParams(p);
    }
  }
}
