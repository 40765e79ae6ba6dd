// getResulRecType against the builders it selects: what is accepted, and what is built from it.
module ResultBuilder {
  import opened Options

  // Token types up to CONST_B are constants.
  datatype TokenType = ConstC | ConstL | ConstN | ConstF | ConstB | LeftP | RightP | Comma | OtherToken

  /** A CRULE_STMT inside an expression: its type, whether pExpression is set, and its value. */
  datatype Token = Token(tokType: TokenType, hasExpr: bool,
                         longVal: int, dblVal: real, boolVal: bool, tokInfo: Option<string>)

  datatype Value = Dbl(d: real) | Str(s: string) | LongStr(ls: Option<string>) | Long(l: int) | Bool(b: bool) | Unset

  // The token chain (pNext) of one expression, and the chain of expressions (pExpression).
  type Expr = seq<Token>
  type Stmt = seq<Expr>

  const STR_VALUE_SIZE: nat := 50

  predicate IsConst(t: TokenType) { t.ConstC? || t.ConstL? || t.ConstN? || t.ConstF? || t.ConstB? }

  /** (long) of a double: towards zero. */
  function Truncate(x: real): int { if x >= 0.0 then x.Floor else -((-x).Floor) }

  /** The value setResultValue stores for a column of type retType. */
  function ResultValue(retType: TokenType, p: Token): Value
  {
    match retType
    case ConstF => Dbl(if p.tokType == ConstN then p.longVal as real else if p.tokType == ConstF then p.dblVal else 0.0)
    case ConstC =>
      Str(if p.tokInfo.None? then ""
          else if |p.tokInfo.value| > STR_VALUE_SIZE then p.tokInfo.value[..STR_VALUE_SIZE] else p.tokInfo.value)
    case ConstL => LongStr(p.tokInfo)
    case ConstN => Long(if p.tokType == ConstF then Truncate(p.dblVal) else if p.tokType == ConstN then p.longVal else 0)
    case ConstB => Bool(if p.tokType == ConstB then p.boolVal else p.longVal != 0)
    case _ => Unset
  }

  // What a conversion keeps of the value.

  /** The number a constant stands for; 0 for one that is no number. */
  function NumberOf(p: Token): real
  {
    if p.tokType.ConstN? then p.longVal as real else if p.tokType.ConstF? then p.dblVal else 0.0
  }

  function TextOf(p: Token): string { if p.tokInfo.None? then "" else p.tokInfo.value }

  /** l is x without its decimals: no further from 0 than x, by less than 1, and not on the other side. */
  predicate WholePart(l: int, x: real)
  {
    if x >= 0.0 then l >= 0 && l as real <= x < l as real + 1.0
    else l <= 0 && l as real - 1.0 < x <= l as real
  }

  /** v is the constant p in a column of this type: a double column holds its number, an integer column the whole part,
      a string column the text as far as it fits, a long string column all of it, a Boolean column whether it is not 0. */
  predicate Stands(v: Value, retType: TokenType, p: Token)
  {
    match retType
    case ConstF => v.Dbl? && v.d == NumberOf(p)
    case ConstN => v.Long? && WholePart(v.l, NumberOf(p))
    case ConstC => v.Str? && v.s <= TextOf(p) && |v.s| <= 50 && (|v.s| < 50 ==> v.s == TextOf(p))
    case ConstL => v.LongStr? && v.ls == p.tokInfo
    case ConstB => v.Bool? && (p.tokType.ConstB? ==> v.b == p.boolVal) && (!p.tokType.ConstB? ==> (v.b <==> p.longVal != 0))
    case _ => v.Unset?
  }

  lemma WholePartUnique(l: int, k: int, x: real)
    requires WholePart(l, x) && WholePart(k, x)
    ensures l == k
  {
  }

  lemma TruncateIs(x: real)
    ensures WholePart(Truncate(x), x)
  {
  }

  /** The value stored is the one that stands for the constant, and no other value does. */
  lemma StandsExactly(v: Value, retType: TokenType, p: Token)
    ensures Stands(v, retType, p) <==> v == ResultValue(retType, p)
  {
    hide Truncate, WholePart;
    TruncateIs(p.dblVal);
    WholeIs(p.longVal);
    WholeIs(0);
    if retType.ConstN? && v.Long? && WholePart(v.l, NumberOf(p)) {
      WholePartUnique(v.l, ResultValue(retType, p).l, NumberOf(p));
    }
  }

  lemma WholeIs(n: int)
    ensures WholePart(n, n as real)
  {
  }

  /** An integer constant is the same number in a double column and in an integer column. */
  lemma SameNumber(p: Token)
    requires p.tokType.ConstN?
    ensures ResultValue(ConstF, p).d == ResultValue(ConstN, p).l as real == p.longVal as real
  {
    hide ResultValue;
    StandsExactly(ResultValue(ConstF, p), ConstF, p);
    StandsExactly(ResultValue(ConstN, p), ConstN, p);
    WholeIs(p.longVal);
    WholePartUnique(ResultValue(ConstN, p).l, p.longVal, p.longVal as real);
  }

  /** One constant and nothing else. */
  predicate IsSingle(e: Expr) { |e| == 1 && IsConst(e[0].tokType) }

  /** The expressions in front of the first one that is not a single constant. */
  function Singles(s: Stmt): (n: nat)
    ensures n <= |s| && (forall i :: 0 <= i < n ==> IsSingle(s[i])) && (n < |s| ==> !IsSingle(s[n]))
  {
    if s == [] || !IsSingle(s[0]) then 0 else 1 + Singles(s[1..])
  }

  /** '(' followed by constants, commas and parentheses only, none of them heading an expression. */
  predicate Bracketed(e: Expr)
  {
    && e != [] && e[0].tokType.LeftP?
    && forall i :: 1 <= i < |e| ==> Listable(e[i])
  }

  predicate Listable(t: Token)
  {
    !t.hasExpr && (IsConst(t.tokType) || t.tokType.Comma? || t.tokType.LeftP? || t.tokType.RightP?)
  }

  /** Parentheses behind the first token, not counting a ')' at the very end. */
  function Lefts(e: Expr, to: nat): nat
    requires to <= |e|
  {
    if to <= 1 then 0 else Lefts(e, to - 1) + if e[to - 1].tokType.LeftP? then 1 else 0
  }

  function Rights(e: Expr, to: nat): nat
    requires to <= |e|
  {
    if to <= 1 then 0 else Rights(e, to - 1) + if e[to - 1].tokType.RightP? && to < |e| then 1 else 0
  }

  /** The classification: -1 error, 0 dynamic, 1 constants, 2 array, 3 two-dimensional array. */
  function RecType(s: Stmt): int
  {
    var n := Singles(s);
    if n == |s| then 1
    else if s[n] == [] then -1
    else if !s[0][0].tokType.LeftP? || !Bracketed(s[0]) then 0
    else if Lefts(s[0], |s[0]|) != Rights(s[0], |s[0]|) then -1
    else if Lefts(s[0], |s[0]|) == 0 then 2
    else 3
  }

  method GetResultRecType(s: Stmt) returns (mode: int)
    ensures mode == RecType(s)
  {
    var bCheck, k := true, 0;
    while k < |s|
      invariant k <= |s| && (forall i :: 0 <= i < k ==> IsSingle(s[i]))
      invariant bCheck
    {
      if s[k] == [] {
        SinglesAt(s, k);
        return -1;
      }
      if !IsConst(s[k][0].tokType) || |s[k]| > 1 {
        SinglesAt(s, k);
        bCheck := false;
        break;
      }
      k := k + 1;
    }
    if bCheck {
      SinglesAt(s, |s|);
      return 1;
    }
    var e := s[0];
    if !e[0].tokType.LeftP? {
      return 0;
    }
    var nLeftP, nRightP, i := 0, 0, 1;
    while i < |e|
      invariant 1 <= i <= |e|
      invariant forall j :: 1 <= j < i ==> Listable(e[j])
      invariant nLeftP == Lefts(e, i) && nRightP == Rights(e, i)
    {
      if e[i].hasExpr {
        assert !Listable(e[i]);
        return 0;
      }
      if !IsConst(e[i].tokType) {
        if e[i].tokType.LeftP? {
          nLeftP := nLeftP + 1;
        } else if e[i].tokType.RightP? {
          if i + 1 < |e| {
            nRightP := nRightP + 1;
          }
        } else if !e[i].tokType.Comma? {
          assert !Listable(e[i]);
          return 0;
        }
      }
      i := i + 1;
    }
    return if nLeftP != nRightP then -1 else if nLeftP == 0 then 2 else 3;
  }

  lemma {:induction false} SinglesAt(s: Stmt, k: nat)
    requires k <= |s| && (forall i :: 0 <= i < k ==> IsSingle(s[i])) && (k < |s| ==> !IsSingle(s[k]))
    ensures Singles(s) == k
  {
    if k > 0 {
      SinglesAt(s[1..], k - 1);
    }
  }

  /** Tokens 0..k read "( const (, const)* )". */
  predicate ListEndsAt(e: Expr, k: int)
  {
    && 2 <= k < |e| && k % 2 == 0
    && e[0].tokType.LeftP? && e[k].tokType.RightP?
    && forall i :: 1 <= i < k ==> if i % 2 == 1 then IsConst(e[i].tokType) else e[i].tokType.Comma?
  }

  lemma AllStand(retType: TokenType, e: Expr, vs: seq<Value>)
    requires 2 * |vs| <= |e| && forall j :: 0 <= j < |vs| ==> vs[j] == ResultValue(retType, e[2 * j + 1])
    ensures forall j :: 0 <= j < |vs| ==> Stands(vs[j], retType, e[2 * j + 1])
  {
    hide ResultValue, Stands;
    forall j | 0 <= j < |vs|
      ensures Stands(vs[j], retType, e[2 * j + 1])
    {
      StandsExactly(vs[j], retType, e[2 * j + 1]);
    }
  }

  /** The values of the constants at 1, 3, ..., k - 1. */
  function Values(retType: TokenType, e: Expr, k: nat): (vs: seq<Value>)
    requires k <= |e|
    ensures |vs| == k / 2 && forall j :: 0 <= j < |vs| ==> vs[j] == ResultValue(retType, e[2 * j + 1])
    ensures forall j :: 0 <= j < |vs| ==> Stands(vs[j], retType, e[2 * j + 1])
  {
    var vs := seq(k / 2, j requires 0 <= j < k / 2 => ResultValue(retType, e[2 * j + 1]));
    AllStand(retType, e, vs);
    vs
  }

  /** None is the null record list. */
  method BuildResultArrayRec(e: Expr, retType: seq<TokenType>, retCnt: nat) returns (r: Option<seq<Value>>)
    requires e != [] && e[0].tokType.LeftP? && |retType| >= retCnt
    ensures r.Some? <==> retCnt == 1 && exists k :: ListEndsAt(e, k)
    ensures r.Some? ==> exists k :: ListEndsAt(e, k) && r.value == Values(retType[0], e, k)
    ensures r.Some? ==> 2 * |r.value| < |e| && forall j :: 0 <= j < |r.value| ==> Stands(r.value[j], retType[0], e[2 * j + 1])
  {
    if retCnt != 1 {
      return None;
    }
    var values: seq<Value> := [];
    var p := 1;
    while p < |e|
      invariant 1 <= p <= |e| && p % 2 == 1
      invariant forall i :: 1 <= i < p ==> if i % 2 == 1 then IsConst(e[i].tokType) else e[i].tokType.Comma?
      invariant values == Values(retType[0], e, p - 1)
    {
      if !IsConst(e[p].tokType) {
        return None;
      }
      values := values + [ResultValue(retType[0], e[p])];
      assert values == Values(retType[0], e, p + 1) by {
        forall j | 0 <= j < |values| ensures values[j] == ResultValue(retType[0], e[2 * j + 1]) {
        }
      }
      p := p + 1;
      if p == |e| {
        return None;
      }
      if e[p].tokType.RightP? {
        assert ListEndsAt(e, p);
        return Some(values);
      }
      if !e[p].tokType.Comma? {
        return None;
      }
      p := p + 1;
    }
    return None;
  }

  /** One constant per expression, converted column by column.  None is a store behind the retCnt values: the source
      does not compare the number of expressions with the number of columns. */
  method BuildResultSingleRec(s: Stmt, retType: seq<TokenType>, retCnt: nat) returns (r: Option<seq<Value>>)
    requires retCnt <= |retType| && forall i :: 0 <= i < |s| ==> IsSingle(s[i])
    ensures r.Some? <==> |s| <= retCnt
    ensures r.Some? ==> |r.value| == |s|
    ensures r.Some? ==> forall i :: 0 <= i < |s| ==> IsSingle(s[i]) && Stands(r.value[i], retType[i], s[i][0])
  {
    var values: seq<Value> := [];
    var i := 0;
    while i < |s|
      invariant i == |values| <= |s| && i <= retCnt
      invariant forall j :: 0 <= j < i ==> Stands(values[j], retType[j], s[j][0])
    {
      if i == retCnt {
        return None;
      }
      StandsExactly(ResultValue(retType[i], s[i][0]), retType[i], s[i][0]);
      values := values + [ResultValue(retType[i], s[i][0])];
      i := i + 1;
    }
    r := Some(values);
  }

  /** The mode reported to the caller and the values built, none for the modes up to 0; or the store out of bounds. */
  datatype Built = Built(mode: int, values: seq<Value>) | Overrun

  method BuildResultRec(s: Stmt, retType: seq<TokenType>, retCnt: nat) returns (r: Built)
    requires retCnt <= |retType|
    ensures r == Overrun <==> RecType(s) == 1 && |s| > retCnt
    ensures RecType(s) <= 0 ==> r == Built(RecType(s), [])
    ensures RecType(s) == 1 && |s| <= retCnt ==> r.mode == 1 && |r.values| == |s|
    ensures RecType(s) == 1 && |s| <= retCnt ==>
      forall i :: 0 <= i < |s| ==> IsSingle(s[i]) && Stands(r.values[i], retType[i], s[i][0])
    ensures RecType(s) == 2 && retCnt == 1 && ListEndsAt(s[0], |s[0]| - 1) ==>
      r.Built? && r.mode == 2 && |r.values| == (|s[0]| - 1) / 2
      && forall j :: 0 <= j < |r.values| ==> Stands(r.values[j], retType[0], s[0][2 * j + 1])
    ensures RecType(s) == 2 && !(retCnt == 1 && ListEndsAt(s[0], |s[0]| - 1)) ==> r == Built(-1, [])
    ensures RecType(s) == 3 ==> r == Built(-1, [])
  {
    var mode := GetResultRecType(s);
    r := Built(mode, []);
    if mode == 1 {
      var values := BuildResultSingleRec(s, retType, retCnt);
      r := if values.Some? then Built(1, values.value) else Overrun;
    } else if mode == 2 {
      var values := BuildResultArrayRec(s[0], retType, retCnt);
      ArrayEnd(s);
      r := if values.Some? then Built(2, values.value) else Built(-1, []);
    } else if mode == 3 {
      r := Built(-1, []);
    }
  }

  lemma {:induction false} NoInnerRights(e: Expr, to: nat, i: nat)
    requires to <= |e| && Rights(e, to) == 0 && 1 <= i < to && i + 1 < |e|
    ensures !e[i].tokType.RightP?
  {
    if i < to - 1 {
      NoInnerRights(e, to - 1, i);
    }
  }

  /** In an array only the last token can be ')', so a list that ends takes in the whole chain. */
  lemma ArrayEnd(s: Stmt)
    requires RecType(s) == 2
    ensures forall k :: ListEndsAt(s[0], k) ==> k == |s[0]| - 1
  {
    var e := s[0];
    forall k | ListEndsAt(e, k) ensures k == |e| - 1 {
      if k < |e| - 1 {
        NoInnerRights(e, |e|, k);
      }
    }
  }

  /** The arrays are exactly the statements that begin with a flat bracket expression: no inner parenthesis, and
      ')' at its end at most. */
  lemma {:induction false} ArrayForm(s: Stmt)
    ensures RecType(s) == 2 <==>
      s != [] && Bracketed(s[0]) &&
      forall i :: 1 <= i < |s[0]| ==> !s[0][i].tokType.LeftP? && (s[0][i].tokType.RightP? ==> i == |s[0]| - 1)
  {
    if s != [] && Bracketed(s[0]) {
      assert !IsSingle(s[0]);
      SinglesAt(s, 0);
      FlatExactly(s[0]);
    }
  }

  lemma {:induction false} FlatExactly(e: Expr)
    requires e != []
    ensures Lefts(e, |e|) == 0 && Rights(e, |e|) == 0 <==>
      forall i :: 1 <= i < |e| ==> !e[i].tokType.LeftP? && (e[i].tokType.RightP? ==> i == |e| - 1)
  {
    if Lefts(e, |e|) == 0 && Rights(e, |e|) == 0 {
      forall i | 1 <= i < |e| ensures !e[i].tokType.LeftP? && (e[i].tokType.RightP? ==> i == |e| - 1) {
        NoInnerLefts(e, |e|, i);
        if i + 1 < |e| {
          NoInnerRights(e, |e|, i);
        }
      }
    } else if forall i :: 1 <= i < |e| ==> !e[i].tokType.LeftP? && (e[i].tokType.RightP? ==> i == |e| - 1) {
      FlatCounts(e, |e|);
    }
  }

  lemma {:induction false} NoInnerLefts(e: Expr, to: nat, i: nat)
    requires to <= |e| && Lefts(e, to) == 0 && 1 <= i < to
    ensures !e[i].tokType.LeftP?
  {
    if i < to - 1 {
      NoInnerLefts(e, to - 1, i);
    }
  }

  lemma {:induction false} FlatCounts(e: Expr, to: nat)
    requires to <= |e|
    requires forall i :: 1 <= i < |e| ==> !e[i].tokType.LeftP? && (e[i].tokType.RightP? ==> i == |e| - 1)
    ensures Lefts(e, to) == 0 && Rights(e, to) == 0
  {
    if to > 1 {
      FlatCounts(e, to - 1);
    }
  }

  /** The parentheses that count: behind the first token, a ')' only when a token follows. */
  ghost function LeftPlaces(e: Expr, to: nat): set<nat>
    requires to <= |e|
  {
    set i | 1 <= i < to && e[i].tokType.LeftP?
  }

  ghost function RightPlaces(e: Expr, to: nat): set<nat>
    requires to <= |e|
  {
    set i | 1 <= i < to && i + 1 < |e| && e[i].tokType.RightP?
  }

  lemma LeftStep(e: Expr, to: nat)
    requires 1 < to <= |e|
    ensures |LeftPlaces(e, to)| == |LeftPlaces(e, to - 1)| + if e[to - 1].tokType.LeftP? then 1 else 0
  {
    var fewer := LeftPlaces(e, to - 1);
    if e[to - 1].tokType.LeftP? {
      assert LeftPlaces(e, to) == fewer + {to - 1};
    } else {
      assert LeftPlaces(e, to) == fewer;
    }
  }

  lemma RightStep(e: Expr, to: nat)
    requires 1 < to <= |e|
    ensures |RightPlaces(e, to)| == |RightPlaces(e, to - 1)| + if e[to - 1].tokType.RightP? && to < |e| then 1 else 0
  {
    var fewer := RightPlaces(e, to - 1);
    if e[to - 1].tokType.RightP? && to < |e| {
      assert RightPlaces(e, to) == fewer + {to - 1};
    } else {
      assert RightPlaces(e, to) == fewer;
    }
  }

  lemma NoPlaces(e: Expr, to: nat)
    requires to <= |e| && to <= 1
    ensures |LeftPlaces(e, to)| == |RightPlaces(e, to)| == 0
  {
  }

  lemma {:induction false} CountsAre(e: Expr, to: nat)
    requires to <= |e|
    ensures Lefts(e, to) == |LeftPlaces(e, to)| && Rights(e, to) == |RightPlaces(e, to)|
  {
    hide LeftPlaces, RightPlaces;
    if to <= 1 {
      NoPlaces(e, to);
    } else {
      CountsAre(e, to - 1);
      LeftStep(e, to);
      RightStep(e, to);
    }
  }

  predicate HasBrackets(s: Stmt) { s != [] && Bracketed(s[0]) }

  /** The classes, for every statement: all constants; an empty expression behind constants, or brackets that do not
      match; brackets without and with inner ones; and everything else. */
  lemma ClassExactly(s: Stmt)
    ensures RecType(s) == 1 <==> forall i :: 0 <= i < |s| ==> IsSingle(s[i])
    ensures RecType(s) == -1 <==>
      || (exists n :: 0 <= n < |s| && s[n] == [] && forall i :: 0 <= i < n ==> IsSingle(s[i]))
      || (HasBrackets(s) && |LeftPlaces(s[0], |s[0]|)| != |RightPlaces(s[0], |s[0]|)|)
    ensures RecType(s) == 2 <==> HasBrackets(s) && |LeftPlaces(s[0], |s[0]|)| == |RightPlaces(s[0], |s[0]|)| == 0
    ensures RecType(s) == 3 <==> HasBrackets(s) && |LeftPlaces(s[0], |s[0]|)| == |RightPlaces(s[0], |s[0]|)| > 0
    ensures RecType(s) in [-1, 0, 1, 2, 3]
  {
    hide LeftPlaces, RightPlaces, Lefts, Rights;
    if s != [] {
      CountsAre(s[0], |s[0]|);
    }
    if HasBrackets(s) {
      assert !IsSingle(s[0]);
      SinglesAt(s, 0);
    } else {
      var n := Singles(s);
      assert n < |s| ==> (s[n] == [] <==> exists k :: 0 <= k < |s| && s[k] == [] && forall i :: 0 <= i < k ==> IsSingle(s[i]));
    }
  }

  // A list as it is written.

  /** The parenthesis or comma as a token. */
  function Sign(t: TokenType): Token { Token(t, false, 0, 0.0, false, None) }

  /** ( c0 , c1 , ... ) */
  function ListExpr(cs: seq<Token>): (e: Expr)
    ensures |e| == 2 * |cs| + 1
  {
    seq(2 * |cs| + 1, i requires 0 <= i < 2 * |cs| + 1 =>
      if i == 0 then Sign(LeftP) else if i == 2 * |cs| then Sign(RightP) else if i % 2 == 1 then cs[i / 2] else Sign(Comma))
  }

  lemma ListClass(cs: seq<Token>, more: Stmt)
    requires cs != [] && forall i :: 0 <= i < |cs| ==> IsConst(cs[i].tokType) && !cs[i].hasExpr
    ensures RecType([ListExpr(cs)] + more) == 2 && ListEndsAt(ListExpr(cs), 2 * |cs|)
  {
    hide RecType;
    var s, e := [ListExpr(cs)] + more, ListExpr(cs);
    assert s[0] == e && e[0] == Sign(LeftP);
    forall i | 1 <= i < |e|
      ensures Listable(e[i]) && !e[i].tokType.LeftP? && (e[i].tokType.RightP? ==> i == |e| - 1)
    {
      if i % 2 == 1 {
        assert e[i] == cs[i / 2];
      }
    }
    assert Bracketed(e);
    ArrayForm(s);
  }

  /** A written list of constants, whatever follows it, is built value by value when the rule has one column, and refused
      when it has any other number. */
  method BuildList(cs: seq<Token>, more: Stmt, retType: seq<TokenType>, retCnt: nat) returns (r: Built)
    requires cs != [] && forall i :: 0 <= i < |cs| ==> IsConst(cs[i].tokType) && !cs[i].hasExpr
    requires retCnt <= |retType|
    ensures retCnt != 1 ==> r == Built(-1, [])
    ensures retCnt == 1 ==> r.Built? && r.mode == 2 && |r.values| == |cs|
    ensures retCnt == 1 ==> forall j :: 0 <= j < |cs| ==> Stands(r.values[j], retType[0], cs[j])
  {
    hide RecType, ListEndsAt, Stands;
    ListClass(cs, more);
    var s := [ListExpr(cs)] + more;
    r := BuildResultRec(s, retType, retCnt);
    assert forall j :: 0 <= j < |cs| ==> ListExpr(cs)[2 * j + 1] == cs[j];
  }
}
