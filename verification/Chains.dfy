// Sequences standing for linked lists.
module Chains {

  ghost predicate Distinct<T>(s: seq<T>) {
    forall i, j :: 0 <= i < j < |s| ==> s[i] != s[j]
  }

  /** s without its element at i. */
  ghost function Cut<T>(s: seq<T>, i: nat): (r: seq<T>)
    requires i < |s|
    ensures |r| == |s| - 1
  {
    s[..i] + s[i + 1..]
  }

  lemma CutAt<T>(s: seq<T>, i: nat, a: nat)
    requires i < |s| && a < |s| - 1
    ensures Cut(s, i)[a] == s[if a < i then a else a + 1]
  {
  }

  lemma CutKeeps<T>(s: seq<T>, i: nat)
    requires i < |s|
    ensures (forall x :: x in s ==> x == s[i] || x in Cut(s, i)) && forall x :: x in Cut(s, i) ==> x in s
    ensures (i > 0 ==> Cut(s, i)[i - 1] == s[i - 1]) && (i + 1 < |s| ==> Cut(s, i)[i] == s[i + 1])
  {
    forall x | x in s
      ensures x == s[i] || x in Cut(s, i)
    {
      var a :| 0 <= a < |s| && s[a] == x;
      assert a != i ==> Cut(s, i)[if a < i then a else a - 1] == x;
    }
  }

  lemma CutDistinct<T>(s: seq<T>, i: nat)
    requires i < |s| && Distinct(s)
    ensures Distinct(Cut(s, i)) && s[i] !in Cut(s, i) && forall x :: x in Cut(s, i) ==> x in s
    ensures multiset(Cut(s, i)) + multiset{s[i]} == multiset(s)
  {
    assert s == s[..i] + [s[i]] + s[i + 1..];
  }

  /** The elements of s that are not in gone, in their order. */
  ghost function Minus<T>(s: seq<T>, gone: set<T>): seq<T> {
    if s == [] then [] else (if s[0] in gone then [] else [s[0]]) + Minus(s[1..], gone)
  }

  lemma {:induction false} MinusMembers<T>(s: seq<T>, gone: set<T>)
    ensures forall x :: x in Minus(s, gone) <==> x in s && x !in gone
  {
    if s != [] {
      MinusMembers(s[1..], gone);
      assert forall x :: x in s <==> x == s[0] || x in s[1..];
    }
  }

  lemma {:induction false} MinusNothing<T>(s: seq<T>)
    ensures Minus(s, {}) == s
  {
    if s != [] {
      MinusNothing(s[1..]);
    }
  }

  lemma {:induction false} MinusAbsent<T>(s: seq<T>, gone: set<T>, x: T)
    requires x !in Minus(s, gone)
    ensures Minus(s, gone + {x}) == Minus(s, gone)
  {
    if s != [] {
      var rest := Minus(s[1..], gone);
      assert Minus(s, gone) == (if s[0] in gone then [] else [s[0]]) + rest;
      MinusAbsent(s[1..], gone, x);
    }
  }

  lemma MinusHead<T>(s: seq<T>, gone: set<T>)
    requires s != []
    ensures Minus(s, gone) == (if s[0] in gone then [] else [s[0]]) + Minus(s[1..], gone)
  {
  }

  lemma CutCons<T>(x: T, s: seq<T>, i: nat)
    requires i <= |s|
    ensures Cut([x] + s, i) == if i == 0 then s else [x] + Cut(s, i - 1)
  {
  }

  lemma DistinctTail<T>(x: T, s: seq<T>)
    requires Distinct([x] + s)
    ensures Distinct(s) && x !in s
  {
    var all := [x] + s;
    assert forall a :: 0 <= a < |s| ==> s[a] == all[a + 1];
    assert all[0] == x;
  }

  /** Taking one more element away cuts it out at its place. */
  lemma {:induction false} MinusOne<T>(s: seq<T>, gone: set<T>, i: nat)
    requires s != [] && Distinct(Minus(s, gone)) && i < |Minus(s, gone)|
    ensures Minus(s, gone + {Minus(s, gone)[i]}) == Cut(Minus(s, gone), i)
  {
    hide Minus, Cut, Distinct;
    var all, rest := Minus(s, gone), Minus(s[1..], gone);
    var x := all[i];
    MinusHead(s, gone);
    MinusHead(s, gone + {x});
    if s[0] in gone {
      assert all == rest;
      MinusAny(s[1..], gone, i);
      MinusOne(s[1..], gone, i);
    } else {
      DistinctTail(s[0], rest);
      CutCons(s[0], rest, i);
      if i == 0 {
        MinusAbsent(s[1..], gone, x);
      } else {
        assert x == rest[i - 1];
        MinusAny(s[1..], gone, i - 1);
        MinusOne(s[1..], gone, i - 1);
      }
    }
  }

  lemma MinusAny<T>(s: seq<T>, gone: set<T>, i: nat)
    requires i < |Minus(s, gone)|
    ensures s != []
  {
  }

  ghost function Elements<T>(s: seq<T>): set<T> { set x | x in s }

  /** gone are distinct elements of all, and left are the others in the order they have in all. */
  ghost predicate Parted<T>(all: seq<T>, left: seq<T>, gone: seq<T>) {
    && Distinct(left) && Distinct(gone)
    && left == Minus(all, Elements(gone))
    && multiset(left) + multiset(gone) == multiset(all)
  }

  lemma PartedStart<T>(all: seq<T>)
    requires Distinct(all)
    ensures Parted(all, all, [])
  {
    assert Elements<T>([]) == {};
    MinusNothing(all);
  }

  lemma PartedNext<T>(all: seq<T>, left: seq<T>, gone: seq<T>, k: nat)
    requires Parted(all, left, gone) && k < |left|
    ensures Parted(all, Cut(left, k), gone + [left[k]])
  {
    hide Minus, Cut, Distinct, Elements;
    var had := Elements(gone);
    MinusMembers(all, had);
    MinusAny(all, had, k);
    MinusOne(all, had, k);
    CutDistinct(left, k);
    assert left[k] in left;
    OneMoreGone(gone, left[k]);
  }

  lemma OneMoreGone<T>(gone: seq<T>, x: T)
    requires Distinct(gone) && x !in Elements(gone)
    ensures Distinct(gone + [x]) && Elements(gone + [x]) == Elements(gone) + {x}
  {
  }
}
