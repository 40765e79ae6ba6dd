// Text as the C library sees it.  A C string is modelled by the characters in front of its
// terminator, so "*p == 0" reads "the rest is empty".
module CText {

  const SHIFT_OUT: char := '\U{0E}'
  const SHIFT_IN: char := '\U{0F}'

  predicate IsDigit(c: char) { '0' <= c <= '9' }

  predicate IsSpace(c: char) { c == ' ' || '\t' <= c <= '\r' }

  predicate IsGraph(c: char) { '!' <= c <= '~' }

  predicate StartsWith(s: string, c: char) { s != [] && s[0] == c }

  predicate StartsWithDigit(s: string) { s != [] && IsDigit(s[0]) }

  function DigitChar(d: nat): (c: char)
    requires d < 10
  {
    (48 + d) as char
  }

  function DigitValue(c: char): (d: nat)
    requires IsDigit(c)
    ensures d < 10
  {
    c as int - 48
  }

  predicate AllDigits(s: string) { forall i :: 0 <= i < |s| ==> IsDigit(s[i]) }

  function DigitsValue(s: string): nat
    requires AllDigits(s)
  {
    if s == [] then 0 else 10 * DigitsValue(s[..|s| - 1]) + DigitValue(s[|s| - 1])
  }

  /** The shortest decimal numeral of n, as "%d" prints it. */
  function Dec(n: nat): (s: string)
    ensures s != [] && AllDigits(s) && DigitsValue(s) == n
    ensures n > 0 ==> s[0] != '0'
  {
    if n < 10 then [DigitChar(n)]
    else
      var s := Dec(n / 10) + [DigitChar(n % 10)];
      assert s[..|s| - 1] == Dec(n / 10);
      s
  }

  function DecInt(i: int): (s: string)
    ensures s != [] && (IsDigit(s[0]) || s[0] == '-')
  {
    if i < 0 then ['-'] + Dec(-i) else Dec(i)
  }

  /** "%02d". */
  function Pad2(i: int): string { if 0 <= i < 10 then "0" + Dec(i) else DecInt(i) }

  ghost predicate IsFirst(s: string, c: char, from: nat, i: nat)
  {
    && from <= i <= |s|
    && (forall k :: from <= k < i ==> s[k] != c)
    && (i < |s| ==> s[i] == c)
  }

  lemma {:induction false} FirstExists(s: string, c: char, from: nat)
    requires from <= |s|
    ensures exists i :: IsFirst(s, c, from, i)
    decreases |s| - from
  {
    if from == |s| || s[from] == c {
      assert IsFirst(s, c, from, from);
    } else {
      FirstExists(s, c, from + 1);
      var i :| IsFirst(s, c, from + 1, i);
      assert IsFirst(s, c, from, i);
    }
  }

  /** Index of the first c at or after `from`, or the length when there is none. */
  ghost function Find(s: string, c: char, from: nat): (i: nat)
    requires from <= |s|
    ensures IsFirst(s, c, from, i)
  {
    FirstExists(s, c, from);
    var i :| IsFirst(s, c, from, i);
    i
  }

  ghost predicate IsSkip(s: string, c: char, from: nat, i: nat)
  {
    && from <= i <= |s|
    && (forall k :: from <= k < i ==> s[k] == c)
    && (i < |s| ==> s[i] != c)
  }

  lemma {:induction false} SkipExists(s: string, c: char, from: nat)
    requires from <= |s|
    ensures exists i :: IsSkip(s, c, from, i)
    decreases |s| - from
  {
    if from == |s| || s[from] != c {
      assert IsSkip(s, c, from, from);
    } else {
      SkipExists(s, c, from + 1);
      var i :| IsSkip(s, c, from + 1, i);
      assert IsSkip(s, c, from, i);
    }
  }

  /** Index of the first character at or after `from` that is not c. */
  ghost function SkipOver(s: string, c: char, from: nat): (i: nat)
    requires from <= |s|
    ensures IsSkip(s, c, from, i)
  {
    SkipExists(s, c, from);
    var i :| IsSkip(s, c, from, i);
    i
  }

  function SkipSpaces(s: string): string
  {
    if s != [] && IsSpace(s[0]) then SkipSpaces(s[1..]) else s
  }

  function DigitRun(s: string): (r: string)
    ensures AllDigits(r)
  {
    if StartsWithDigit(s) then [s[0]] + DigitRun(s[1..]) else []
  }

  /** atoi: blanks, one optional sign, then the longest run of digits. */
  function Atoi(s: string): int
  {
    var t := SkipSpaces(s);
    if StartsWith(t, '-') then -(DigitsValue(DigitRun(t[1..])) as int)
    else if StartsWith(t, '+') then DigitsValue(DigitRun(t[1..]))
    else DigitsValue(DigitRun(t))
  }

  /** rtrim: cut the trailing blanks, and nothing else. */
  function RTrim(s: string): (r: string)
    ensures r <= s && forall i :: |r| <= i < |s| ==> s[i] == ' '
    ensures r != [] ==> r[|r| - 1] != ' '
  {
    if s != [] && s[|s| - 1] == ' ' then RTrim(s[..|s| - 1]) else s
  }

  lemma {:induction false} DigitRunAppend(a: string, b: string)
    requires AllDigits(a) && !StartsWithDigit(b)
    ensures DigitRun(a + b) == a
  {
    if a == [] {
      assert a + b == b;
    } else {
      assert (a + b)[1..] == a[1..] + b;
      DigitRunAppend(a[1..], b);
    }
  }

  lemma {:induction false} AtoiDigits(d: string, rest: string)
    requires d != [] && AllDigits(d) && !StartsWithDigit(rest)
    ensures Atoi(d + rest) == DigitsValue(d)
    ensures Atoi(['-'] + d + rest) == -(DigitsValue(d) as int)
  {
    var s, m := d + rest, ['-'] + d + rest;
    DigitRunAppend(d, rest);
    assert s[0] == d[0] && IsDigit(d[0]);
    assert SkipSpaces(s) == s && SkipSpaces(m) == m;
    assert m[1..] == s;
  }

  /** What atoi makes of blanks, a sign and digits, and of a text where no digit comes. */
  lemma {:induction false} AtoiSpaced(blanks: string, sign: string, d: string, rest: string)
    requires forall i :: 0 <= i < |blanks| ==> blanks[i] in [' ', '\t', '\n', '\U{0B}', '\U{0C}', '\r']
    requires sign in ["", "+", "-"] && AllDigits(d) && !StartsWithDigit(rest)
    requires d == "" ==> rest == "" || (!IsSpace(rest[0]) && rest[0] != '-' && rest[0] != '+')
    ensures Atoi(blanks + (sign + (d + rest))) == if sign == "-" then -(DigitsValue(d) as int) else DigitsValue(d)
  {
    var s := sign + (d + rest);
    hide DigitsValue, DigitRun;
    if blanks != "" {
      AtoiSpaced(blanks[1..], sign, d, rest);
      assert (blanks + s)[1..] == blanks[1..] + s && (blanks + s)[0] == blanks[0];
    } else {
      assert blanks + s == s;
      AtoiSigned(sign, d, rest);
    }
  }

  lemma AtoiSigned(sign: string, d: string, rest: string)
    requires sign in ["", "+", "-"] && AllDigits(d) && !StartsWithDigit(rest)
    requires d == "" ==> rest == "" || (!IsSpace(rest[0]) && rest[0] != '-' && rest[0] != '+')
    ensures Atoi(sign + (d + rest)) == if sign == "-" then -(DigitsValue(d) as int) else DigitsValue(d)
  {
    hide DigitsValue;
    var x := d + rest;
    DigitRunAppend(d, rest);
    hide DigitRun;
    assert d != "" ==> x[0] == d[0] && IsDigit(d[0]);
    assert d == "" ==> x == rest;
    if sign == "" {
      assert sign + x == x;
    } else {
      assert (sign + x)[0] == sign[0] && (sign + x)[1..] == x;
    }
  }

  /** Reading back a printed number, whatever non-digit follows it. */
  lemma {:induction false} AtoiDec(i: int, rest: string)
    requires !StartsWithDigit(rest)
    ensures Atoi(DecInt(i) + rest) == i
  {
    AtoiDigits(if i < 0 then Dec(-i) else Dec(i), rest);
  }

  /** atoi stops at the first character that is neither blank, sign nor digit. */
  lemma {:induction false} AtoiStops(a: string, stop: char, b: string)
    requires !IsSpace(stop) && !IsDigit(stop) && stop != '-' && stop != '+'
    ensures Atoi(a + [stop] + b) == Atoi(a)
  {
    var x := [stop] + b;
    assert a + [stop] + b == a + x;
    if a == [] {
      assert a + x == x;
      assert SkipSpaces(x) == x;
    } else if IsSpace(a[0]) {
      assert (a + x)[1..] == a[1..] + x && a[1..] + [stop] + b == a[1..] + x;
      AtoiStops(a[1..], stop, b);
      assert Atoi(a + x) == Atoi(a[1..] + x);
    } else {
      assert SkipSpaces(a + x) == a + x && SkipSpaces(a) == a;
      assert (a + x)[1..] == a[1..] + x;
      DigitRunStops(a, x);
      DigitRunStops(a[1..], x);
    }
  }

  lemma {:induction false} DigitRunStops(a: string, x: string)
    requires !StartsWithDigit(x)
    ensures DigitRun(a + x) == DigitRun(a)
  {
    if a == [] {
      assert a + x == x;
    } else {
      assert (a + x)[1..] == a[1..] + x;
      DigitRunStops(a[1..], x);
    }
  }

  predicate Agree(t: string, u: string, n: nat)
  {
    n <= |t| && n <= |u| && forall k :: 0 <= k < n ==> t[k] == u[k]
  }

  /** A search that ends inside the part two texts share ends at the same place in both. */
  lemma {:induction false} FindAgree(t: string, u: string, n: nat, c: char, from: nat)
    requires Agree(t, u, n) && from <= n && Find(t, c, from) < n
    ensures Find(u, c, from) == Find(t, c, from)
  {
    var i := Find(t, c, from);
    assert t[i] == u[i];
  }

  lemma {:induction false} SkipOverAgree(t: string, u: string, n: nat, c: char, from: nat)
    requires Agree(t, u, n) && from <= n && SkipOver(t, c, from) < n
    ensures SkipOver(u, c, from) == SkipOver(t, c, from)
  {
    var i := SkipOver(t, c, from);
    assert t[i] == u[i];
  }

  lemma {:induction false} SliceAgree(t: string, u: string, n: nat, lo: nat, hi: nat)
    requires Agree(t, u, n) && lo <= hi <= n
    ensures t[lo..hi] == u[lo..hi]
  {
    assert forall k :: 0 <= k < hi - lo ==> t[lo..hi][k] == u[lo..hi][k];
  }

  lemma {:induction false} AgreeDrop(t: string, u: string, n: nat, k: nat)
    requires Agree(t, u, n) && k <= n
    ensures Agree(t[k..], u[k..], n - k)
  {
    forall i | 0 <= i < n - k ensures t[k..][i] == u[k..][i] {
      assert t[k + i] == u[k + i];
    }
  }

  lemma SplitAppend<T>(a: seq<T>, b: seq<T>, k: nat)
    requires k <= |a|
    ensures (a + b)[k..] == a[k..] + b && (a + b)[..k] == a[..k]
  {
  }

  predicate PairAt(s: string, i: int, a: char, b: char)
  {
    0 <= i < |s| - 1 && s[i] == a && s[i + 1] == b
  }

  ghost predicate IsFirstPair(s: string, a: char, b: char, from: nat, i: nat)
  {
    && from <= i <= |s|
    && (forall k :: from <= k < i ==> !PairAt(s, k, a, b))
    && (i < |s| ==> PairAt(s, i, a, b))
  }

  lemma {:induction false} FirstPairExists(s: string, a: char, b: char, from: nat)
    requires from <= |s|
    ensures exists i :: IsFirstPair(s, a, b, from, i)
    decreases |s| - from
  {
    if from == |s| || PairAt(s, from, a, b) {
      assert IsFirstPair(s, a, b, from, from);
    } else {
      FirstPairExists(s, a, b, from + 1);
      var i :| IsFirstPair(s, a, b, from + 1, i);
      assert IsFirstPair(s, a, b, from, i);
    }
  }

  /** strstr for a text of two characters: the first place at or after `from`, or the length. */
  ghost function FindPair(s: string, a: char, b: char, from: nat): (i: nat)
    requires from <= |s|
    ensures IsFirstPair(s, a, b, from, i)
  {
    FirstPairExists(s, a, b, from);
    var i :| IsFirstPair(s, a, b, from, i);
    i
  }

  lemma TakeDrop<T>(c: seq<T>, n: nat, r: seq<T>)
    requires n <= |c|
    ensures c[..n] + (c[n..] + r) == c + r
  {
  }

  /** If s goes on with x and then r from `from` on, so do its slices. */
  lemma SliceOn<T>(s: seq<T>, from: nat, x: seq<T>, r: seq<T>)
    requires from <= |s| && s[from..] == x + r
    ensures from + |x| <= |s| && s[..from + |x|] == s[..from] + x && s[from + |x|..] == r
  {
    assert s == s[..from] + (x + r);
  }

  lemma SliceNext<T>(s: seq<T>, a: nat, b: nat)
    requires a <= b < |s|
    ensures s[a..b + 1] == s[a..b] + [s[b]]
  {
  }

  lemma DropDrop<T>(s: seq<T>, a: nat, b: nat)
    requires a <= b <= |s|
    ensures s[a..][b - a..] == s[b..]
  {
  }

  /** strchr. */
  method StrChr(line: string, c: char) returns (found: bool, i: nat)
    ensures i <= |line| && (found <==> i < |line|)
    ensures IsFirst(line, c, 0, i)
  {
    i := 0;
    while i < |line| && line[i] != c
      invariant i <= |line|
      invariant forall k :: 0 <= k < i ==> line[k] != c
    {
      i := i + 1;
    }
    found := i < |line|;
  }

  lemma RTrimSame(s: string)
    requires s != "" ==> s[|s| - 1] != ' '
    ensures RTrim(s) == s
  {
  }
}
