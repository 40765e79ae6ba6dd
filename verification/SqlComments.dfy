// FindComments and RemoveComments: what they keep of each line, and why a second pass keeps it all.
module SqlComments {
  import opened CText

  // The five delimiter pairs: a "--" between an opening and a later closing one is no comment.
  const OPENERS: string := ['(', '{', '[', '\'', '"']
  const CLOSERS: string := [')', '}', ']', '\'', '"']

  ghost predicate Between(line: string, pos: nat, open: char, close: char)
  {
    && (exists a :: 0 <= a < pos && a < |line| && line[a] == open)
    && (exists b :: pos < b < |line| && line[b] == close)
  }

  ghost predicate Enclosed(line: string, pos: nat)
  {
    exists i :: 0 <= i < 5 && Between(line, pos, OPENERS[i], CLOSERS[i])
  }

  /** The first "--" at or after `from`, two characters at a time, that no delimiters enclose. */
  ghost function Cut(line: string, from: nat): (v: nat)
    requires from <= |line|
    ensures from <= v <= |line|
    ensures v < |line| ==> PairAt(line, v, '-', '-') && !Enclosed(line, v)
    decreases |line| - from
  {
    var pos := FindPair(line, '-', '-', from);
    if pos == |line| then |line|
    else if !Enclosed(line, pos) then pos
    else if pos + 2 >= |line| then |line|
    else Cut(line, pos + 2)
  }

  predicate AllBlank(s: string) { forall i :: 0 <= i < |s| ==> s[i] == ' ' }

  /** How many characters of the line FindComments keeps. */
  ghost function Valid(line: string): (size: nat)
    ensures size <= |line|
  {
    var v := Cut(line, 0);
    if v < |line| && AllBlank(line[..v]) then 0 else v
  }

  // The same without the scan: where the "--" of a line stand that begin a comment.

  /** The dashes directly in front of p. */
  ghost function DashesBefore(line: string, p: nat): nat
    requires p <= |line|
  {
    if p > 0 && line[p - 1] == '-' then 1 + DashesBefore(line, p - 1) else 0
  }

  /** A "--" that begins a comment: in a row of dashes every second one counts, and no delimiters enclose it. */
  ghost predicate IsComment(line: string, p: nat)
  {
    PairAt(line, p, '-', '-') && DashesBefore(line, p) % 2 == 0 && !Enclosed(line, p)
  }

  /** The scan finds the first of them. */
  lemma {:induction false} CutFirst(line: string, from: nat)
    requires from <= |line| && DashesBefore(line, from) % 2 == 0
    ensures var v := Cut(line, from);
            (v < |line| ==> IsComment(line, v)) && forall k :: from <= k < v ==> !IsComment(line, k)
    decreases |line| - from
  {
    hide Enclosed;
    var pos := FindPair(line, '-', '-', from);
    forall k | from <= k < pos
      ensures !IsComment(line, k)
    {
      assert !PairAt(line, k, '-', '-');
    }
    if pos < |line| {
      assert pos > from ==> !PairAt(line, pos - 1, '-', '-');
      assert DashesBefore(line, pos) % 2 == 0;
      assert DashesBefore(line, pos + 1) == 1 + DashesBefore(line, pos);
      assert DashesBefore(line, pos + 2) == 1 + DashesBefore(line, pos + 1);
      assert !IsComment(line, pos + 1);
      if pos + 2 < |line| {
        CutFirst(line, pos + 2);
      }
    }
  }

  /** What is kept of a line, exactly: all of it when no comment begins in it, else what is in front of the first one,
      or nothing when only blanks are. */
  ghost predicate Keeps(line: string, size: nat)
  {
    && ((forall p :: 0 <= p < |line| ==> !IsComment(line, p)) ==> size == |line|)
    && forall p :: 0 <= p < |line| && IsComment(line, p) && (forall k :: 0 <= k < p ==> !IsComment(line, k)) ==>
         size == if forall i :: 0 <= i < p ==> line[i] == ' ' then 0 else p
  }

  lemma ValidExactly(line: string)
    ensures Keeps(line, Valid(line))
  {
    hide IsComment;
    CutFirst(line, 0);
    var v := Cut(line, 0);
    forall p | 0 <= p < |line| && IsComment(line, p) && (forall k :: 0 <= k < p ==> !IsComment(line, k))
      ensures Valid(line) == if forall i :: 0 <= i < p ==> line[i] == ' ' then 0 else p
    {
      assert v == p;
      BlankFront(line, p);
    }
  }

  lemma BlankFront(line: string, p: nat)
    requires p <= |line|
    ensures AllBlank(line[..p]) <==> forall i :: 0 <= i < p ==> line[i] == ' '
  {
    assert forall i :: 0 <= i < p ==> line[..p][i] == line[i];
  }

  /** Which "--" are enclosed: those with an opening delimiter somewhere in front and the closing one of the same kind
      somewhere behind. */
  lemma EnclosedExactly(a: string, b: string)
    ensures Enclosed(a + "--" + b, |a|) <==>
      || ('(' in a && ')' in b) || ('{' in a && '}' in b) || ('[' in a && ']' in b)
      || ('\'' in a && '\'' in b) || ('"' in a && '"' in b)
  {
    var line := a + "--" + b;
    BetweenExactly(a, b, '(', ')');
    BetweenExactly(a, b, '{', '}');
    BetweenExactly(a, b, '[', ']');
    BetweenExactly(a, b, '\'', '\'');
    BetweenExactly(a, b, '"', '"');
    assert OPENERS[0] == '(' && OPENERS[1] == '{' && OPENERS[2] == '[' && OPENERS[3] == '\'' && OPENERS[4] == '"';
    assert CLOSERS[0] == ')' && CLOSERS[1] == '}' && CLOSERS[2] == ']' && CLOSERS[3] == '\'' && CLOSERS[4] == '"';
    hide Between;
    if Enclosed(line, |a|) {
      var i :| 0 <= i < 5 && Between(line, |a|, OPENERS[i], CLOSERS[i]);
      assert i == 0 || i == 1 || i == 2 || i == 3 || i == 4;
    }
  }

  lemma BetweenExactly(a: string, b: string, open: char, close: char)
    requires open != '-' && close != '-'
    ensures Between(a + "--" + b, |a|, open, close) <==> open in a && close in b
  {
    var line := a + "--" + b;
    assert forall k :: 0 <= k < |a| ==> line[k] == a[k];
    assert line[|a|] == line[|a| + 1] == '-';
    assert forall k :: |a| + 2 <= k < |line| ==> line[k] == b[k - |a| - 2];
    if open in a && close in b {
      var i :| 0 <= i < |a| && a[i] == open;
      var j :| 0 <= j < |b| && b[j] == close;
      assert line[i] == open && line[|a| + 2 + j] == close;
    }
  }

  predicate HoldsDashes(s: string) { exists k :: 0 <= k < |s| - 1 && s[k] == '-' && s[k + 1] == '-' }

  /** So a comment goes and the text in front of it stays, whatever the comment says, unless delimiters enclose its "--". */
  lemma CommentGoes(a: string, b: string)
    requires !HoldsDashes(a + "-")
    requires !('(' in a && ')' in b) && !('{' in a && '}' in b) && !('[' in a && ']' in b)
    requires !('\'' in a && '\'' in b) && !('"' in a && '"' in b)
    ensures Valid(a + "--" + b) == if forall i :: 0 <= i < |a| ==> a[i] == ' ' then 0 else |a|
  {
    var line, p := a + "--" + b, |a|;
    EnclosedExactly(a, b);
    hide Enclosed, Valid;
    assert forall k :: 0 <= k < p ==> line[k] == a[k] && (a + "-")[k] == a[k];
    forall k | 0 <= k < p
      ensures !IsComment(line, k)
    {
      assert line[k + 1] == (a + "-")[k + 1];
    }
    assert PairAt(line, p, '-', '-');
    assert p > 0 ==> line[p - 1] != '-' by {
      if p > 0 {
        assert (a + "-")[p - 1] == a[p - 1] && (a + "-")[p] == '-';
      }
    }
    assert IsComment(line, p);
    ValidExactly(line);
  }

  ghost predicate Clean(line: string) { Valid(line) == |line| }

  method StrRChr(line: string, c: char) returns (found: bool, i: nat)
    ensures if found then i < |line| && line[i] == c && forall k :: i < k < |line| ==> line[k] != c
            else forall k :: 0 <= k < |line| ==> line[k] != c
  {
    i := |line|;
    while i > 0
      invariant 0 <= i <= |line|
      invariant forall k :: i <= k < |line| ==> line[k] != c
    {
      i := i - 1;
      if line[i] == c {
        return true, i;
      }
    }
    found := false;
  }

  method StrStr(line: string, from: nat) returns (pos: nat)
    requires from <= |line|
    ensures pos == FindPair(line, '-', '-', from)
  {
    pos := from;
    while pos < |line| && !PairAt(line, pos, '-', '-')
      invariant from <= pos <= |line|
      invariant forall k :: from <= k < pos ==> !PairAt(line, k, '-', '-')
    {
      pos := pos + 1;
    }
    assert IsFirstPair(line, '-', '-', from, pos);
  }

  /** The loop over the delimiter pairs. */
  method IsEnclosed(line: string, pos: nat) returns (b: bool)
    requires pos < |line|
    ensures b <==> Enclosed(line, pos)
  {
    var i := 0;
    while i < 5
      invariant 0 <= i <= 5
      invariant forall k :: 0 <= k < i ==> !Between(line, pos, OPENERS[k], CLOSERS[k])
    {
      var hasOpen, open := StrChr(line, OPENERS[i]);
      if hasOpen && open < pos {
        var hasClose, close := StrRChr(line, CLOSERS[i]);
        if hasClose && pos < close {
          return true;
        }
      }
      i := i + 1;
    }
    b := false;
  }

  method FindComments(line: string) returns (size: nat)
    ensures size == Valid(line) && Keeps(line, size)
  {
    hide Enclosed, Keeps;
    ValidExactly(line);
    var pos := StrStr(line, 0);
    ghost var from: nat := 0;
    while pos < |line|
      invariant from <= pos <= |line|
      invariant pos == FindPair(line, '-', '-', from)
      invariant Cut(line, 0) == Cut(line, from)
      decreases |line| - pos
    {
      var enclosed := IsEnclosed(line, pos);
      if !enclosed {
        var i := 0;
        while i < pos
          invariant 0 <= i <= pos
          invariant AllBlank(line[..i])
        {
          if line[i] != ' ' {
            assert line[..pos][i] == line[i];
            return pos;
          }
          assert line[..i + 1] == line[..i] + [line[i]];
          i := i + 1;
        }
        return 0;
      }
      if pos + 2 >= |line| {
        break;
      }
      from := pos + 2;
      pos := StrStr(line, pos + 2);
    }
    return |line|;
  }

  // Lines and the whole text.

  predicate IsBreak(c: char) { c == '\n' || c == '\r' }

  ghost function TokenEnd(s: string): (e: nat)
    ensures e <= |s| && (forall k :: 0 <= k < e ==> !IsBreak(s[k])) && (e < |s| ==> IsBreak(s[e]))
  {
    if s == [] || IsBreak(s[0]) then 0 else 1 + TokenEnd(s[1..])
  }

  /** The tokens strtok(s, "\n\r") yields: the non-empty lines. */
  ghost function Tokens(s: string): seq<string>
    decreases |s|
  {
    if s == [] then []
    else if IsBreak(s[0]) then Tokens(s[1..])
    else [s[..TokenEnd(s)]] + Tokens(s[TokenEnd(s)..])
  }

  /** The kept part of every line, each with a newline. */
  ghost function Kept(lines: seq<string>): string
  {
    if lines == [] then ""
    else (if Valid(lines[0]) > 0 then lines[0][..Valid(lines[0])] + ['\n'] else "") + Kept(lines[1..])
  }

  predicate IsTail(c: char) { c == ' ' || c == ';' || c == '\n' || c == '\r' || c == '\t' }

  function Trim(s: string): (r: string)
    ensures r <= s && (r != [] ==> !IsTail(r[|r| - 1]))
    ensures forall i :: |r| <= i < |s| ==> IsTail(s[i])
  {
    if s != [] && IsTail(s[|s| - 1]) then Trim(s[..|s| - 1]) else s
  }

  /** RemoveComments as a function of the text. */
  ghost function Cleaned(sql: string): string { Trim(Kept(Tokens(sql))) }

  class SqlText {
    var orgSql: string

    method RemoveComments()
      modifies this
      ensures orgSql == Cleaned(old(orgSql))
    {
      hide *;
      var saveSql := orgSql;
      orgSql := "";
      var p := 0;
      assert saveSql[0..] == saveSql;
      while p < |saveSql|
        invariant p <= |saveSql|
        invariant orgSql + Kept(Tokens(saveSql[p..])) == Kept(Tokens(saveSql))
      {
        ghost var rest := saveSql[p..];
        assert rest[0] == saveSql[p];
        if IsBreak(saveSql[p]) {
          KeptBreak(rest);
          assert rest[1..] == saveSql[p + 1..];
          p := p + 1;
          continue;
        }
        var line, next := NextToken(saveSql, p);
        var validsize := FindComments(line);
        ghost var before := orgSql;
        if validsize > 0 {
          orgSql := orgSql + (line[..validsize] + ['\n']);
        }
        KeptStep(rest, before, orgSql);
        assert saveSql[next..] == rest[next - p..];
        p := next;
      }
      assert saveSql[p..] == [];
      KeptNothing();
      assert orgSql + "" == orgSql;
      orgSql := TrimTail(orgSql);
      CleanedIs(saveSql);
    }
  }

  lemma CleanedIs(sql: string)
    ensures Cleaned(sql) == Trim(Kept(Tokens(sql)))
  {
  }

  /** The last loop of RemoveComments. */
  method TrimTail(s: string) returns (r: string)
    ensures r == Trim(s)
  {
    var i := |s|;
    assert s[..i] == s;
    while i > 0 && IsTail(s[i - 1])
      invariant 0 <= i <= |s|
      invariant Trim(s) == Trim(s[..i])
    {
      assert s[..i][..i - 1] == s[..i - 1];
      i := i - 1;
    }
    r := s[..i];
  }

  lemma KeptNothing()
    ensures Kept(Tokens([])) == ""
  {
  }

  method NextToken(s: string, p: nat) returns (line: string, next: nat)
    requires p < |s| && !IsBreak(s[p])
    ensures p < next <= |s| && next - p == TokenEnd(s[p..]) && line == s[p..][..next - p]
  {
    ghost var t := s[p..];
    next := p;
    while next < |s| && !IsBreak(s[next])
      invariant p <= next <= |s|
      invariant forall k :: 0 <= k < next - p ==> !IsBreak(t[k])
    {
      assert t[next - p] == s[next];
      next := next + 1;
    }
    assert t[0] == s[p];
    assert next < |s| ==> t[next - p] == s[next];
    line := s[p..next];
  }

  lemma KeptHead(line: string, later: seq<string>)
    ensures Kept([line] + later) == (if Valid(line) > 0 then line[..Valid(line)] + ['\n'] else "") + Kept(later)
  {
    hide Valid;
    assert ([line] + later)[1..] == later;
  }

  lemma KeptBreak(rest: string)
    requires rest != [] && IsBreak(rest[0])
    ensures Kept(Tokens(rest[1..])) == Kept(Tokens(rest))
  {
  }

  lemma TokensNext(rest: string)
    requires rest != [] && !IsBreak(rest[0])
    ensures Tokens(rest) == [rest[..TokenEnd(rest)]] + Tokens(rest[TokenEnd(rest)..])
  {
    hide TokenEnd;
  }

  lemma KeptStep(rest: string, before: string, after: string)
    requires rest != [] && !IsBreak(rest[0])
    requires var line := rest[..TokenEnd(rest)];
             after == if Valid(line) > 0 then before + (line[..Valid(line)] + ['\n']) else before
    ensures after + Kept(Tokens(rest[TokenEnd(rest)..])) == before + Kept(Tokens(rest))
  {
    hide *;
    var line, later := rest[..TokenEnd(rest)], rest[TokenEnd(rest)..];
    TokensNext(rest);
    KeptHead(line, Tokens(later));
    assert before + ((line[..Valid(line)] + ['\n']) + Kept(Tokens(later)))
        == before + (line[..Valid(line)] + ['\n']) + Kept(Tokens(later));
  }

  // A second pass finds nothing to remove.

  /** A "--" that was enclosed stays enclosed when the line is cut at the first one that is not:
      its closing delimiter lies in front of the cut. */
  lemma EnclosedCut(line: string, p: nat, v: nat)
    requires p < v < |line| && line[v] == '-' && Enclosed(line, p) && !Enclosed(line, v)
    ensures Enclosed(line[..v], p)
  {
    var i :| 0 <= i < 5 && Between(line, p, OPENERS[i], CLOSERS[i]);
    var a :| 0 <= a < p && a < |line| && line[a] == OPENERS[i];
    var b :| p < b < |line| && line[b] == CLOSERS[i];
    if b > v {
      assert Between(line, v, OPENERS[i], CLOSERS[i]);
      assert false;
    }
    assert line[..v][a] == OPENERS[i] && line[..v][b] == CLOSERS[i];
    assert Between(line[..v], p, OPENERS[i], CLOSERS[i]);
  }

  lemma {:induction false} CutPrefix(line: string, from: nat)
    requires from <= |line| && Cut(line, from) < |line|
    ensures var v := Cut(line, from); Cut(line[..v], from) == v
    decreases |line| - from
  {
    hide Enclosed;
    var v := Cut(line, from);
    var t := line[..v];
    var pos := FindPair(line, '-', '-', from);
    forall k | 0 <= k && k + 1 < v ensures PairAt(t, k, '-', '-') <==> PairAt(line, k, '-', '-') {
    }
    if Enclosed(line, pos) {
      CutPrefix(line, pos + 2);
      EnclosedCut(line, pos, v);
      assert IsFirstPair(t, '-', '-', from, pos);
    } else {
      assert IsFirstPair(t, '-', '-', from, v);
    }
  }

  /** Trailing blanks, semicolons and breaks can go without uncovering a comment. */
  lemma {:induction false} CutTrim(line: string, n: nat, from: nat)
    requires from <= n <= |line| && (forall i :: n <= i < |line| ==> IsTail(line[i]))
    requires Cut(line, from) == |line|
    ensures Cut(line[..n], from) == n
    decreases |line| - from
  {
    hide Enclosed, FindPair;
    var pos := FindPair(line, '-', '-', from);
    PairTrim(line, n, from);
    if pos < |line| {
      EnclosedTrim(line, n, pos);
      if pos + 2 < n {
        CutTrim(line, n, pos + 2);
      }
    }
  }

  /** The first "--" is the same in a line without its tail. */
  lemma PairTrim(line: string, n: nat, from: nat)
    requires from <= n <= |line| && (forall i :: n <= i < |line| ==> IsTail(line[i]))
    ensures var pos := FindPair(line, '-', '-', from);
            FindPair(line[..n], '-', '-', from) == (if pos < |line| then pos else n) && (pos < |line| ==> pos + 1 < n)
  {
    var t, pos := line[..n], FindPair(line, '-', '-', from);
    forall k | from <= k < n && k < pos ensures !PairAt(t, k, '-', '-') {
      assert !PairAt(line, k, '-', '-');
    }
    if pos < |line| {
      assert !IsTail(line[pos]) && !IsTail(line[pos + 1]);
      assert IsFirstPair(t, '-', '-', from, pos);
    } else {
      assert IsFirstPair(t, '-', '-', from, n);
    }
  }

  lemma EnclosedTrim(line: string, n: nat, p: nat)
    requires p < n <= |line| && (forall i :: n <= i < |line| ==> IsTail(line[i])) && Enclosed(line, p)
    ensures Enclosed(line[..n], p)
  {
    var i :| 0 <= i < 5 && Between(line, p, OPENERS[i], CLOSERS[i]);
    var a :| 0 <= a < p && a < |line| && line[a] == OPENERS[i];
    var b :| p < b < |line| && line[b] == CLOSERS[i];
    assert !IsTail(CLOSERS[i]);
    assert line[..n][a] == OPENERS[i] && line[..n][b] == CLOSERS[i];
    assert Between(line[..n], p, OPENERS[i], CLOSERS[i]);
  }

  /** What FindComments keeps of a line it would keep whole. */
  lemma ValidIsClean(line: string)
    requires Valid(line) > 0
    ensures Clean(line[..Valid(line)])
  {
    if Valid(line) < |line| {
      CutPrefix(line, 0);
    } else {
      assert line[..|line|] == line;
    }
  }

  lemma TrimIsClean(line: string)
    requires Clean(line)
    ensures Clean(Trim(line))
  {
    if line != [] {
      CutTrim(line, |Trim(line)|, 0);
      assert line[..|Trim(line)|] == Trim(line);
    }
  }

  /** A line as strtok can return it. */
  predicate IsLine(l: string) { l != [] && forall k :: 0 <= k < |l| ==> !IsBreak(l[k]) }

  ghost predicate CleanLines(ls: seq<string>) { forall i :: 0 <= i < |ls| ==> IsLine(ls[i]) && Clean(ls[i]) }

  function Join(ls: seq<string>): string { if ls == [] then "" else ls[0] + ['\n'] + Join(ls[1..]) }

  /** The lines RemoveComments keeps. */
  ghost function KeptLines(ls: seq<string>): seq<string>
  {
    if ls == [] then []
    else (if Valid(ls[0]) > 0 then [ls[0][..Valid(ls[0])]] else []) + KeptLines(ls[1..])
  }

  lemma {:induction false} KeptIsJoin(ls: seq<string>)
    requires forall i :: 0 <= i < |ls| ==> IsLine(ls[i])
    ensures Kept(ls) == Join(KeptLines(ls)) && CleanLines(KeptLines(ls))
  {
    if ls != [] {
      KeptIsJoin(ls[1..]);
      if Valid(ls[0]) > 0 {
        ValidIsClean(ls[0]);
        assert KeptLines(ls)[1..] == KeptLines(ls[1..]);
      } else {
        assert KeptLines(ls) == KeptLines(ls[1..]);
      }
    }
  }

  lemma {:induction false} TokensAreLines(s: string)
    ensures forall i :: 0 <= i < |Tokens(s)| ==> IsLine(Tokens(s)[i])
    decreases |s|
  {
    if s != [] {
      TokensAreLines(if IsBreak(s[0]) then s[1..] else s[TokenEnd(s)..]);
    }
  }

  /** The lines left after the final trim: whole empty-looking lines go, the last one is trimmed. */
  function TrimLines(ls: seq<string>): seq<string>
  {
    if ls == [] then []
    else
      var last := Trim(ls[|ls| - 1]);
      if last == [] then TrimLines(ls[..|ls| - 1]) else ls[..|ls| - 1] + [last]
  }

  /** Lines with a newline between them only. */
  function Text(ls: seq<string>): string
  {
    if ls == [] then "" else Join(ls[..|ls| - 1]) + ls[|ls| - 1]
  }

  lemma {:induction false} JoinAppend(a: seq<string>, b: seq<string>)
    ensures Join(a + b) == Join(a) + Join(b)
  {
    if a == [] {
      assert a + b == b;
    } else {
      assert (a + b)[1..] == a[1..] + b;
      JoinAppend(a[1..], b);
    }
  }

  lemma {:induction false} TrimAppend(x: string, y: string)
    ensures Trim(x + y) == if Trim(y) == [] then Trim(x) else x + Trim(y)
  {
    if y == [] {
      assert x + y == x;
    } else if IsTail(y[|y| - 1]) {
      assert (x + y)[..|x + y| - 1] == x + y[..|y| - 1];
      TrimAppend(x, y[..|y| - 1]);
    }
  }

  lemma JoinOne(last: string)
    ensures Join([last]) == last + ['\n']
  {
    assert [last][1..] == [];
  }

  lemma JoinLast(front: seq<string>, last: string)
    ensures Join(front + [last]) == Join(front) + (last + ['\n'])
  {
    hide Join;
    JoinAppend(front, [last]);
    JoinOne(last);
  }

  lemma TrimLine(x: string, last: string)
    ensures Trim(x + (last + ['\n'])) == if Trim(last) == [] then Trim(x) else x + Trim(last)
  {
    assert (last + ['\n'])[..|last|] == last;
    assert Trim(last + ['\n']) == Trim(last);
    TrimAppend(x, last + ['\n']);
  }

  lemma CleanLast(ls: seq<string>, t: string)
    requires CleanLines(ls) && ls != []
    ensures CleanLines(ls[..|ls| - 1]) && IsLine(ls[|ls| - 1]) && Clean(ls[|ls| - 1])
    ensures IsLine(t) && Clean(t) ==> CleanLines(ls[..|ls| - 1] + [t])
  {
    hide Clean, IsLine;
  }

  lemma {:induction false} TrimJoin(ls: seq<string>)
    requires CleanLines(ls)
    ensures Trim(Join(ls)) == Text(TrimLines(ls)) && CleanLines(TrimLines(ls))
  {
    if ls == [] {
      assert Join(ls) == "" && TrimLines(ls) == [] && Text([]) == "";
    } else {
      hide Clean, IsLine, Join, Trim, Text, CleanLines;
      var front, last := ls[..|ls| - 1], ls[|ls| - 1];
      assert ls == front + [last];
      CleanLast(ls, Trim(last));
      JoinLast(front, last);
      TrimLine(Join(front), last);
      if Trim(last) == [] {
        TrimJoin(front);
      } else {
        TrimIsLine(last);
        TextLast(front, Trim(last));
      }
    }
  }

  lemma TrimIsLine(last: string)
    requires IsLine(last) && Clean(last) && Trim(last) != []
    ensures IsLine(Trim(last)) && Clean(Trim(last))
  {
    TrimIsClean(last);
    hide Clean;
    assert forall k :: 0 <= k < |Trim(last)| ==> Trim(last)[k] == last[k];
  }

  lemma TextLast(front: seq<string>, last: string)
    ensures Text(front + [last]) == Join(front) + last
  {
    hide Join;
    assert (front + [last])[..|front|] == front;
  }

  lemma {:induction false} TokenEndIs(s: string, e: nat)
    requires e <= |s| && (forall k :: 0 <= k < e ==> !IsBreak(s[k])) && (e < |s| ==> IsBreak(s[e]))
    ensures TokenEnd(s) == e
  {
    if e > 0 {
      TokenEndIs(s[1..], e - 1);
    }
  }

  lemma {:induction false} TokensOfLine(l: string, rest: string)
    requires IsLine(l) && (rest == [] || IsBreak(rest[0]))
    ensures Tokens(l + rest) == [l] + Tokens(rest)
  {
    var s := l + rest;
    TokenEndIs(s, |l|);
    assert s[..|l|] == l && s[|l|..] == rest && s[0] == l[0];
  }

  lemma {:induction false} TokensOfJoin(ls: seq<string>, last: string)
    requires (forall i :: 0 <= i < |ls| ==> IsLine(ls[i])) && IsLine(last)
    ensures Tokens(Join(ls) + last) == ls + [last]
  {
    JoinParts(ls);
    hide *;
    if ls == [] {
      TokensOfLine(last, []);
      NothingLeft();
      assert last + [] == last && Join(ls) + last == last && [last] + [] == [] + [last];
    } else {
      var rest := Join(ls[1..]) + last;
      TokensOfJoin(ls[1..], last);
      assert ls[0] + ['\n'] + Join(ls[1..]) + last == ls[0] + (['\n'] + rest);
      BreakFirst(rest);
      TokensOfLine(ls[0], ['\n'] + rest);
      TokensBreak(rest);
      assert ls + [last] == [ls[0]] + (ls[1..] + [last]);
    }
  }

  lemma JoinParts(ls: seq<string>)
    ensures Join(ls) == if ls == [] then "" else ls[0] + ['\n'] + Join(ls[1..])
  {
  }

  lemma BreakFirst(rest: string)
    ensures IsBreak((['\n'] + rest)[0])
  {
  }

  lemma NothingLeft()
    ensures Tokens([]) == []
  {
  }

  lemma TokensBreak(rest: string)
    ensures Tokens(['\n'] + rest) == Tokens(rest)
  {
    assert (['\n'] + rest)[1..] == rest;
  }

  lemma {:induction false} CleanLinesStay(ls: seq<string>)
    requires CleanLines(ls)
    ensures KeptLines(ls) == ls
  {
    if ls != [] {
      CleanLinesStay(ls[1..]);
      assert ls[0][..|ls[0]|] == ls[0];
    }
  }

  /** The lines of a cleaned text. */
  lemma CleanedLines(sql: string)
    ensures var ls := TrimLines(KeptLines(Tokens(sql)));
            CleanLines(ls) && Cleaned(sql) == Text(ls) && Tokens(Cleaned(sql)) == ls
  {
    hide Tokens, KeptLines, Kept, Clean, Trim, Join, TrimLines, Text;
    var kept := KeptLines(Tokens(sql));
    TokensAreLines(sql);
    KeptIsJoin(Tokens(sql));
    TrimJoin(kept);
    TokensOfText(TrimLines(kept));
  }

  lemma TokensOfText(ls: seq<string>)
    requires forall i :: 0 <= i < |ls| ==> IsLine(ls[i])
    ensures Tokens(Text(ls)) == ls
  {
    if ls != [] {
      hide Tokens, Join;
      var front, last := ls[..|ls| - 1], ls[|ls| - 1];
      TokensOfJoin(front, last);
      assert front + [last] == ls;
    }
  }

  /** FindComments keeps every line of a cleaned text whole. */
  lemma CleanedLinesAreClean(sql: string)
    ensures forall i :: 0 <= i < |Tokens(Cleaned(sql))| ==>
              Valid(Tokens(Cleaned(sql))[i]) == |Tokens(Cleaned(sql))[i]| > 0
  {
    CleanedLines(sql);
  }

  lemma KeptText(ls: seq<string>)
    requires CleanLines(ls)
    ensures Kept(ls) == if ls == [] then "" else Text(ls) + ['\n']
  {
    hide Clean, Join, Kept, KeptLines;
    CleanLinesStay(ls);
    KeptIsJoin(ls);
    if ls == [] {
      KeptEmpty();
    } else {
      var front, last := ls[..|ls| - 1], ls[|ls| - 1];
      assert ls == front + [last];
      JoinLast(front, last);
      assert Join(front) + (last + ['\n']) == Join(front) + last + ['\n'];
    }
  }

  /** RemoveComments is idempotent, on every text. */
  lemma CleanedTwice(sql: string)
    ensures Cleaned(Cleaned(sql)) == Cleaned(sql)
  {
    hide Tokens, KeptLines, CleanLines, TrimLines, Kept, Trim;
    var out, ls := Cleaned(sql), TrimLines(KeptLines(Tokens(sql)));
    CleanedLines(sql);
    KeptText(ls);
    TrimTwice(Kept(Tokens(sql)));
    if ls != [] {
      TrimLine("", out);
      assert "" + (out + ['\n']) == out + ['\n'];
    }
  }

  lemma KeptEmpty()
    ensures Kept([]) == ""
  {
  }

  lemma {:induction false} TrimTwice(s: string)
    ensures Trim(Trim(s)) == Trim(s)
  {
  }
}
