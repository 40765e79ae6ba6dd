// The look-up of CMTProfile, line by line.
module ProfileLines {
  import opened Options
  import opened CText
  import opened Profile

  /** The length of the first line with its line end. */
  function LineLen(rest: string): (n: nat)
    ensures n <= |rest| && (rest != "" ==> n > 0)
  {
    LineEnd(rest, 0)
  }

  /** The name in brackets, when the line begins with one. */
  function Header(line: string): Option<string>
  {
    var q := Scan(line, 0, NotBlank);
    if q == |line| || line[q] != '[' then None
    else
      var e := Scan(line, q + 1, ClosesName);
      if e < |line| && line[e] == ']' then Some(line[q + 1..e]) else None
  }

  /** What follows the first line that is a header of the name. */
  function BySection(rest: string, name: string): Option<string>
    decreases |rest|
  {
    if rest == "" then None
    else
      var n := LineLen(rest);
      var h := Header(rest[..n]);
      if h.Some? && SameName(h.value, name) then Some(rest[n..]) else BySection(rest[n..], name)
  }

  /** The entry a line is for: the run of letters and digits in it.  A bracket or the end of the file behind the run stops the search. */
  function EntryOf(line: string): Option<(string, string)>
  {
    var q := Scan(line, 0, NotBlank);
    var e := Scan(line, q, NotAlnum);
    if e == |line| || line[e] == '[' then None else Some((line[q..e], line[e..]))
  }

  /** What follows the name in the first line for it, if no line before stops the search. */
  function ByEntry(rest: string, name: string): Option<string>
    decreases |rest|
  {
    if rest == "" then None
    else
      var n := LineLen(rest);
      var e := EntryOf(rest[..n]);
      if e == None then None
      else if SameName(e.value.0, name) then Some(e.value.1)
      else ByEntry(rest[n..], name)
  }

  /** The value of the entry in the section, line by line. */
  function ByLines(t: string, section: string, entry: string): Option<string>
  {
    match BySection(t, section)
    case None => None
    case Some(rest) =>
      match ByEntry(rest, entry)
      case None => None
      case Some(line) => Value(line, 0)
  }

  /** a and n are the ends of one line of t. */
  ghost predicate IsLine(t: string, a: nat, n: nat) {
    a < n <= |t| && (forall k :: a <= k < n - 1 ==> t[k] != '\n') && (n < |t| ==> t[n - 1] == '\n')
  }

  lemma FirstLine(t: string, a: nat)
    requires a < |t|
    ensures IsLine(t, a, LineEnd(t, a))
    ensures LineLen(t[a..]) == LineEnd(t, a) - a
    ensures t[a..][..LineLen(t[a..])] == t[a..LineEnd(t, a)] && t[a..][LineLen(t[a..])..] == t[LineEnd(t, a)..]
  {
    hide Scan;
    var e := Scan(t, a, IsNewline);
    var s := t[a..];
    assert forall k :: 0 <= k < |s| ==> s[k] == t[a + k];
    assert IsScan(s, 0, IsNewline, e - a);
    ScanUnique(s, 0, IsNewline, e - a);
  }

  /** A search that every line end stops does not leave its line. */
  lemma ScanInLine(t: string, a: nat, n: nat, i: nat, stop: char -> bool)
    requires IsLine(t, a, n) && i <= n - a && (i == n - a ==> n == |t|) && stop('\n')
    ensures Scan(t, a + i, stop) == a + Scan(t[a..n], i, stop)
    ensures Scan(t[a..n], i, stop) == n - a ==> n == |t|
  {
    hide Scan;
    var line := t[a..n];
    var e := Scan(line, i, stop);
    assert forall k :: 0 <= k < |line| ==> line[k] == t[a + k];
    assert e == |line| && i < |line| ==> line[|line| - 1] != '\n';
    assert IsScan(t, a + i, stop, a + e);
    ScanUnique(t, a + i, stop, a + e);
  }

  /** The end of the line from anywhere in it. */
  lemma EndOfLine(t: string, a: nat, n: nat, p: nat)
    requires IsLine(t, a, n) && a <= p <= n && (p == n ==> n == |t|)
    ensures LineEnd(t, p) == n
  {
    hide Scan;
    var e := if t[n - 1] == '\n' then n - 1 else n;
    if p == n {
      ScanUnique(t, p, IsNewline, n);
    } else {
      ScanUnique(t, p, IsNewline, e);
    }
  }

  predicate IsHeader(line: string, name: string) { Header(line).Some? && SameName(Header(line).value, name) }

  lemma NoSection(t: string, name: string)
    ensures Scan(t, |t|, NotBlank) == |t| && Section(t, |t|, name) == None
    ensures BySection("", name) == None && t[|t|..] == ""
  {
  }

  /** A turn of GoSection takes one line, whatever is in it. */
  lemma SectionLine(t: string, a: nat, n: nat, name: string)
    requires IsLine(t, a, n)
    ensures Section(t, Scan(t, a, NotBlank), name)
         == if IsHeader(t[a..n], name) then Some(n) else Section(t, Scan(t, n, NotBlank), name)
  {
    hide Scan, LineEnd, SameName, Section;
    NoSection(t, name);
    var line := t[a..n];
    ScanInLine(t, a, n, 0, NotBlank);
    var q := Scan(line, 0, NotBlank);
    if q < |line| {
      if line[q] == '[' {
        BracketLine(t, a, n, q, name);
      } else {
        SectionNext(t, a + q, name);
        EndOfLine(t, a, n, a + q);
      }
    }
  }

  lemma BracketLine(t: string, a: nat, n: nat, q: nat, name: string)
    requires IsLine(t, a, n) && a + q < n && t[a + q] == '['
    ensures var e := Scan(t[a..n], q + 1, ClosesName);
      Section(t, a + q, name) == if e < n - a && t[a + e] == ']' && SameName(t[a..n][q + 1..e], name) then Some(n)
                                 else Section(t, Scan(t, n, NotBlank), name)
  {
    hide Scan, LineEnd, SameName, Section, IsLine;
    LineBounds(t, a, n);
    NoSection(t, name);
    ScanInLine(t, a, n, q + 1, ClosesName);
    SectionNext(t, a + q, name);
    var e := Scan(t[a..n], q + 1, ClosesName);
    SubSlice(t, a, n, q + 1, e);
    EndOfLine(t, a, n, a + e);
    if e < n - a {
      LineEndAt(t, a + e);
    }
  }

  lemma LineBounds(t: string, a: nat, n: nat)
    requires IsLine(t, a, n)
    ensures a < n <= |t| && (n < |t| ==> t[n - 1] == '\n') && forall k :: a <= k < n && t[k] == '\n' ==> k == n - 1
    ensures forall k :: 0 <= k < n - a ==> t[a..n][k] == t[a + k]
  {
  }

  lemma SubSlice(t: string, a: nat, n: nat, i: nat, j: nat)
    requires a <= n <= |t| && i <= j <= n - a
    ensures t[a..n][i..j] == t[a + i..a + j]
  {
    var s := t[a..n];
    assert forall k :: i <= k < j ==> s[k] == t[a + k];
    assert s[i..j] == t[a + i..a + j];
  }

  lemma LineSize(t: string, a: nat, n: nat)
    requires IsLine(t, a, n)
    ensures a < n <= |t| && (n < |t| ==> t[n - 1] == '\n')
  {
  }

  ghost predicate IsRest(t: string, found: Option<nat>, rest: Option<string>) {
    match found
    case None => rest == None
    case Some(p) => p <= |t| && rest == Some(t[p..])
  }

  /** GoSection finds the first header line of the name. */
  lemma {:induction false} SectionByLine(t: string, a: nat, name: string)
    requires a <= |t|
    ensures IsRest(t, Section(t, Scan(t, a, NotBlank), name), BySection(t[a..], name))
    decreases |t| - a
  {
    hide Scan, LineEnd, LineLen, SameName, Section, Header, IsLine;
    NoSection(t, name);
    if a < |t| {
      var n := LineEnd(t, a);
      FirstLine(t, a);
      SectionLine(t, a, n, name);
      SectionByLine(t, n, name);
    }
  }

  /** A turn of GoEntry takes one line. */
  lemma EntryLine(t: string, a: nat, n: nat, name: string)
    requires IsLine(t, a, n)
    ensures var e := EntryOf(t[a..n]);
      Entry(t, a, name) == if e == None then None
                           else if SameName(e.value.0, name) then Some(n - |e.value.1|)
                           else Entry(t, n, name)
  {
    hide Scan, LineEnd, SameName, Entry, IsLine;
    LineBounds(t, a, n);
    EntryNext(t, a, name);
    ScanInLine(t, a, n, 0, NotBlank);
    var line := t[a..n];
    var q := Scan(line, 0, NotBlank);
    ScanInLine(t, a, n, q, NotAlnum);
    var e := Scan(line, q, NotAlnum);
    SubSlice(t, a, n, q, e);
    EndOfLine(t, a, n, a + e);
  }

  /** GoEntry finds the first line for the name: what it leaves to be read begins with the rest of that line. */
  lemma {:induction false} EntryByLine(t: string, a: nat, name: string)
    requires a <= |t|
    ensures match Entry(t, a, name)
            case None => ByEntry(t[a..], name) == None
            case Some(p) => exists n: nat :: p <= n <= |t| && IsLine(t, p, n) && ByEntry(t[a..], name) == Some(t[p..n])
    decreases |t| - a
  {
    hide Scan, LineEnd, LineLen, SameName, Entry, EntryOf, IsLine;
    if a == |t| {
      NoEntry(t, name);
      return;
    }
    var n := LineEnd(t, a);
    FirstLine(t, a);
    LineBounds(t, a, n);
    EntryLine(t, a, n, name);
    EntryByLine(t, n, name);
    var e := EntryOf(t[a..n]);
    if e.Some? && SameName(e.value.0, name) {
      RestOfLine(t, a, n);
      var p := n - |e.value.1|;
      assert IsLine(t, p, n) && e.value.1 == t[p..n];
    }
  }

  lemma NoEntry(t: string, name: string)
    ensures Entry(t, |t|, name) == None && ByEntry("", name) == None && t[|t|..] == ""
  {
  }

  /** What EntryOf leaves of a line is the end of that line. */
  lemma RestOfLine(t: string, a: nat, n: nat)
    requires IsLine(t, a, n) && EntryOf(t[a..n]).Some?
    ensures var rest := EntryOf(t[a..n]).value.1;
      0 < |rest| <= n - a && IsLine(t, n - |rest|, n) && rest == t[n - |rest|..n]
  {
    hide Scan;
    var line := t[a..n];
    var e := Scan(line, Scan(line, 0, NotBlank), NotAlnum);
    assert line[e..] == t[a + e..n];
  }

  lemma ScanBounds(t: string, p: nat, stop: char -> bool)
    requires p <= |t|
    ensures p <= Scan(t, p, stop) <= |t|
  {
  }

  /** GetValue reads nothing behind the line it starts in. */
  lemma ValueByLine(t: string, p: nat, n: nat)
    requires IsLine(t, p, n)
    ensures Value(t, p) == Value(t[p..n], 0)
  {
    hide Scan, Printable, IsLine, IsScan;
    LineSize(t, p, n);
    var line := t[p..n];
    ScanInLine(t, p, n, 0, NotBlank);
    var q := Scan(line, 0, NotBlank);
    ScanBounds(line, 0, NotBlank);
    if q < |line| && line[q] == '=' {
      ScanInLine(t, p, n, q + 1, NotBlank);
      var v := Scan(line, q + 1, NotBlank);
      ScanBounds(line, q + 1, NotBlank);
      ScanInLine(t, p, n, v, EndsValue);
      ScanBounds(line, v, EndsValue);
      SubSlice(t, p, n, v, Scan(line, v, EndsValue));
    }
  }

  /** The three searches one after the other are the look-up by lines. */
  lemma LookUpByLine(t: string, section: string, entry: string)
    ensures ByPosition(t, Scan(t, 0, NotBlank), section, entry) == ByLines(t, section, entry)
  {
    hide Scan, Section, Entry, Value, BySection, ByEntry, IsLine;
    SectionByLine(t, 0, section);
    assert t[0..] == t;
    var s := Section(t, Scan(t, 0, NotBlank), section);
    if s.Some? {
      EntryByLine(t, s.value, entry);
      var e := Entry(t, s.value, entry);
      if e.Some? {
        var n: nat :| e.value <= n <= |t| && IsLine(t, e.value, n) && ByEntry(t[s.value..], entry) == Some(t[e.value..n]);
        ValueByLine(t, e.value, n);
      }
    }
  }

  // The flag left set by a failed look-up: the search then begins behind the first character that is no blank.

  /** Where the search begins. */
  function FirstLook(t: string, stale: bool): (q: nat)
    ensures q <= |t|
  {
    var q := Scan(t, 0, NotBlank);
    if stale && q < |t| then q + 1 else q
  }

  /**
   * The first line is no header of the name, and does not become one when its first character that is no blank
   * is dropped.  Of a first line without such a character its line end is dropped: then the second line must not
   * be a header of the name behind blanks.
   */
  predicate Unharmed(t: string, name: string)
  {
    var q := Scan(t, 0, NotBlank);
    if q == |t| then true
    else if t[q] == '\n' then
      q + 1 < |t| && !NotBlank(t[q + 1]) ==> !IsHeader(t[q + 1..LineEnd(t, q + 1)], name)
    else
      var n := LineEnd(t, 0);
      && !IsHeader(t[..n], name)
      && (q + 1 < n && n <= |t| && t[q + 1] == '[' ==> !IsHeader(t[q + 1..n], name))
  }

  /** A search that begins at a character of a line which is no blank takes that line or goes on behind it. */
  lemma LookAt(t: string, p: nat, n: nat, name: string)
    requires IsLine(t, p, n)
    ensures Section(t, p, name) == if t[p] == '[' && IsHeader(t[p..n], name) then Some(n)
                                   else Section(t, Scan(t, n, NotBlank), name)
  {
    hide Scan, LineEnd, SameName, Section;
    if t[p] == '[' {
      ScanUnique(t, p, NotBlank, p);
      SectionLine(t, p, n, name);
    } else {
      SectionNext(t, p, name);
      EndOfLine(t, p, n, p);
    }
  }

  /** What is found behind a line is not the end of that line. */
  lemma FoundBehind(t: string, n: nat, name: string)
    requires n <= |t|
    ensures Section(t, Scan(t, n, NotBlank), name) != Some(n)
  {
  }

  /** A line read from one of its later characters ends where it ends. */
  lemma RestIsLine(t: string, a: nat, n: nat, p: nat)
    requires IsLine(t, a, n) && a <= p < n
    ensures IsLine(t, p, n)
  {
  }

  /** A name in brackets is no name for the text without the bracket. */
  lemma NotBoth(t: string, p: nat, n: nat, name: string)
    requires p + 1 < n <= |t| && t[p] == '[' == t[p + 1] && IsHeader(t[p..n], name)
    ensures !IsHeader(t[p + 1..n], name)
  {
    hide Scan;
    var line, rest := t[p..n], t[p + 1..n];
    ScanUnique(line, 0, NotBlank, 0);
    ScanUnique(rest, 0, NotBlank, 0);
    var e := Scan(line, 1, ClosesName);
    assert forall k :: 0 <= k < |rest| ==> rest[k] == line[k + 1];
    ScanUnique(rest, 1, ClosesName, e - 1);
    assert |line[1..e]| == |rest[1..e - 1]| + 1;
  }

  /** GoSection finds the same with the flag set as with the flag clear exactly when the text is Unharmed. */
  lemma StaleFlagExactly(t: string, name: string)
    ensures Section(t, FirstLook(t, true), name) == Section(t, FirstLook(t, false), name) <==> Unharmed(t, name)
  {
    hide Scan, LineEnd, SameName, Section, IsLine, IsHeader;
    var q := Scan(t, 0, NotBlank);
    if q < |t| {
      if t[q] == '\n' {
        EmptyFirstLine(t, q, name);
      } else {
        FullFirstLine(t, q, name);
      }
    }
  }

  lemma EmptyFirstLine(t: string, q: nat, name: string)
    requires q == Scan(t, 0, NotBlank) < |t| && t[q] == '\n'
    ensures Section(t, q + 1, name) == Section(t, q, name) <==>
      (q + 1 < |t| && !NotBlank(t[q + 1]) ==> !IsHeader(t[q + 1..LineEnd(t, q + 1)], name))
  {
    hide Scan, LineEnd, SameName, Section, IsHeader, IsLine;
    FirstLine(t, q);
    LineEndAt(t, q);
    LookAt(t, q, q + 1, name);
    if q + 1 < |t| {
      var n := LineEnd(t, q + 1);
      FirstLine(t, q + 1);
      LookAt(t, q + 1, n, name);
      SectionLine(t, q + 1, n, name);
      FoundBehind(t, n, name);
      if NotBlank(t[q + 1]) {
        ScanUnique(t, q + 1, NotBlank, q + 1);
      }
    } else {
      NoSection(t, name);
    }
  }

  lemma FullFirstLine(t: string, q: nat, name: string)
    requires q == Scan(t, 0, NotBlank) < |t| && t[q] != '\n'
    ensures var n := LineEnd(t, 0);
      Section(t, q + 1, name) == Section(t, q, name) <==>
      !IsHeader(t[..n], name) && (q + 1 < n && n <= |t| && t[q + 1] == '[' ==> !IsHeader(t[q + 1..n], name))
  {
    hide Scan, LineEnd, SameName, Section, IsHeader, IsLine;
    var n := LineEnd(t, 0);
    FirstLine(t, 0);
    LineSize(t, 0, n);
    QInFirstLine(t, q, n);
    assert t[0..n] == t[..n] && t[0..] == t;
    SectionLine(t, 0, n, name);
    FoundBehind(t, n, name);
    if q + 1 < n {
      RestIsLine(t, 0, n, q + 1);
      LookAt(t, q + 1, n, name);
      RestIsLine(t, 0, n, q);
      LookAt(t, q, n, name);
      if t[q] == '[' && t[q + 1] == '[' && IsHeader(t[q..n], name) {
        NotBoth(t, q, n, name);
      }
    } else {
      NoSection(t, name);
      LastHeader(t, q, n, name);
    }
  }

  lemma QInFirstLine(t: string, q: nat, n: nat)
    requires IsLine(t, 0, n) && q == Scan(t, 0, NotBlank) < |t| && t[q] != '\n'
    ensures q < n && (q + 1 == n ==> n == |t|)
  {
    hide Scan;
  }

  /** A line that ends with its first character that is no blank is no header. */
  lemma LastHeader(t: string, q: nat, n: nat, name: string)
    requires q == Scan(t, 0, NotBlank) && q + 1 == n == |t|
    ensures !IsHeader(t[..n], name)
  {
    hide Scan;
    assert t[..n] == t;
  }

  /** Two look-ups for a section, the first of which fails: the second one's answer is that of a fresh reader
      exactly when the text is Unharmed. */
  method LookAgain(f: CMTProfile, missing: string, name: string) returns (found: Option<nat>)
    requires f.Valid() && !f.m_bEOFRead && Section(f.text, FirstLook(f.text, false), missing) == None
    modifies f
    ensures f.Valid() && found == Section(f.text, FirstLook(f.text, true), name)
    ensures found == Section(f.text, FirstLook(f.text, false), name) <==> Unharmed(f.text, name)
  {
    hide Scan, Section, Unharmed;
    StaleFlagExactly(f.text, name);
    f.Rewind();
    var ok := f.GoSection(missing);
    f.Rewind();
    ok := f.GoSection(name);
    found := if ok then Some(f.pos) else None;
  }
}
