// CMTProfile (Library/MTPrfile.cpp): the reader of an ini file over a cursor with one character of push-back.
module Profile {
  import opened Options
  import opened CText

  predicate NotBlank(c: char) { c != ' ' && c != '\t' }

  predicate IsAlnum(c: char) { IsDigit(c) || 'a' <= c <= 'z' || 'A' <= c <= 'Z' }

  predicate NotAlnum(c: char) { !IsAlnum(c) }

  predicate IsNewline(c: char) { c == '\n' }

  predicate ClosesName(c: char) { c == '\n' || c == ']' }

  predicate EndsValue(c: char) { c == '\n' || c == ';' }

  predicate NotGraph(c: char) { !IsGraph(c) }

  function Lower(c: char): char { if 'A' <= c <= 'Z' then (c as int + 32) as char else c }

  /** strcasecmp(a, b) == 0. */
  predicate SameName(a: string, b: string) { |a| == |b| && forall i :: 0 <= i < |a| ==> Lower(a[i]) == Lower(b[i]) }

  /** Names are the same when each letter is, or is the same letter in the other case. */
  lemma SameNameExactly(a: string, b: string)
    ensures SameName(a, b) <==> |a| == |b| && forall i :: 0 <= i < |a| ==>
      || a[i] == b[i]
      || ('A' <= a[i] <= 'Z' && b[i] as int == a[i] as int + 32)
      || ('A' <= b[i] <= 'Z' && a[i] as int == b[i] as int + 32)
  {
  }

  ghost predicate IsScan(t: string, p: nat, stop: char -> bool, e: nat) {
    p <= e <= |t| && (forall k :: p <= k < e ==> !stop(t[k])) && (e < |t| ==> stop(t[e]))
  }

  /** The first place at or after p where stop holds, or the end. */
  function Scan(t: string, p: nat, stop: char -> bool): (e: nat)
    requires p <= |t|
    ensures IsScan(t, p, stop, e)
    decreases |t| - p
  {
    if p < |t| && !stop(t[p]) then Scan(t, p + 1, stop) else p
  }

  lemma ScanUnique(t: string, p: nat, stop: char -> bool, e: nat)
    requires p <= |t| && IsScan(t, p, stop, e)
    ensures e == Scan(t, p, stop)
  {
    hide Scan;
    var f := Scan(t, p, stop);
    assert e < f ==> e < |t|;
    assert f < e ==> f < |t|;
  }

  /** Just behind the next line end, or the end of the text. */
  function LineEnd(t: string, p: nat): (e: nat)
    requires p <= |t|
    ensures p <= e <= |t| && (p < |t| ==> p < e)
  {
    var e := Scan(t, p, IsNewline);
    if e < |t| then e + 1 else e
  }

  // What the three searches find, by position in the text.

  /** GoSection, looking at q for a bracket; the result is where the line after the header begins. */
  function Section(t: string, q: nat, name: string): (r: Option<nat>)
    requires q <= |t|
    ensures r.Some? ==> q < r.value <= |t|
    decreases |t| - q
  {
    if q == |t| then None
    else if t[q] != '[' then Section(t, Scan(t, LineEnd(t, q), NotBlank), name)
    else
      var e := Scan(t, q + 1, ClosesName);
      if e == |t| then None
      else if t[e] == ']' && SameName(t[q + 1..e], name) then Some(LineEnd(t, e + 1))
      else Section(t, Scan(t, LineEnd(t, e), NotBlank), name)
  }

  /** GoEntry; the result is where the name ends. */
  function Entry(t: string, p: nat, name: string): (r: Option<nat>)
    requires p <= |t|
    ensures r.Some? ==> p <= r.value < |t|
    decreases |t| - p
  {
    var q := Scan(t, p, NotBlank);
    var e := Scan(t, q, NotAlnum);
    if e == |t| || t[e] == '[' then None
    else if SameName(t[q..e], name) then Some(e)
    else Entry(t, LineEnd(t, e), name)
  }

  /** The longest prefix of printing characters. */
  function Printable(s: string): string { s[..Scan(s, 0, NotGraph)] }

  /** GetValue at p: behind blanks and '=' and blanks, the printable characters up to the line end or ';'. */
  function Value(t: string, p: nat): Option<string>
    requires p <= |t|
  {
    var q := Scan(t, p, NotBlank);
    if q == |t| || t[q] != '=' then None
    else
      var v := Scan(t, q + 1, NotBlank);
      Some(Printable(t[v..Scan(t, v, EndsValue)]))
  }

  lemma SectionNext(t: string, q: nat, name: string)
    requires q < |t|
    ensures t[q] != '[' ==> Section(t, q, name) == Section(t, Scan(t, LineEnd(t, q), NotBlank), name)
    ensures t[q] == '[' ==> var e := Scan(t, q + 1, ClosesName);
      && (e == |t| ==> Section(t, q, name) == None)
      && (e < |t| && t[e] == ']' && SameName(t[q + 1..e], name) ==> Section(t, q, name) == Some(LineEnd(t, e + 1)))
      && (e < |t| && !(t[e] == ']' && SameName(t[q + 1..e], name)) ==>
        Section(t, q, name) == Section(t, Scan(t, LineEnd(t, e), NotBlank), name))
  {
    hide Scan, LineEnd, SameName;
  }

  /** LineEnd from a place that holds no line end. */
  lemma LineEndAt(t: string, p: nat)
    requires p < |t|
    ensures t[p] == '\n' ==> LineEnd(t, p) == p + 1
    ensures t[p] != '\n' ==> LineEnd(t, p) == LineEnd(t, p + 1)
  {
  }

  class CMTProfile {
    const text: string
    var pos: nat
    var m_bEOFRead: bool
    var m_pBuffer: string

    predicate Valid()
      reads this
    {
      pos <= |text|
    }

    constructor (file: string)
      ensures Valid() && text == file && pos == 0 && !m_bEOFRead
    {
      text, pos, m_bEOFRead, m_pBuffer := file, 0, false, "";
    }

    /** fseek(m_pFile, 0, SEEK_SET); the flag stays what it is. */
    method Rewind()
      modifies `pos
      ensures pos == 0
    {
      pos := 0;
    }

    method Read() returns (c: Option<char>)
      requires Valid()
      modifies `pos, `m_bEOFRead
      ensures Valid()
      ensures old(pos) < |text| ==> c == Some(text[old(pos)]) && pos == old(pos) + 1 && m_bEOFRead == old(m_bEOFRead)
      ensures old(pos) == |text| ==> c == None && pos == old(pos) && m_bEOFRead
    {
      if pos < |text| {
        c := Some(text[pos]);
        pos := pos + 1;
      } else {
        c := None;
        m_bEOFRead := true;
      }
    }

    /** One character back, unless the end of the file was read: then only the flag is cleared. */
    method Unread()
      requires Valid()
      modifies `pos, `m_bEOFRead
      ensures Valid() && !m_bEOFRead
      ensures pos == if old(m_bEOFRead) || old(pos) == 0 then old(pos) else old(pos) - 1
    {
      if m_bEOFRead {
        m_bEOFRead := false;
        return;
      }
      if pos > 0 {
        pos := pos - 1;
      }
    }

    /** Where SkipSpace stops: with the flag left set by an earlier failure one character is lost. */
    ghost function AfterBlanks(p: nat, stale: bool): nat
      requires p <= |text|
    {
      var q := Scan(text, p, NotBlank);
      if stale && q < |text| then q + 1 else q
    }

    method SkipSpace()
      requires Valid()
      modifies `pos, `m_bEOFRead
      ensures Valid() && !m_bEOFRead && pos == AfterBlanks(old(pos), old(m_bEOFRead))
    {
      hide Scan;
      ghost var p, e := pos, pos;
      var c := Read();
      while c == Some(' ') || c == Some('\t')
        invariant p <= e <= |text| && if e < |text| then c == Some(text[e]) && pos == e + 1 else c == None && pos == e
        invariant m_bEOFRead == (old(m_bEOFRead) || c.None?)
        invariant forall k :: p <= k < e ==> !NotBlank(text[k])
        decreases |text| - e
      {
        c := Read();
        e := e + 1;
      }
      ScanUnique(text, p, NotBlank, e);
      Unread();
    }

    method SkipLine()
      requires Valid() && !m_bEOFRead
      modifies `pos, `m_bEOFRead
      ensures Valid() && !m_bEOFRead && pos == LineEnd(text, old(pos))
    {
      hide Scan;
      ghost var p, e := pos, pos;
      var c := Read();
      while c != Some('\n') && c.Some?
        invariant p <= e <= |text| && if e < |text| then c == Some(text[e]) && pos == e + 1 else c == None && pos == e
        invariant m_bEOFRead == c.None?
        invariant forall k :: p <= k < e ==> !IsNewline(text[k])
        decreases |text| - e
      {
        c := Read();
        e := e + 1;
      }
      ScanUnique(text, p, IsNewline, e);
      if c.None? {
        Unread();
      }
    }

    /** The inner loop of GoSection: the name between the brackets. */
    method ReadName() returns (c: Option<char>)
      requires Valid() && !m_bEOFRead
      modifies `pos, `m_bEOFRead, `m_pBuffer
      ensures var e := Scan(text, old(pos), ClosesName);
        && old(pos) <= e <= |text| && m_pBuffer == text[old(pos)..e] && m_bEOFRead == c.None?
        && (if e < |text| then c == Some(text[e]) && pos == e + 1 else c == None && pos == e)
    {
      hide Scan;
      ghost var p, e := pos, pos;
      m_pBuffer := "";
      c := Read();
      while c != Some('\n') && c.Some? && c != Some(']')
        invariant p <= e <= |text| && if e < |text| then c == Some(text[e]) && pos == e + 1 else c == None && pos == e
        invariant m_bEOFRead == c.None?
        invariant m_pBuffer == text[p..e] && forall k :: p <= k < e ==> !ClosesName(text[k])
        decreases |text| - e
      {
        SliceNext(text, p, e);
        m_pBuffer := m_pBuffer + [c.value];
        c := Read();
        e := e + 1;
      }
      ScanUnique(text, p, ClosesName, e);
    }

    /** One turn of GoSection behind the blanks: true and false are its results, None is another turn. */
    method TryLine(lpszSection: string) returns (done: Option<bool>)
      requires Valid() && !m_bEOFRead
      modifies this
      ensures Valid() && m_bEOFRead == (done == Some(false))
      ensures done == Some(true) ==> Section(text, old(pos), lpszSection) == Some(pos)
      ensures done == Some(false) ==> Section(text, old(pos), lpszSection) == None && pos == |text|
      ensures done == None ==> old(pos) < pos
      ensures done == None ==> Section(text, old(pos), lpszSection) == Section(text, Scan(text, pos, NotBlank), lpszSection)
    {
      hide Scan, Section, LineEnd, SameName;
      ghost var q := pos;
      if q < |text| {
        SectionNext(text, q, lpszSection);
      } else {
        AtEnd(lpszSection);
      }
      var c := Read();
      if c != Some('[') && c.Some? {
        Unread();
        SkipLine();
        return None;
      }
      if c.None? {
        return Some(false);
      }
      c := ReadName();
      if c.None? {
        return Some(false);
      } else if c == Some('\n') {
        Unread();
        SkipLine();
        return None;
      }
      LineEndAt(text, pos - 1);
      SkipLine();
      done := if SameName(m_pBuffer, lpszSection) then Some(true) else None;
    }

    /** GoSection ends in front of the line behind the header, or fails at the end of the file with the flag set. */
    method GoSection(lpszSection: string) returns (ok: bool)
      requires Valid()
      modifies this
      ensures Valid() && m_bEOFRead == !ok && (!ok ==> pos == |text|)
      ensures Section(text, AfterBlanks(old(pos), old(m_bEOFRead)), lpszSection) == if ok then Some(pos) else None
    {
      hide Scan, Section, LineEnd, SameName;
      ghost var want := Section(text, AfterBlanks(pos, m_bEOFRead), lpszSection);
      while true
        invariant Valid() && want == Section(text, AfterBlanks(pos, m_bEOFRead), lpszSection)
        decreases |text| - pos
      {
        SkipSpace();
        var done := TryLine(lpszSection);
        if done.Some? {
          return done.value;
        }
      }
    }

    lemma AtEnd(name: string)
      ensures Section(text, |text|, name) == None
    {
    }

    /** The inner loop of GoEntry: a run of letters and digits. */
    method ReadRun() returns (c: Option<char>)
      requires Valid() && !m_bEOFRead
      modifies `pos, `m_bEOFRead, `m_pBuffer
      ensures var e := Scan(text, old(pos), NotAlnum);
        && old(pos) <= e <= |text| && m_pBuffer == text[old(pos)..e] && m_bEOFRead == c.None?
        && (if e < |text| then c == Some(text[e]) && pos == e + 1 else c == None && pos == e)
    {
      hide Scan;
      ghost var p, e := pos, pos;
      m_pBuffer := "";
      c := Read();
      while c.Some? && IsAlnum(c.value)
        invariant p <= e <= |text| && if e < |text| then c == Some(text[e]) && pos == e + 1 else c == None && pos == e
        invariant m_bEOFRead == c.None?
        invariant m_pBuffer == text[p..e] && forall k :: p <= k < e ==> !NotAlnum(text[k])
        decreases |text| - e
      {
        SliceNext(text, p, e);
        m_pBuffer := m_pBuffer + [c.value];
        c := Read();
        e := e + 1;
      }
      ScanUnique(text, p, NotAlnum, e);
    }

    /** GoEntry ends behind the name.  It gives up in front of a bracket, or at the end of the file with the flag set. */
    method GoEntry(lpszEntry: string) returns (ok: bool)
      requires Valid() && !m_bEOFRead
      modifies this
      ensures Valid() && Entry(text, old(pos), lpszEntry) == if ok then Some(pos) else None
      ensures m_bEOFRead ==> !ok && pos == |text|
      ensures !ok && !m_bEOFRead ==> pos < |text| && text[pos] == '['
    {
      hide Scan, Entry, LineEnd, SameName;
      ghost var want := Entry(text, pos, lpszEntry);
      while true
        invariant Valid() && !m_bEOFRead && want == Entry(text, pos, lpszEntry)
        decreases |text| - pos
      {
        EntryNext(text, pos, lpszEntry);
        SkipSpace();
        var c := ReadRun();
        if c.None? {
          return false;
        } else if c == Some('[') {
          Unread();
          return false;
        }
        Unread();
        if SameName(m_pBuffer, lpszEntry) {
          return true;
        }
        SkipLine();
      }
    }

    /** The value loop of GetValue, and the zeros written over every character that does not print. */
    method ReadValue()
      requires Valid() && !m_bEOFRead
      modifies this
      ensures Valid() && m_pBuffer == Printable(text[old(pos)..Scan(text, old(pos), EndsValue)])
    {
      hide Scan;
      ghost var p, e := pos, pos;
      m_pBuffer := "";
      var c := Read();
      while c != Some('\n') && c != Some(';') && c.Some?
        invariant p <= e <= |text| && if e < |text| then c == Some(text[e]) && pos == e + 1 else c == None && pos == e
        invariant m_pBuffer == text[p..e] && forall k :: p <= k < e ==> !EndsValue(text[k])
        decreases |text| - e
      {
        SliceNext(text, p, e);
        m_pBuffer := m_pBuffer + [c.value];
        c := Read();
        e := e + 1;
      }
      ScanUnique(text, p, EndsValue, e);
      CutUnprintable();
    }

    /** The backward loop: the string then ends at the first of the zeros. */
    method CutUnprintable()
      modifies `m_pBuffer
      ensures m_pBuffer == Printable(old(m_pBuffer))
    {
      hide Scan;
      var lBufferCounter := |m_pBuffer|;
      var end := |m_pBuffer|;
      while lBufferCounter > 0
        invariant 0 <= lBufferCounter <= end <= |m_pBuffer|
        invariant forall k :: lBufferCounter <= k < end ==> IsGraph(m_pBuffer[k])
        invariant end < |m_pBuffer| ==> !IsGraph(m_pBuffer[end])
      {
        lBufferCounter := lBufferCounter - 1;
        if !IsGraph(m_pBuffer[lBufferCounter]) {
          end := lBufferCounter;
        }
      }
      ScanUnique(m_pBuffer, 0, NotGraph, end);
      m_pBuffer := m_pBuffer[..end];
    }

    /** GetValue leaves the value in the buffer. */
    method GetValue() returns (ok: bool)
      requires Valid() && !m_bEOFRead
      modifies this
      ensures Valid() && Value(text, old(pos)) == if ok then Some(m_pBuffer) else None
    {
      hide Scan, Printable;
      SkipSpace();
      var c := Read();
      if c != Some('=') {
        return false;
      }
      SkipSpace();
      ReadValue();
      ok := true;
    }

    /** The look-up the three make together from the start of the file, whatever the flag is. */
    method LookUp(lpszSection: string, lpszEntry: string) returns (value: Option<string>)
      requires Valid()
      modifies this
      ensures Valid() && value == ByPosition(text, AfterBlanks(0, old(m_bEOFRead)), lpszSection, lpszEntry)
    {
      hide Scan, Section, Entry, Value;
      Rewind();
      value := None;
      var ok := GoSection(lpszSection);
      if ok {
        ok := GoEntry(lpszEntry);
        if ok {
          ok := GetValue();
          if ok {
            value := Some(m_pBuffer);
          }
        }
      }
    }
  }

  /** The look-up by positions, when GoSection looks at q first. */
  function ByPosition(t: string, q: nat, section: string, entry: string): Option<string>
    requires q <= |t|
  {
    match Section(t, q, section)
    case None => None
    case Some(p) =>
      match Entry(t, p, entry)
      case None => None
      case Some(e) => Value(t, e)
  }

  lemma EntryNext(t: string, p: nat, name: string)
    requires p <= |t|
    ensures var q := Scan(t, p, NotBlank); var e := Scan(t, q, NotAlnum);
      Entry(t, p, name) == if e == |t| || t[e] == '[' then None
                           else if SameName(t[q..e], name) then Some(e)
                           else Entry(t, LineEnd(t, e), name)
  {
    hide Scan, LineEnd, SameName;
  }
}
