// CMTProfile::GetIniKeyString, ReadString and ReadLong (Library/MTPrfile.cpp): the look-up in use.
module IniKey {
  import opened Options
  import opened CText
  import opened Profile
  import opened ProfileLines

  /** The characters fgets puts into a buffer of 1024. */
  const LINE_MAX: nat := 1023

  /** One fgets: a line with its line end, or as much of it as fits. */
  function Chunk(rest: string): (n: nat)
    ensures n <= |rest| && (rest != "" ==> n > 0)
  {
    if LineLen(rest) <= LINE_MAX then LineLen(rest) else LINE_MAX
  }

  function Chunks(t: string): seq<string>
    decreases |t|
  {
    if t == "" then [] else [t[..Chunk(t)]] + Chunks(t[Chunk(t)..])
  }

  predicate IsComment(line: string) { "//" <= line || "#" <= line }

  /** The line sets a key: it holds an equals sign and begins with the key. */
  predicate Sets(line: string, key: string) { !IsComment(line) && '=' in line && key <= line }

  /** The line is taken for the header of the section. */
  predicate Titles(line: string, title: string) { !IsComment(line) && "[" + title + "]" <= line }

  function DropBlanks(s: string): string { if " " <= s then DropBlanks(s[1..]) else s }

  /** What is behind the first equals sign, without its blanks in front and without the last character of the line. */
  ghost function SetValue(line: string): string
    requires '=' in line
  {
    var eq := Find(line, '=', 0);
    if eq + 1 < |line| then DropBlanks(line[eq + 1..|line| - 1]) else ""
  }

  /** The look-up: inSection says that the header has been seen. */
  ghost function FindKey(lines: seq<string>, inSection: bool, title: string, key: string): Option<string>
  {
    if lines == [] then None
    else if inSection && Sets(lines[0], key) then Some(SetValue(lines[0]))
    else FindKey(lines[1..], inSection || Titles(lines[0], title), title, key)
  }

  lemma ChunksNext(rest: string)
    requires rest != ""
    ensures Chunks(rest) == [rest[..Chunk(rest)]] + Chunks(rest[Chunk(rest)..])
  {
  }

  /** fgets. */
  method Fgets(f: CMTProfile) returns (line: Option<string>)
    requires f.Valid()
    modifies f`pos
    ensures f.Valid() && old(f.pos) <= f.pos
    ensures old(f.pos) == |f.text| ==> line == None
    ensures old(f.pos) < |f.text| ==> line.Some? && line.value != "" && f.pos > old(f.pos)
    ensures line.Some? ==> Chunks(f.text[old(f.pos)..]) == [line.value] + Chunks(f.text[f.pos..])
  {
    hide LineLen, LineEnd, Scan, Chunks;
    if f.pos == |f.text| {
      return None;
    }
    var rest := f.text[f.pos..];
    var n := Chunk(rest);
    ChunksNext(rest);
    assert rest[n..] == f.text[f.pos + n..];
    line := Some(rest[..n]);
    f.pos := f.pos + n;
  }

  lemma FirstIs(s: string, c: char, i: nat)
    requires IsFirst(s, c, 0, i)
    ensures i == Find(s, c, 0) && (i < |s| <==> c in s)
  {
    var f := Find(s, c, 0);
    assert IsFirst(s, c, 0, f);
    assert c in s ==> f < |s|;
  }

  /** The match: the last character goes, then the blanks behind the equals sign. */
  method TakeValue(line: string, eq: nat) returns (buf: string)
    requires eq < |line| && eq == Find(line, '=', 0)
    ensures buf == SetValue(line)
  {
    var sLine := line[..|line| - 1];
    if eq + 1 >= |sLine| {
      return "";
    }
    buf := sLine[eq + 1..];
    assert buf == line[eq + 1..|line| - 1];
    while buf != "" && buf[0] == ' '
      invariant DropBlanks(buf) == DropBlanks(line[eq + 1..|line| - 1])
      decreases |buf|
    {
      buf := buf[1..];
    }
  }

  method GetIniKeyString(f: CMTProfile, title: string, key: string) returns (ret: int, buf: string)
    requires f.Valid()
    modifies f`pos
    ensures f.Valid() && ret == (if FindKey(Chunks(f.text[old(f.pos)..]), false, title, key).Some? then 0 else -1)
    ensures ret == 0 ==> Some(buf) == FindKey(Chunks(f.text[old(f.pos)..]), false, title, key)
  {
    hide Chunks, FindKey, SetValue;
    var sTitle := "[" + title + "]";
    var flag := 0;
    ghost var want := FindKey(Chunks(f.text[f.pos..]), false, title, key);
    ghost var p := f.pos;
    var sLine := Fgets(f);
    NoMoreLines(f.text, p, false, title, key);
    while sLine.Some?
      invariant f.Valid() && p <= f.pos && (flag == 0 || flag == 1)
      invariant sLine == None ==> want == None
      invariant sLine.Some? ==> sLine.value != "" && p < f.pos
      invariant sLine.Some? ==> want == FindKey([sLine.value] + Chunks(f.text[f.pos..]), flag == 1, title, key)
      decreases |f.text| - p
    {
      var line := sLine.value;
      FindKeyNext(line, Chunks(f.text[f.pos..]), flag == 1, title, key);
      if !("//" <= line || line[0] == '#') {
        var found, wTmp := StrChr(line, '=');
        FirstIs(line, '=', wTmp);
        if found && flag == 1 {
          if key <= line {
            buf := TakeValue(line, wTmp);
            return 0, buf;
          }
        } else if sTitle <= line {
          flag := 1;
        }
      }
      p := f.pos;
      sLine := Fgets(f);
      NoMoreLines(f.text, p, flag == 1, title, key);
    }
    return -1, "";
  }

  lemma NoMoreLines(t: string, p: nat, inSection: bool, title: string, key: string)
    requires p <= |t|
    ensures p == |t| ==> FindKey(Chunks(t[p..]), inSection, title, key) == None
  {
  }

  lemma FindKeyNext(line: string, rest: seq<string>, inSection: bool, title: string, key: string)
    ensures FindKey([line] + rest, inSection, title, key)
         == if inSection && Sets(line, key) then Some(SetValue(line))
            else FindKey(rest, inSection || Titles(line, title), title, key)
  {
    assert ([line] + rest)[1..] == rest;
  }

  predicate EndsField(c: char) { c == '\r' || c == '\n' || c == ' ' }

  /** What ReadString makes of a value for a buffer of lLength characters. */
  function Field(s: string, lLength: nat): string
    requires lLength > 0
  {
    var t := if |s| < lLength then s else s[..lLength - 1];
    t[..Scan(t, 0, EndsField)]
  }

  method ReadString(f: CMTProfile, section: string, entry: string, lpszDefault: string, lLength: nat)
    returns (lpszVal: string)
    requires f.Valid() && 0 < lLength
    modifies f`pos
    ensures f.Valid()
    ensures var found := FindKey(Chunks(f.text), false, section, entry);
      lpszVal == Field(if found.Some? then found.value else lpszDefault, lLength)
  {
    hide FindKey, Chunks, Scan;
    f.Rewind();
    assert f.text[0..] == f.text;
    var ret, buf := GetIniKeyString(f, section, entry);
    if ret != 0 {
      buf := lpszDefault;
    }
    if |buf| >= lLength {
      buf := buf[..lLength - 1];
    }
    var i, end := 0, |buf|;
    while i < |buf|
      invariant 0 <= i <= |buf| && 0 <= end <= |buf|
      invariant forall k :: 0 <= k < i && k < end ==> !EndsField(buf[k])
      invariant end < |buf| ==> end < i && EndsField(buf[end])
    {
      if EndsField(buf[i]) && i < end {
        end := i;
      }
      i := i + 1;
    }
    ScanUnique(buf, 0, EndsField, end);
    lpszVal := buf[..end];
  }

  method ReadLong(f: CMTProfile, section: string, entry: string, lDef: int) returns (n: int)
    requires f.Valid()
    modifies f`pos
    ensures f.Valid()
    ensures var found := FindKey(Chunks(f.text), false, section, entry);
      n == if found.Some? then Atoi(found.value) else lDef
  {
    hide FindKey, Chunks;
    f.Rewind();
    assert f.text[0..] == f.text;
    var ret, lpszVal := GetIniKeyString(f, section, entry);
    n := if ret == 0 then Atoi(lpszVal) else lDef;
  }

  /** A value comes through ReadString whole exactly when it fits and holds no blank and no line end. */
  lemma FieldExact(s: string, lLength: nat)
    requires lLength > 0
    ensures Field(s, lLength) == s <==> |s| < lLength && ' ' !in s && '\r' !in s && '\n' !in s
  {
    hide Scan;
    if |s| < lLength && Scan(s, 0, EndsField) < |s| {
      assert s[Scan(s, 0, EndsField)] in s;
    }
    if |s| < lLength && Scan(s, 0, EndsField) == |s| {
      assert forall c :: c in s ==> !EndsField(c);
    }
  }

  ghost predicate FirstTitle(lines: seq<string>, h: nat, title: string) {
    h <= |lines| && (forall i :: 0 <= i < h ==> !Titles(lines[i], title)) && (h < |lines| ==> Titles(lines[h], title))
  }

  ghost predicate FirstSet(lines: seq<string>, from: nat, k: nat, key: string) {
    from <= k <= |lines| && (forall i :: from <= i < k ==> !Sets(lines[i], key)) && (k < |lines| ==> Sets(lines[k], key))
  }

  /** The look-up is the first line that sets the key behind the first header, to the end of the file. */
  lemma FindKeyIs(lines: seq<string>, h: nat, k: nat, title: string, key: string)
    requires FirstTitle(lines, h, title) && (h < |lines| ==> FirstSet(lines, h + 1, k, key))
    ensures FindKey(lines, false, title, key)
         == if h < |lines| && k < |lines| then Some(SetValue(lines[k])) else None
  {
    hide Titles, Sets, SetValue;
    BeforeTitle(lines, h, title, key);
    if h < |lines| {
      assert lines[h..][1..] == lines[h + 1..];
      BeforeSet(lines, h + 1, k, title, key);
    }
  }

  lemma {:induction false} BeforeTitle(lines: seq<string>, h: nat, title: string, key: string)
    requires h <= |lines| && forall i :: 0 <= i < h ==> !Titles(lines[i], title)
    ensures FindKey(lines, false, title, key) == FindKey(lines[h..], false, title, key)
  {
    hide Titles, Sets, SetValue;
    if h == 0 {
      assert lines[0..] == lines;
    } else {
      BeforeTitle(lines, h - 1, title, key);
      assert lines[h - 1..][0] == lines[h - 1] && lines[h - 1..][1..] == lines[h..];
    }
  }

  lemma {:induction false} BeforeSet(lines: seq<string>, from: nat, k: nat, title: string, key: string)
    requires FirstSet(lines, from, k, key)
    ensures FindKey(lines[from..], true, title, key) == if k < |lines| then Some(SetValue(lines[k])) else None
    decreases |lines| - from
  {
    hide Titles, Sets, SetValue;
    if from < k {
      BeforeSet(lines, from + 1, k, title, key);
      assert lines[from..][1..] == lines[from + 1..];
    }
  }
}
