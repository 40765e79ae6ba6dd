// Files written item by item, and what the three searches of CMTProfile find in them.
module ProfilePrint {
  import opened Options
  import opened CText
  import opened Profile
  import opened ProfileLines

  /** A line of a file: a section header, a setting, or a line that is neither, with its blanks and what follows. */
  datatype Item =
    | Title(front: string, name: string, more: string)
    | Setting(front: string, key: string, mid: string, gap: string, value: string, more: string)
    | Note(front: string, text: string)

  /** The item without its line end. */
  function Body(x: Item): string
  {
    match x
    case Title(front, name, more) => front + (['['] + name + [']'] + more)
    case Setting(front, key, mid, gap, value, more) => front + (key + (mid + (['='] + (gap + (value + more)))))
    case Note(front, text) => front + text
  }

  function PrintAll(doc: seq<Item>): string { if doc == [] then "" else Body(doc[0]) + ['\n'] + PrintAll(doc[1..]) }

  predicate Blanks(s: string) { forall i :: 0 <= i < |s| ==> s[i] == ' ' || s[i] == '\t' }

  predicate WordChar(c: char) { '0' <= c <= '9' || 'A' <= c <= 'Z' || 'a' <= c <= 'z' }

  predicate IsWord(s: string) { s != "" && forall i :: 0 <= i < |s| ==> WordChar(s[i]) }

  predicate Visible(c: char) { '!' <= c <= '~' }

  predicate ItemOk(x: Item)
  {
    match x
    case Title(front, name, more) => Blanks(front) && ']' !in name && '\n' !in name && '\n' !in more
    case Setting(front, key, mid, gap, value, more) =>
      && Blanks(front) && Blanks(mid) && Blanks(gap) && IsWord(key) && '\n' !in more
      && value != "" && (forall i :: 0 <= i < |value| ==> Visible(value[i]) && value[i] != ';')
      && (more == "" || more[0] == ';' || !Visible(more[0]))
    case Note(front, text) =>
      && Blanks(front) && '\n' !in text
      && (text == "" || (text[0] != '[' && text[0] != ' ' && text[0] != '\t' && !WordChar(text[0])))
  }

  predicate DocOk(doc: seq<Item>) { forall i :: 0 <= i < |doc| ==> ItemOk(doc[i]) }

  /** What stands behind the first header of the name. */
  function Behind(doc: seq<Item>, section: string): Option<seq<Item>>
  {
    if doc == [] then None
    else if doc[0].Title? && SameName(doc[0].name, section) then Some(doc[1..])
    else Behind(doc[1..], section)
  }

  /** The value of the first setting of the name in front of the next header. */
  function ValueIn(doc: seq<Item>, entry: string): Option<string>
  {
    if doc == [] || doc[0].Title? then None
    else if doc[0].Setting? && SameName(doc[0].key, entry) then Some(doc[0].value)
    else ValueIn(doc[1..], entry)
  }

  // One line.

  lemma ScanOver(a: string, x: string, from: nat, stop: char -> bool)
    requires from <= |a| && (forall i :: from <= i < |a| ==> !stop(a[i])) && (x != "" ==> stop(x[0]))
    ensures Scan(a + x, from, stop) == |a|
  {
    hide Scan;
    var t := a + x;
    assert forall k :: from <= k < |a| ==> t[k] == a[k];
    assert x != "" ==> t[|a|] == x[0];
    ScanUnique(t, from, stop, |a|);
  }

  lemma OneLine(body: string, rest: string)
    requires '\n' !in body
    ensures LineLen(body + ['\n'] + rest) == |body| + 1
    ensures (body + ['\n'] + rest)[..|body| + 1] == body + ['\n'] && (body + ['\n'] + rest)[|body| + 1..] == rest
  {
    hide Scan;
    ScanOver(body, ['\n'] + rest, 0, IsNewline);
    assert body + (['\n'] + rest) == body + ['\n'] + rest;
  }

  lemma BodyLine(x: Item)
    requires ItemOk(x)
    ensures '\n' !in Body(x)
  {
  }

  lemma TitleLine(front: string, name: string, more: string)
    requires ItemOk(Title(front, name, more))
    ensures var line := Body(Title(front, name, more)) + ['\n'];
            Header(line) == Some(name) && EntryOf(line) == None
  {
    hide Scan;
    var line := Body(Title(front, name, more)) + ['\n'];
    var q := |front|;
    var x := ['['] + name + [']'] + more + ['\n'];
    assert line == front + x;
    ScanOver(front, x, 0, NotBlank);
    assert line[q] == '[';
    var y := front + ['['] + name;
    assert line == y + ([']'] + more + ['\n']);
    assert forall i :: q + 1 <= i < |y| ==> y[i] == name[i - q - 1];
    ScanOver(y, [']'] + more + ['\n'], q + 1, ClosesName);
    assert line[q + 1..|y|] == name && line[|y|] == ']';
    ScanOver(front, x, q, NotAlnum);
  }

  lemma NoteLine(front: string, text: string)
    requires ItemOk(Note(front, text))
    ensures var line := Body(Note(front, text)) + ['\n'];
            Header(line) == None && EntryOf(line) == Some(("", line[|front|..]))
  {
    hide Scan;
    var line := Body(Note(front, text)) + ['\n'];
    var x := text + ['\n'];
    assert line == front + x;
    ScanOver(front, x, 0, NotBlank);
    ScanOver(front, x, |front|, NotAlnum);
    assert line[|front|] == x[0] && line[|front|..|front|] == "";
  }

  lemma SettingLine(x: Item)
    requires x.Setting? && ItemOk(x)
    ensures var line := Body(x) + ['\n'];
            var later := x.mid + (['='] + (x.gap + (x.value + x.more))) + ['\n'];
            Header(line) == None && EntryOf(line) == Some((x.key, later))
  {
    hide Scan;
    var line := Body(x) + ['\n'];
    var later := x.mid + (['='] + (x.gap + (x.value + x.more))) + ['\n'];
    assert line == x.front + (x.key + later);
    ScanOver(x.front, x.key + later, 0, NotBlank);
    assert line[|x.front|] == x.key[0];
    var y := x.front + x.key;
    assert line == y + later;
    assert forall i :: |x.front| <= i < |y| ==> y[i] == x.key[i - |x.front|];
    assert later[0] == if x.mid == "" then '=' else x.mid[0];
    ScanOver(y, later, |x.front|, NotAlnum);
    assert line[|x.front|..|y|] == x.key && line[|y|..] == later && line[|y|] == later[0];
  }

  lemma SettingValue(x: Item)
    requires x.Setting? && ItemOk(x)
    ensures Value(x.mid + (['='] + (x.gap + (x.value + x.more))) + ['\n'], 0) == Some(x.value)
  {
    hide Value;
    var v := x.value + (x.more + ['\n']);
    assert x.mid + (['='] + (x.gap + (x.value + x.more))) + ['\n'] == x.mid + (['='] + (x.gap + v));
    ValueBegins(x.mid, x.gap, v);
    ValueEnd(x.mid + ['='] + x.gap, x.value, x.more);
  }

  lemma ValueBegins(mid: string, gap: string, v: string)
    requires Blanks(mid) && Blanks(gap) && v != "" && NotBlank(v[0])
    ensures var t, y := mid + (['='] + (gap + v)), mid + ['='] + gap;
            t == y + v && Value(t, 0) == Some(Printable(t[|y|..Scan(t, |y|, EndsValue)]))
  {
    hide Scan, Printable;
    var t, y := mid + (['='] + (gap + v)), mid + ['='] + gap;
    ScanOver(mid, ['='] + (gap + v), 0, NotBlank);
    assert t == y + v && t[|mid|] == '=';
    assert forall i :: |mid| + 1 <= i < |y| ==> y[i] == gap[i - |mid| - 1];
    ScanOver(y, v, |mid| + 1, NotBlank);
  }

  lemma ValueEnd(y: string, value: string, more: string)
    requires '\n' !in more && (forall i :: 0 <= i < |value| ==> Visible(value[i]) && value[i] != ';')
    requires more == "" || more[0] == ';' || !Visible(more[0])
    ensures var t := y + (value + (more + ['\n']));
            var e := Scan(t, |y|, EndsValue);
            |y| <= e <= |t| && Printable(t[|y|..e]) == value
  {
    hide Scan;
    var t := y + (value + (more + ['\n']));
    var e := Scan(t, |y|, EndsValue);
    assert forall i :: 0 <= i < |value| ==> t[|y| + i] == value[i];
    assert t[|y| + |value|] == (more + ['\n'])[0];
    assert e >= |y| + |value|;
    var s := t[|y|..e];
    assert s[..|value|] == value;
    assert |s| > |value| ==> s[|value|] == t[|y| + |value|] && more != "";
    assert s == value + s[|value|..];
    ScanOver(value, s[|value|..], 0, NotGraph);
  }

  // The whole file.

  lemma {:induction false} SectionPrinted(doc: seq<Item>, section: string)
    requires DocOk(doc)
    ensures BySection(PrintAll(doc), section) ==
      match Behind(doc, section) case None => None case Some(items) => Some(PrintAll(items))
  {
    hide Header, LineLen, SameName, ItemOk, Body;
    if doc != [] {
      var x, rest := doc[0], PrintAll(doc[1..]);
      SectionPrinted(doc[1..], section);
      BodyLine(x);
      OneLine(Body(x), rest);
      ItemLine(x);
    }
  }

  lemma ItemLine(x: Item)
    requires ItemOk(x)
    ensures Header(Body(x) + ['\n']) == if x.Title? then Some(x.name) else None
    ensures match x
            case Title(_, _, _) => EntryOf(Body(x) + ['\n']) == None
            case Setting(_, _, _, _, _, _) =>
              var e := EntryOf(Body(x) + ['\n']); e.Some? && e.value.0 == x.key && Value(e.value.1, 0) == Some(x.value)
            case Note(_, _) => var e := EntryOf(Body(x) + ['\n']); e.Some? && e.value.0 == ""
  {
    hide Header, EntryOf, Value, Body, ItemOk;
    match x
    case Title(front, name, more) => TitleLine(front, name, more);
    case Setting(_, _, _, _, _, _) =>
      SettingLine(x);
      SettingValue(x);
    case Note(front, text) =>
      NoteLine(front, text);
  }

  lemma {:induction false} EntryPrinted(doc: seq<Item>, entry: string)
    requires DocOk(doc) && entry != ""
    ensures match ByEntry(PrintAll(doc), entry)
            case None => ValueIn(doc, entry) == None
            case Some(line) => ValueIn(doc, entry).Some? && Value(line, 0) == ValueIn(doc, entry)
  {
    hide EntryOf, LineLen, ItemOk, Body, Value, Header;
    if doc != [] {
      var x, rest := doc[0], PrintAll(doc[1..]);
      BodyLine(x);
      OneLine(Body(x), rest);
      ItemLine(x);
      if !x.Title? && !(x.Setting? && SameName(x.key, entry)) {
        EntryPrinted(doc[1..], entry);
      }
    }
  }

  lemma DocBehind(doc: seq<Item>, section: string)
    requires DocOk(doc)
    ensures Behind(doc, section).Some? ==> DocOk(Behind(doc, section).value)
  {
    hide ItemOk, SameName;
  }

  /** The look-up in a written file: the value of the first setting of the name between the first header of the section
      and the next header. */
  lemma PrintedByLines(doc: seq<Item>, section: string, entry: string)
    requires DocOk(doc) && entry != ""
    ensures ByLines(PrintAll(doc), section, entry) ==
      match Behind(doc, section) case None => None case Some(items) => ValueIn(items, entry)
  {
    hide BySection, ByEntry, Value, ItemOk, PrintAll;
    SectionPrinted(doc, section);
    DocBehind(doc, section);
    if Behind(doc, section).Some? {
      EntryPrinted(Behind(doc, section).value, entry);
    }
  }

  /** The three searches of a fresh reader on a written file. */
  method PrintThenLookUp(doc: seq<Item>, section: string, entry: string) returns (value: Option<string>)
    requires DocOk(doc) && entry != ""
    ensures value == match Behind(doc, section) case None => None case Some(items) => ValueIn(items, entry)
  {
    hide ByLines, ByPosition, PrintAll, DocOk;
    var f := new CMTProfile(PrintAll(doc));
    PrintedByLines(doc, section, entry);
    LookUpByLine(PrintAll(doc), section, entry);
    value := f.LookUp(section, entry);
  }
}
