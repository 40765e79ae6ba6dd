// Texts written line by line, and what RemoveComments leaves of them.
module SqlLines {
  import opened CText
  import opened SqlComments

  /** A line and the line ends behind it. */
  datatype Row = Row(line: string, breaks: string)

  function RowsText(rows: seq<Row>): string { if rows == [] then "" else rows[0].line + rows[0].breaks + RowsText(rows[1..]) }

  function LinesOf(rows: seq<Row>): (ls: seq<string>)
    ensures |ls| == |rows| && forall i :: 0 <= i < |rows| ==> ls[i] == rows[i].line
  {
    seq(|rows|, i requires 0 <= i < |rows| => rows[i].line)
  }

  /** Lines that are not empty; behind each but the last some line ends of either kind. */
  predicate RowsOk(rows: seq<Row>)
  {
    forall i :: 0 <= i < |rows| ==>
      && rows[i].line != "" && '\n' !in rows[i].line && '\r' !in rows[i].line
      && (forall c :: c in rows[i].breaks ==> c == '\n' || c == '\r') && (i < |rows| - 1 ==> rows[i].breaks != "")
  }

  lemma {:induction false} BreaksGo(breaks: string, rest: string)
    requires forall c :: c in breaks ==> c == '\n' || c == '\r'
    ensures Tokens(breaks + rest) == Tokens(rest)
  {
    if breaks == "" {
      assert breaks + rest == rest;
    } else {
      assert breaks[0] in breaks && (breaks + rest)[1..] == breaks[1..] + rest;
      assert forall c :: c in breaks[1..] ==> c in breaks;
      BreaksGo(breaks[1..], rest);
    }
  }

  /** strtok gives back the written lines. */
  lemma {:induction false} TokensOfRows(rows: seq<Row>)
    requires RowsOk(rows)
    ensures Tokens(RowsText(rows)) == LinesOf(rows)
  {
    hide Tokens;
    if rows == [] {
      NothingLeft();
    } else {
      var row, later := rows[0], RowsText(rows[1..]);
      assert forall i :: 0 <= i < |rows[1..]| ==> rows[1..][i] == rows[i + 1];
      TokensOfRows(rows[1..]);
      BreaksGo(row.breaks, later);
      assert row.breaks != "" ==> row.breaks[0] in row.breaks;
      assert row.breaks == "" ==> rows[1..] == [] && row.breaks + later == "";
      TokensOfLine(row.line, row.breaks + later);
      assert row.line + row.breaks + later == row.line + (row.breaks + later);
    }
  }

  /** What the final trim cuts: blanks, semicolons, line ends and tabs, and nothing else. */
  lemma {:induction false} TrimExactly(s: string, tail: string)
    requires forall i :: 0 <= i < |tail| ==> tail[i] in [' ', ';', '\n', '\r', '\t']
    requires s == "" || s[|s| - 1] !in [' ', ';', '\n', '\r', '\t']
    ensures Trim(s + tail) == s
  {
    if tail == "" {
      assert s + tail == s;
    } else {
      var front := tail[..|tail| - 1];
      TrimExactly(s, front);
      assert (s + tail)[..|s + tail| - 1] == s + front && (s + tail)[|s + tail| - 1] == tail[|tail| - 1];
    }
  }

  /** RemoveComments on any written text: each line up to its comment, those with nothing in front of it left out,
      one newline between them, and the end trimmed. */
  lemma CleanedRows(rows: seq<Row>)
    requires RowsOk(rows)
    ensures Cleaned(RowsText(rows)) == Text(TrimLines(KeptLines(LinesOf(rows))))
  {
    hide Tokens, Kept, Trim, KeptLines, TrimLines, Text, Join, CleanLines;
    TokensOfRows(rows);
    KeptIsJoin(LinesOf(rows));
    TrimJoin(KeptLines(LinesOf(rows)));
  }

  /** Of one line with a comment the text in front stays, trimmed. */
  lemma CommentedLine(a: string, b: string)
    requires !HoldsDashes(a + "-") && a != ""
    requires '\n' !in a && '\r' !in a && '\n' !in b && '\r' !in b
    requires !('(' in a && ')' in b) && !('{' in a && '}' in b) && !('[' in a && ']' in b)
    requires !('\'' in a && '\'' in b) && !('"' in a && '"' in b)
    ensures Cleaned(a + "--" + b) == Trim(a)
  {
    hide Tokens, Trim, Valid, HoldsDashes;
    var line := a + "--" + b;
    assert '\n' !in line && '\r' !in line;
    TokensOfLine(line, "");
    NothingLeft();
    assert line + "" == line && [line] + [] == [line];
    CommentGoes(a, b);
    KeptHead(line, []);
    KeptEmpty();
    assert line[..|a|] == a;
    if Valid(line) == 0 {
      assert Kept([line]) == "";
      BlanksGo(a);
    } else {
      assert Kept([line]) == a + ['\n'];
      TrimLine("", a);
      assert "" + (a + ['\n']) == a + ['\n'] && "" + Trim(a) == Trim(a);
      NothingTrimmed();
    }
  }

  lemma NothingTrimmed()
    ensures Trim("") == ""
  {
  }

  lemma BlanksGo(a: string)
    requires forall i :: 0 <= i < |a| ==> a[i] == ' '
    ensures Trim(a) == "" && Trim("") == ""
  {
    TrimExactly("", a);
    assert "" + a == a;
  }

  /** The method on any written text. */
  method CleanRows(sql: SqlText, rows: seq<Row>)
    requires RowsOk(rows) && sql.orgSql == RowsText(rows)
    modifies sql
    ensures sql.orgSql == Text(TrimLines(KeptLines(LinesOf(rows))))
  {
    hide *;
    CleanedRows(rows);
    sql.RemoveComments();
  }
}
