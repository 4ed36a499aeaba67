/** Splitting lines into columns, CSVFile::Parse, and the table printer that it inverts (the
    quote-free subset of section 2 of RFC 4180). */
module CsvTable {
  import opened TextLines

  /** Position of the first comma at or after pos, or the length. */
  function FindComma(s: string, pos: nat): (k: nat)
    requires pos <= |s|
    ensures pos <= k <= |s| && (k < |s| ==> s[k] == ',')
    ensures forall i | pos <= i < k :: s[i] != ','
    decreases |s| - pos
  {
    if pos == |s| || s[pos] == ',' then pos else FindComma(s, pos + 1)
  }

  /** The fields of a text between commas. */
  function Fields(s: string): (r: seq<string>)
    ensures r != []
  {
    var k := FindComma(s, 0);
    if k == |s| then [s] else [s[..k]] + Fields(s[k + 1..])
  }

  /** What splitString makes of the text from pos on: the last field loses its last character. */
  function Split(s: string, pos: nat): seq<string>
    requires pos <= |s|
    decreases |s| - pos
  {
    var k := FindComma(s, pos);
    if k < |s| then [s[pos..k]] + Split(s, k + 1)
    else if pos == |s| then [""]
    else [s[pos..|s| - 1]]
  }

  lemma SplitStep(s: string, pos: nat)
    requires pos <= |s|
    ensures FindComma(s, pos) < |s| ==>
      Split(s, pos) == [s[pos..FindComma(s, pos)]] + Split(s, FindComma(s, pos) + 1)
    ensures FindComma(s, pos) == |s| ==> Split(s, pos) == [if pos == |s| then "" else s[pos..|s| - 1]]
  {
  }

  lemma Regroup(a: seq<string>, x: string, b: seq<string>)
    ensures a + ([x] + b) == (a + [x]) + b
  {
  }

  method SplitString(str: string) returns (result: seq<string>)
    ensures result == Split(str, 0)
    ensures result == if str == "" then [""] else Shortened(str)
  {
    hide Split, FindComma, Fields, Shortened;
    EmptyFields();
    if str != "" { SplitExact(str); }
    result := [];
    var pos := 0;
    var next := FindComma(str, pos);
    while next < |str|
      invariant pos <= |str| && next == FindComma(str, pos)
      invariant result + Split(str, pos) == Split(str, 0)
      decreases |str| - pos
    {
      SplitStep(str, pos);
      Regroup(result, str[pos..next], Split(str, next + 1));
      result := result + [str[pos..next]];
      pos := next + 1;
      next := FindComma(str, pos);
    }
    SplitStep(str, pos);
    // substr clips a count that is too large, as it is when pos is at the end
    result := result + [if pos == |str| then "" else str[pos..|str| - 1]];
  }

  lemma {:induction false} FindCommaSuffix(s: string, from: nat, pos: nat)
    requires from <= pos <= |s|
    ensures FindComma(s[from..], pos - from) == FindComma(s, pos) - from
    decreases |s| - pos
  {
    if pos < |s| && s[pos] != ',' { FindCommaSuffix(s, from, pos + 1); }
  }

  lemma {:induction false} FindCommaPrefix(s: string, n: nat, pos: nat)
    requires pos <= n <= |s|
    ensures FindComma(s[..n], pos) == if FindComma(s, pos) < n then FindComma(s, pos) else n
    decreases n - pos
  {
    if pos < n && s[pos] != ',' { FindCommaPrefix(s, n, pos + 1); }
  }

  lemma {:induction false} SplitSuffix(s: string, from: nat, pos: nat)
    requires from <= pos <= |s|
    ensures Split(s, pos) == Split(s[from..], pos - from)
    decreases |s| - pos
  {
    hide FindComma, Split;
    var t, k := s[from..], FindComma(s, pos);
    FindCommaSuffix(s, from, pos);
    SplitStep(s, pos);
    SplitStep(t, pos - from);
    if k < |s| {
      SplitSuffix(s, from, k + 1);
      SubSlice(s, from, pos, k);
    } else if pos < |s| {
      SubSlice(s, from, pos, |s| - 1);
    }
  }

  lemma SubSlice(s: string, from: nat, a: nat, b: nat)
    requires from <= a <= b <= |s|
    ensures s[a..b] == s[from..][a - from..b - from]
  {
  }

  /** What splitString should give: the fields of the line without its last character, whatever that is;
      only when the line ends in a comma does it give the fields of the whole line. */
  function Shortened(s: string): seq<string>
    requires s != ""
  {
    if s[|s| - 1] == ',' then Fields(s) else Fields(s[..|s| - 1])
  }

  lemma {:induction false} SplitExact(s: string)
    requires s != ""
    ensures Split(s, 0) == Shortened(s)
    decreases |s|
  {
    hide FindComma, Split, Fields, Shortened;
    var k := FindComma(s, 0);
    SplitStep(s, 0);
    if k == |s| {
      ShortenedOne(s);
    } else if k == |s| - 1 {
      EmptyFields();
      SplitSuffix(s, |s|, |s|);
      assert s[|s|..] == "";
      ShortenedEnd(s);
    } else {
      SplitSuffix(s, k + 1, k + 1);
      SplitExact(s[k + 1..]);
      ShortenedMore(s);
    }
  }

  lemma FieldsStep(s: string)
    ensures FindComma(s, 0) == |s| ==> Fields(s) == [s]
    ensures FindComma(s, 0) < |s| ==> Fields(s) == [s[..FindComma(s, 0)]] + Fields(s[FindComma(s, 0) + 1..])
  {
  }

  lemma ShortenedOne(s: string)
    requires s != "" && FindComma(s, 0) == |s|
    ensures Shortened(s) == [s[..|s| - 1]]
  {
    hide FindComma, Fields;
    FindCommaPrefix(s, |s| - 1, 0);
    FieldsStep(s[..|s| - 1]);
  }

  lemma ShortenedEnd(s: string)
    requires s != "" && FindComma(s, 0) == |s| - 1
    ensures Shortened(s) == [s[..|s| - 1]] + [""]
  {
    hide FindComma, Fields;
    FieldsStep(s);
    EmptyFields();
    assert s[|s|..] == "";
  }

  lemma ShortenedMore(s: string)
    requires FindComma(s, 0) < |s| - 1
    ensures Shortened(s) == [s[..FindComma(s, 0)]] + Shortened(s[FindComma(s, 0) + 1..])
  {
    hide FindComma, Fields;
    var k := FindComma(s, 0);
    SlicesAt(s, k);
    if s[|s| - 1] == ',' {
      FieldsStep(s);
    } else {
      FieldsPrefix(s);
    }
  }

  lemma FieldsPrefix(s: string)
    requires FindComma(s, 0) < |s| - 1
    ensures Fields(s[..|s| - 1]) == [s[..FindComma(s, 0)]] + Fields(s[FindComma(s, 0) + 1..|s| - 1])
  {
    hide FindComma, Fields;
    var n := |s| - 1;
    FindCommaPrefix(s, n, 0);
    FieldsStep(s[..n]);
    SlicesAt(s, FindComma(s, 0));
  }

  lemma SlicesAt(s: string, k: nat)
    requires k < |s| - 1
    ensures s[..|s| - 1][..k] == s[..k] && s[..|s| - 1][k + 1..] == s[k + 1..|s| - 1]
    ensures var t := s[k + 1..]; t != "" && t[|t| - 1] == s[|s| - 1] && t[..|t| - 1] == s[k + 1..|s| - 1]
  {
  }

  lemma EmptyFields()
    ensures Fields("") == [""] && Split("", 0) == [""]
  {
  }

  // ----- the printer

  predicate Plain(field: string) {
    ',' !in field && '\r' !in field && '\n' !in field
  }

  predicate PlainRow(row: seq<string>) {
    row != [] && forall i | 0 <= i < |row| :: Plain(row[i])
  }

  predicate PlainTable(table: seq<seq<string>>) {
    forall i | 0 <= i < |table| :: PlainRow(table[i])
  }

  function Join(row: seq<string>): string
    requires row != []
  {
    if |row| == 1 then row[0] else row[0] + "," + Join(row[1..])
  }

  function LineBreak(crlf: bool): string {
    if crlf then "\r\n" else "\n"
  }

  function PrintRow(row: seq<string>, crlf: bool): string
    requires row != []
  {
    Join(row) + LineBreak(crlf)
  }

  function Print(table: seq<seq<string>>, crlf: bool): string
    requires PlainTable(table)
  {
    if table == [] then "" else PrintRow(table[0], crlf) + Print(table[1..], crlf)
  }

  lemma {:induction false} FindCommaIn(a: string, b: string, pos: nat)
    requires pos <= |a| && ',' !in a
    ensures FindComma(a + "," + b, pos) == |a| && FindComma(a, pos) == |a|
    decreases |a| - pos
  {
    if pos < |a| {
      assert a[pos] in a;
      FindCommaIn(a, b, pos + 1);
    }
  }

  /** Splitting at the commas undoes joining. */
  lemma {:induction false} FieldsOfJoin(row: seq<string>)
    requires row != [] && forall i | 0 <= i < |row| :: ',' !in row[i]
    ensures Fields(Join(row)) == row
    decreases |row|
  {
    hide Fields;
    if |row| == 1 {
      FieldsFront(row[0], "");
    } else {
      FieldsOfJoin(row[1..]);
      FieldsFront(row[0], Join(row[1..]));
      assert row == [row[0]] + row[1..];
    }
  }

  lemma FieldsFront(a: string, rest: string)
    requires ',' !in a
    ensures Fields(a) == [a] && Fields(a + "," + rest) == [a] + Fields(rest)
  {
    hide FindComma;
    FindCommaIn(a, rest, 0);
    var s := a + "," + rest;
    assert s[..|a|] == a && s[|a| + 1..] == rest;
  }

  lemma {:induction false} JoinPlain(row: seq<string>)
    requires PlainRow(row)
    ensures '\r' !in Join(row) && '\n' !in Join(row)
    decreases |row|
  {
    if |row| > 1 { JoinPlain(row[1..]); }
  }

  // ----- reading a printed table

  /** The first line of a text that starts with a body without line breaks, and a line break. */
  lemma FirstLine(s: string, pos: nat, body: string, crlf: bool)
    requires pos + |body| + |LineBreak(crlf)| <= |s| && s[pos..pos + |body|] == body
    requires s[pos + |body|..pos + |body| + |LineBreak(crlf)|] == LineBreak(crlf)
    requires '\r' !in body && '\n' !in body
    ensures LineEnd(s, pos, crlf) == pos + |body| + |LineBreak(crlf)|
  {
    var k := pos + |body|;
    assert s[k] == s[k..k + |LineBreak(crlf)|][0];
    forall i | pos <= i < k ensures s[i] in body {
      assert s[i] == s[pos..k][i - pos];
    }
    LineEndIs(s, pos, crlf, k);
  }

  /** The lines of a printed table are its rows. */
  lemma {:induction false} LinesOfPrint(s: string, pos: nat, table: seq<seq<string>>, crlf: bool)
    requires pos <= |s| && PlainTable(table) && s[pos..] == Print(table, crlf)
    ensures |Lines(s, pos, crlf)| == |table|
    ensures forall i | 0 <= i < |table| :: Lines(s, pos, crlf)[i] == PrintRow(table[i], crlf)
    decreases |table|
  {
    hide LineEnd, Lines, LineBreak, Join;
    LinesStep(s, pos, crlf);
    if table != [] {
      var row, rest := PrintRow(table[0], crlf), Print(table[1..], crlf);
      var body := Join(table[0]);
      JoinPlain(table[0]);
      BreakLength(crlf);
      FrontOf(s, pos, row, rest);
      assert row + rest == body + (LineBreak(crlf) + rest);
      FrontOf(s, pos, body, LineBreak(crlf) + rest);
      FrontOf(s, pos + |body|, LineBreak(crlf), rest);
      FirstLine(s, pos, body, crlf);
      LinesOfPrint(s, pos + |row|, table[1..], crlf);
      assert table == [table[0]] + table[1..];
    }
  }

  lemma BreakLength(crlf: bool)
    ensures |LineBreak(crlf)| >= 1
  {
  }

  lemma FrontOf(s: string, pos: nat, a: string, b: string)
    requires pos <= |s| && s[pos..] == a + b
    ensures pos + |a| <= |s| && s[pos..pos + |a|] == a && s[pos + |a|..] == b
  {
    assert s[pos..pos + |a|] == s[pos..][..|a|];
    assert s[pos + |a|..] == s[pos..][|a|..];
  }

  /** What comes back of a row: with LF the row itself, as the character that is dropped is the line break; with
      CR LF, as RFC 4180 prescribes, the CR stays at the end of the last field. */
  function ComesBack(row: seq<string>, crlf: bool): seq<string>
    requires row != []
  {
    if crlf then row[|row| - 1 := row[|row| - 1] + "\r"] else row
  }

  lemma SplitOfPrint(row: seq<string>, crlf: bool)
    requires PlainRow(row)
    ensures Split(PrintRow(row, crlf), 0) == ComesBack(row, crlf)
    ensures Split(PrintRow(row, crlf), 0) == row <==> !crlf
  {
    hide Split, Fields, Join;
    var line, kept := PrintRow(row, crlf), ComesBack(row, crlf);
    SplitExact(line);
    JoinLast(row, "\r");
    assert line[..|line| - 1] == Join(kept) by {
      if crlf { assert line[..|line| - 1] == Join(row) + "\r"; }
    }
    FieldsOfJoin(kept);
    assert crlf ==> |kept[|row| - 1]| != |row[|row| - 1]|;
  }

  lemma {:induction false} JoinLast(row: seq<string>, tail: string)
    requires row != []
    ensures Join(row[|row| - 1 := row[|row| - 1] + tail]) == Join(row) + tail
    decreases |row|
  {
    var kept := row[|row| - 1 := row[|row| - 1] + tail];
    if |row| > 1 {
      JoinLast(row[1..], tail);
      assert kept[1..] == row[1..][|row| - 2 := row[|row| - 1] + tail];
    }
  }

  lemma {:induction false} PrintCounts(table: seq<seq<string>>, crlf: bool)
    requires PlainTable(table)
    ensures Count(Print(table, crlf), '\n') == |table|
    ensures Count(Print(table, crlf), '\r') == if crlf then |table| else 0
  {
    hide Count, Join, LineBreak;
    CountEmpty();
    if table != [] {
      PrintCounts(table[1..], crlf);
      JoinPlain(table[0]);
      BreakCounts(crlf);
      var body, rest := Join(table[0]), Print(table[1..], crlf);
      CountNone(body, '\r');
      CountNone(body, '\n');
      CountJoin(body, LineBreak(crlf), '\r');
      CountJoin(body, LineBreak(crlf), '\n');
      CountJoin(body + LineBreak(crlf), rest, '\r');
      CountJoin(body + LineBreak(crlf), rest, '\n');
    }
  }

  lemma CountEmpty()
    ensures Count("", '\r') == 0 && Count("", '\n') == 0
  {
  }

  lemma BreakCounts(crlf: bool)
    ensures Count(LineBreak(crlf), '\n') == 1 && Count(LineBreak(crlf), '\r') == if crlf then 1 else 0
  {
    assert "\r\n"[1..] == "\n" && "\n"[1..] == "";
  }

  lemma {:induction false} CountNone(s: string, c: char)
    requires c !in s
    ensures Count(s, c) == 0
  {
    if s != "" { CountNone(s[1..], c); }
  }

  /** CSVFile::Parse: the columns of every line, in a vector of GetLineCount() rows. */
  method Parse(file: TextFile) returns (rows: seq<seq<string>>)
    requires file.Valid()
    modifies file
    ensures file.Valid() && |rows| == file.lineCount
    ensures var lines := Lines(file.content, 0, file.crlf);
      && |lines| <= |rows|
      && (forall i | 0 <= i < |lines| :: rows[i] == Split(lines[i], 0))
      && forall i | |lines| <= i < |rows| :: rows[i] == []
  {
    rows := seq(file.lineCount, _ => []);
    file.Reset();
    ghost var all := Lines(file.content, 0, file.crlf);
    LinesFit(file.content, 0, file.crlf);
    hide LineEnd, Count, Lines, Split;
    var lineIndex := 0;
    while true
      invariant file.Valid() && |rows| == file.lineCount && 0 <= lineIndex <= |all| <= |rows|
      invariant all[lineIndex..] == Lines(file.content, file.readPos, file.crlf)
      invariant forall i | 0 <= i < lineIndex :: rows[i] == Split(all[i], 0)
      invariant forall i | lineIndex <= i < |rows| :: rows[i] == []
      decreases |file.content| - file.readPos
    {
      LinesStep(file.content, file.readPos, file.crlf);
      var line := file.ReadLine();
      if line == "" {
        break;
      }
      TakeOne(all, lineIndex, line, Lines(file.content, file.readPos, file.crlf));
      var columns := SplitString(line);
      rows := rows[lineIndex := columns];
      lineIndex := lineIndex + 1;
    }
  }

  /** Parsing a printed table gives its rows back, with a CR in the last field after CR LF, and then one empty
      row. */
  method RoundTrip(table: seq<seq<string>>, crlf: bool) returns (rows: seq<seq<string>>)
    requires table != [] && PlainTable(table)
    ensures |rows| == |table| + 1 && rows[|table|] == []
    ensures forall i | 0 <= i < |table| :: rows[i] == ComesBack(table[i], crlf)
    ensures !crlf ==> rows == table + [[]]
  {
    hide Count, Lines, Split, ComesBack, Join;
    var content := Print(table, crlf);
    PrintCounts(table, crlf);
    CountEmpty();
    var handle := Open(content);
    assert content[0..] == content;
    LinesOfPrint(content, 0, table, crlf);
    rows := Parse(handle.file);
    forall i | 0 <= i < |table| ensures rows[i] == ComesBack(table[i], crlf) && (!crlf ==> rows[i] == table[i]) {
      SplitOfPrint(table[i], crlf);
    }
  }
}
