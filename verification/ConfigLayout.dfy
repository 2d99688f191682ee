/**
The layout of the printed configuration: which lines it has, in which order, and how far each is set in.
 */
module ConfigLayout {
  import opened Text
  import opened ConfigTree

  /** A line: how many blocks are open around it, and what it says. */
  datatype Row = Row(depth: int, text: string)

  function StatementRows(s: Statement, depth: int): seq<Row>
    decreases s
  {
    match s
    case Line(tokens) => [Row(depth, Join(tokens, " ") + ";")]
    case Block(tokens, body) =>
      [Row(depth, Join(tokens, " ") + " {")] + Rows(body, depth + 1) + [Row(depth, "}")]
  }

  /** One row for each statement and closing brace, in document order. */
  function Rows(c: Config, depth: int): seq<Row>
    decreases c
  {
    if c == [] then [] else StatementRows(c[0], depth) + Rows(c[1..], depth)
  }

  /** The line is set in by two spaces for every open block, and says what the row says. */
  ghost predicate IsRow(line: string, row: Row) {
    var n := if row.depth <= 0 then 0 else 2 * row.depth;
    && |line| == n + |row.text|
    && (forall i :: 0 <= i < n ==> line[i] == ' ')
    && line[n..] == row.text
  }

  /** No token of the tree holds a line break. */
  ghost predicate StatementInLines(s: Statement) {
    && (forall i :: 0 <= i < |s.tokens| ==> FreeOf(s.tokens[i], {'\n'}))
    && (s.Block? ==> InLines(s.body))
  }

  ghost predicate InLines(c: Config) {
    forall i :: 0 <= i < |c| ==> StatementInLines(c[i])
  }

  // ---------- the printed text, line by line ----------

  function RowText(row: Row): string { Indent(row.depth) + row.text }

  /** The rows, each with a line break behind it. */
  function Lines(rows: seq<Row>): string {
    if rows == [] then "" else RowText(rows[0]) + ['\n'] + Lines(rows[1..])
  }

  lemma {:induction false} LinesAppend(a: seq<Row>, b: seq<Row>)
    ensures Lines(a + b) == Lines(a) + Lines(b)
    decreases |a|
  {
    hide RowText;
    if a == [] {
      assert a + b == b;
    } else {
      assert (a + b)[1..] == a[1..] + b;
      LinesAppend(a[1..], b);
      assert RowText(a[0]) + ['\n'] + (Lines(a[1..]) + Lines(b)) == RowText(a[0]) + ['\n'] + Lines(a[1..]) + Lines(b);
    }
  }

  lemma LinesOne(row: Row)
    ensures Lines([row]) == RowText(row) + ['\n']
  {
    hide RowText;
    assert [row][1..] == [];
    assert RowText(row) + ['\n'] + "" == RowText(row) + ['\n'];
  }

  lemma {:induction false} PrintedStatement(s: Statement, depth: int)
    ensures PrintStatement(s, depth) == Lines(StatementRows(s, depth))
    decreases s
  {
    hide Indent, Join, Print, Rows, Lines;
    var indent, words := Indent(depth), Join(s.tokens, " ");
    match s
    case Line(_) =>
      LinesOne(Row(depth, words + ";"));
      assert indent + words + ";" + "\n" == indent + (words + ";") + ['\n'];
    case Block(_, body) =>
      PrintedConfig(body, depth + 1);
      var first, last := Row(depth, words + " {"), Row(depth, "}");
      LinesAppend([first] + Rows(body, depth + 1), [last]);
      LinesAppend([first], Rows(body, depth + 1));
      LinesOne(first);
      LinesOne(last);
      BlockText(indent, words, Print(body, depth + 1));
  }

  lemma BlockText(indent: string, words: string, body: string)
    ensures indent + words + (" {\n" + body + indent + "}") + "\n"
         == indent + (words + " {") + ['\n'] + body + (indent + "}" + ['\n'])
  {}

  lemma {:induction false} PrintedConfig(c: Config, depth: int)
    ensures Print(c, depth) == Lines(Rows(c, depth))
    decreases c
  {
    hide PrintStatement, StatementRows;
    if c != [] {
      PrintedStatement(c[0], depth);
      PrintedConfig(c[1..], depth);
      LinesAppend(StatementRows(c[0], depth), Rows(c[1..], depth));
    }
  }

  // ---------- the lines again ----------

  ghost predicate RowsInLines(rows: seq<Row>) {
    forall i :: 0 <= i < |rows| ==> FreeOf(rows[i].text, {'\n'})
  }

  lemma {:induction false} JoinInLine(words: seq<string>)
    requires forall i :: 0 <= i < |words| ==> FreeOf(words[i], {'\n'})
    ensures FreeOf(Join(words, " "), {'\n'})
  {
    if |words| > 1 { JoinInLine(words[..|words| - 1]); }
  }

  lemma {:induction false} StatementRowsInLines(s: Statement, depth: int)
    requires StatementInLines(s)
    ensures RowsInLines(StatementRows(s, depth))
    decreases s
  {
    JoinInLine(s.tokens);
    hide Join;
    if s.Block? { RowsAreInLines(s.body, depth + 1); }
  }

  lemma {:induction false} RowsAreInLines(c: Config, depth: int)
    requires InLines(c)
    ensures RowsInLines(Rows(c, depth))
    decreases c
  {
    hide StatementInLines, StatementRows;
    if c != [] {
      StatementRowsInLines(c[0], depth);
      RowsAreInLines(c[1..], depth);
    }
  }

  lemma {:induction false} IndentIsSpaces(depth: int)
    ensures |Indent(depth)| == if depth <= 0 then 0 else 2 * depth
    ensures forall i :: 0 <= i < |Indent(depth)| ==> Indent(depth)[i] == ' '
  {
    if depth > 0 { IndentIsSpaces(depth - 1); }
  }

  lemma RowTextIsRow(row: Row)
    ensures IsRow(RowText(row), row)
    ensures FreeOf(row.text, {'\n'}) ==> FreeOf(RowText(row), {'\n'})
  {
    IndentIsSpaces(row.depth);
    hide Indent;
    assert (Indent(row.depth) + row.text)[|Indent(row.depth)|..] == row.text;
  }

  lemma {:induction false} SplitLinesIntoRows(rows: seq<Row>)
    requires RowsInLines(rows)
    ensures var lines := Split(Lines(rows), {'\n'});
            && |lines| == |rows| + 1
            && lines[|rows|] == ""
            && forall i :: 0 <= i < |rows| ==> IsRow(lines[i], rows[i])
    decreases |rows|
  {
    hide Split, IsRow, RowText, FreeOf;
    if rows == [] {
      SplitEmpty();
    } else {
      var line, rest := RowText(rows[0]), Lines(rows[1..]);
      RowTextIsRow(rows[0]);
      SplitLinesIntoRows(rows[1..]);
      SplitFree(line, {'\n'});
      SplitAt(line, '\n', rest, {'\n'});
      var lines := Split(Lines(rows), {'\n'});
      assert lines == [line] + Split(rest, {'\n'});
      assert forall i :: 1 <= i < |rows| ==> rows[i] == rows[1..][i - 1];
    }
  }

  lemma SplitEmpty()
    ensures Split("", {'\n'}) == [""]
  {}

  /**
  Cut at its line breaks, the printed text has one line for each statement and each closing brace, in
  document order. A line is set in by two spaces for every block around it and for every step of the depth
  asked for; behind that it is the tokens with single spaces between them and a semicolon or an opening
  brace, or a closing brace alone.
  */
  lemma Layout(c: Config, depth: int)
    requires InLines(c)
    ensures var lines, rows := Split(Print(c, depth), {'\n'}), Rows(c, depth);
            && |lines| == |rows| + 1
            && lines[|rows|] == ""
            && forall i :: 0 <= i < |rows| ==> IsRow(lines[i], rows[i])
  {
    hide Print, Rows, Split, IsRow;
    PrintedConfig(c, depth);
    RowsAreInLines(c, depth);
    SplitLinesIntoRows(Rows(c, depth));
  }

  /** The rows are set in by the depth asked for and the blocks around them, and by nothing else. */
  lemma {:induction false} RowsShift(c: Config, depth: int, more: int)
    ensures |Rows(c, depth + more)| == |Rows(c, depth)|
    ensures forall i :: 0 <= i < |Rows(c, depth)| ==>
              Rows(c, depth + more)[i] == Row(Rows(c, depth)[i].depth + more, Rows(c, depth)[i].text)
    decreases c
  {
    if c != [] {
      StatementRowsShift(c[0], depth, more);
      RowsShift(c[1..], depth, more);
      hide StatementRows;
    }
  }

  lemma {:induction false} StatementRowsShift(s: Statement, depth: int, more: int)
    ensures |StatementRows(s, depth + more)| == |StatementRows(s, depth)|
    ensures forall i :: 0 <= i < |StatementRows(s, depth)| ==>
              StatementRows(s, depth + more)[i]
              == Row(StatementRows(s, depth)[i].depth + more, StatementRows(s, depth)[i].text)
    decreases s
  {
    if s.Block? {
      RowsShift(s.body, depth + 1, more);
      assert depth + more + 1 == depth + 1 + more;
      hide Rows;
    }
  }

  /** A block with one statement. */
  lemma LayoutOfHandler()
    ensures Print([Block(["handler", "static"], [Line(["name", "static"])])], 0)
         == "handler static {\n  name static;\n}\n"
  {
    hide Print;
    LineOfTwo("name", "static", 1);
    BlockOfTwo("handler", "static", [Line(["name", "static"])]);
    IndentOne();
    hide Indent;
    assert "  " + "name static" + ";" + "\n" == "  name static;\n";
    assert "handler static" + " {\n" + "  name static;\n" + "}" + "\n" == "handler static {\n  name static;\n}\n";
    assert "name" + " " + "static" == "name static" && "handler" + " " + "static" == "handler static";
  }

  lemma LineOfTwo(v: string, w: string, depth: int)
    ensures Print([Line([v, w])], depth) == Indent(depth) + (v + " " + w) + ";" + "\n"
  {
    hide Indent, Join;
    JoinTwo(v, w);
    var s := Line([v, w]);
    assert [s][1..] == [];
    assert PrintStatement(s, depth) + "" == PrintStatement(s, depth);
  }

  lemma BlockOfTwo(v: string, w: string, body: Config)
    ensures Print([Block([v, w], body)], 0) == (v + " " + w) + " {\n" + Print(body, 1) + "}" + "\n"
  {
    JoinTwo(v, w);
    var s := Block([v, w], body);
    assert [s][1..] == [] && Indent(0) == "";
    assert Print([s], 0) == PrintStatement(s, 0) + "" == PrintStatement(s, 0);
    hide Join, Print, Indent;
    NoIndent(v + " " + w, Print(body, 1));
  }

  lemma NoIndent(words: string, body: string)
    ensures "" + words + (" {\n" + body + "" + "}") + "\n" == words + " {\n" + body + "}" + "\n"
  {}

  lemma JoinTwo(v: string, w: string)
    ensures Join([v, w], " ") == v + " " + w
  {
    assert [v, w][..1] == [v];
  }

  lemma IndentOne()
    ensures Indent(1) == "  "
  {
    assert Indent(0) == "";
  }
}
