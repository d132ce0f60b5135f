/** The local mode of main.go: a SQL dump of the `default.PB` table,
    one `INSERT` statement per line, turned into events. Reading the
    file is left out; the dump is its text. `time.Parse` with the layout
    `2006-01-02T15:04:05.000000` is the parameter `parseTime`; instants
    are counted from Go's zero time, which is therefore 0. */
module LocalMode {
  import opened Common
  import opened Text

  /** What is left of the statement's head once the punctuation is gone. */
  const InsertPrefix: string := "INSERT INTO default.PB timestamp x y c VALUES "

  /** Go's zero `time.Time`, which a failed parse leaves behind. */
  const ZeroTime: int := 0

  // ---------------------------------------------------------------
  // One line

  /** The characters removed from every line. */
  predicate Stripped(ch: char)
  {
    ch == '(' || ch == ')' || ch == '\'' || ch == ';' || ch == ','
  }

  /** The five `strings.Replace(v, c, "", -1)` calls, in source order. */
  function Strip(line: string): string
  {
    RemoveChar(RemoveChar(RemoveChar(RemoveChar(RemoveChar(line, '('), ')'), '\''), ';'), ',')
  }

  /** The characters of `s` other than the five, in order: what the
      replacements leave, stated in one pass. */
  function KeepUnstripped(s: string): (r: string)
    ensures forall i :: 0 <= i < |r| ==> !Stripped(r[i])
  {
    if s == [] then [] else (if Stripped(s[0]) then [] else [s[0]]) + KeepUnstripped(s[1..])
  }

  lemma StripAppend(a: string, b: string)
    ensures Strip(a + b) == Strip(a) + Strip(b)
  {
    RemoveCharAppend(a, b, '(');
    var a1, b1 := RemoveChar(a, '('), RemoveChar(b, '(');
    RemoveCharAppend(a1, b1, ')');
    var a2, b2 := RemoveChar(a1, ')'), RemoveChar(b1, ')');
    RemoveCharAppend(a2, b2, '\'');
    var a3, b3 := RemoveChar(a2, '\''), RemoveChar(b2, '\'');
    RemoveCharAppend(a3, b3, ';');
    var a4, b4 := RemoveChar(a3, ';'), RemoveChar(b3, ';');
    RemoveCharAppend(a4, b4, ',');
  }

  lemma StripChar(ch: char)
    ensures Strip([ch]) == if Stripped(ch) then [] else [ch]
  {
    RemoveCharOne(ch, '(');
    RemoveCharOne(ch, ')');
    RemoveCharOne(ch, '\'');
    RemoveCharOne(ch, ';');
    RemoveCharOne(ch, ',');
  }

  lemma RemoveCharOne(ch: char, c: char)
    ensures RemoveChar([ch], c) == if ch == c then [] else [ch]
    ensures RemoveChar([], c) == []
  {
    assert [ch][1..] == [];
  }

  /** The five replacements together remove exactly the five characters
      and keep everything else in order. */
  lemma {:induction false} StripKeepsUnstripped(s: string)
    ensures Strip(s) == KeepUnstripped(s)
  {
    if s != [] {
      assert s == [s[0]] + s[1..];
      StripAppend([s[0]], s[1..]);
      StripChar(s[0]);
      StripKeepsUnstripped(s[1..]);
    }
  }

  /** The space-separated fields after the statement head. When the
      head is missing, `strings.Cut` gives the empty string, which is a
      single empty field. */
  function Fields(line: string): (r: seq<string>)
    ensures |r| >= 1
  {
    Split(Cut(Strip(line), InsertPrefix).1, ' ')
  }

  /** The body of the loop for one non-empty line: the event it yields,
      or `None` where the source indexes past the fields it has and
      panics. */
  function ParseLine(line: string, parseTime: string -> Option<int>): (r: Option<VisualData>)
    ensures r.None? <==> |Fields(line)| < 4
    ensures r.Some? ==> MinInt64 <= r.value.x <= MaxInt64 && MinInt64 <= r.value.y <= MaxInt64
    ensures r.Some? ==> parseTime(Fields(line)[0]).None? ==> r.value.time == ZeroTime
    ensures r.Some? ==>
              var name := r.value.blockTexture;
              |name| >= 4 && name[|name| - 4..] == ".png"
              && forall i :: 0 <= i < |name| - 4 ==> !IsUpper(name[i])
  {
    var values := Fields(line);
    if |values| < 4 then None
    else
      var time := match parseTime(values[0]) case Some(t) => t case None => ZeroTime;
      var texture := ToLower(values[3]) + ".png";
      assert texture[|texture| - 4..] == ".png";
      Some(VisualData(time, ParseInt(values[1]), ParseInt(values[2]), texture))
  }

  /** A line without the statement head makes the source panic. */
  lemma MissingHeadPanics(line: string, parseTime: string -> Option<int>)
    requires !Contains(Strip(line), InsertPrefix)
    ensures ParseLine(line, parseTime).None?
  {
    assert Cut(Strip(line), InsertPrefix).1 == "";
    assert Split("", ' ') == [""];
  }

  // ---------------------------------------------------------------
  // The whole dump

  /** The line parser of the source for a given `time.Parse`. */
  function LineParser(parseTime: string -> Option<int>): string -> Option<VisualData>
  {
    line => ParseLine(line, parseTime)
  }

  /** The outcome of the loop over `lines` with line parser `parse`:
      the events of the non-empty lines in line order, or the index of
      the first non-empty line on which the parser fails (where the
      source panics). */
  function ParseLines(lines: seq<string>, parse: string -> Option<VisualData>): (r: Result<seq<VisualData>, nat>)
    ensures r.Success? ==> |r.value| <= |lines|
    ensures r.Failure? ==> r.error < |lines| && lines[r.error] != "" && parse(lines[r.error]).None?
    decreases |lines|
  {
    if lines == [] then Success([])
    else
      match ParseLines(lines[..|lines| - 1], parse)
      case Failure(k) => Failure(k)
      case Success(blocks) =>
        var v := lines[|lines| - 1];
        if v == "" then Success(blocks)
        else match parse(v)
          case None => Failure(|lines| - 1)
          case Some(d) => Success(blocks + [d])
  }

  /** `localModeSetup`'s reading of the dump: the text split into lines
      and handed to the loop with the source's line parser. */
  method ParseDump(text: string, parseTime: string -> Option<int>) returns (r: Result<seq<VisualData>, nat>)
    ensures r == ParseLines(Split(text, '\n'), LineParser(parseTime))
  {
    var lines := Split(text, '\n');
    r := ParseEach(lines, LineParser(parseTime));
  }

  /** `localModeSetup`'s loop: empty lines skipped, every other line
      parsed and its event appended, the first failure stopping it. */
  method ParseEach(lines: seq<string>, parse: string -> Option<VisualData>) returns (r: Result<seq<VisualData>, nat>)
    ensures r == ParseLines(lines, parse)
  {
    var blocks := [];
    var i := 0;
    while i < |lines|
      invariant 0 <= i <= |lines|
      invariant ParseLines(lines[..i], parse) == Success(blocks)
    {
      var v := lines[i];
      assert lines[..i + 1][..i] == lines[..i];
      if v != "" {
        var d := parse(v);
        if d.None? {
          FirstFailure(lines, i, parse);
          return Failure(i);
        }
        blocks := blocks + [d.value];
      }
      i := i + 1;
    }
    assert lines[..i] == lines;
    return Success(blocks);
  }

  /** A failure after a run of good lines ends the loop there, whatever
      follows. */
  lemma FirstFailure(lines: seq<string>, i: nat, parse: string -> Option<VisualData>)
    requires i < |lines| && lines[i] != "" && parse(lines[i]).None?
    requires ParseLines(lines[..i], parse).Success?
    ensures ParseLines(lines, parse) == Failure(i)
  {
    assert lines[..i + 1][..i] == lines[..i];
    assert ParseLines(lines[..i + 1], parse) == Failure(i);
    ParseLinesAppend(lines[..i + 1], lines[i + 1..], parse);
    assert lines[..i + 1] + lines[i + 1..] == lines;
  }

  /** Line `j` makes the loop fail. */
  predicate Panics(lines: seq<string>, parse: string -> Option<VisualData>, j: int)
  {
    0 <= j < |lines| && lines[j] != "" && parse(lines[j]).None?
  }

  /** The loop fails exactly when some non-empty line cannot be parsed,
      and then at the first such line. */
  lemma {:induction false} ParseLinesFailure(lines: seq<string>, parse: string -> Option<VisualData>)
    ensures var r := ParseLines(lines, parse);
            && (r.Failure? ==> Panics(lines, parse, r.error))
            && (r.Failure? ==> forall j :: 0 <= j < r.error ==> !Panics(lines, parse, j))
            && (r.Success? ==> forall j :: 0 <= j < |lines| ==> !Panics(lines, parse, j))
    decreases |lines|
  {
    if lines != [] {
      var init := lines[..|lines| - 1];
      ParseLinesFailure(init, parse);
      assert forall j :: 0 <= j < |init| ==> (Panics(init, parse, j) <==> Panics(lines, parse, j));
    }
  }

  /** Parsing two runs of lines one after the other appends their
      events, in order; a failure in the first run stops the loop there. */
  lemma {:induction false} ParseLinesAppend(a: seq<string>, b: seq<string>, parse: string -> Option<VisualData>)
    ensures ParseLines(a + b, parse) ==
              match ParseLines(a, parse)
              case Failure(k) => Failure(k)
              case Success(ea) =>
                match ParseLines(b, parse)
                case Failure(k) => Failure(|a| + k)
                case Success(eb) => Success(ea + eb)
    decreases |b|
  {
    if b == [] {
      assert a + b == a;
      match ParseLines(a, parse)
      case Failure(k) =>
      case Success(ea) =>
        assert ea + [] == ea;
    } else {
      var b0 := b[..|b| - 1];
      assert (a + b)[..|a + b| - 1] == a + b0;
      ParseLinesAppend(a, b0, parse);
      match ParseLines(a, parse)
      case Failure(k) =>
      case Success(ea) =>
        match ParseLines(b0, parse)
        case Failure(k) =>
        case Success(eb) =>
          assert (a + b)[|a + b| - 1] == b[|b| - 1];
          var d := parse(b[|b| - 1]);
          if b[|b| - 1] != "" && d.Some? {
            assert ea + eb + [d.value] == ea + (eb + [d.value]);
          }
    }
  }

  // ---------------------------------------------------------------
  // Round trip with the statements of the dump

  /** One row of `default.PB` as the dump writes it. */
  datatype Row = Row(stamp: string, x: int, y: int, block: string)

  /** Text that the line parser passes through whole: no character it
      strips, no field or line separator. */
  predicate Plain(s: string)
  {
    forall i :: 0 <= i < |s| ==> !Stripped(s[i]) && s[i] != ' ' && s[i] != '\n'
  }

  /** A row the source reads back: plain stamp and block name, a stamp
      `time.Parse` accepts, and int64 coordinates. */
  predicate Readable(row: Row, parseTime: string -> Option<int>)
  {
    && Plain(row.stamp) && Plain(row.block) && parseTime(row.stamp).Some?
    && MinInt64 <= row.x <= MaxInt64 && MinInt64 <= row.y <= MaxInt64
  }

  /** A SQL list: the items with `", "` between consecutive ones. */
  function SqlList(items: seq<string>): string
    requires |items| >= 1
  {
    if |items| == 1 then items[0] else items[0] + ", " + SqlList(items[1..])
  }

  /** A SQL string literal. */
  function Quoted(s: string): string
  {
    "'" + s + "'"
  }

  /** The values of one row, in column order. */
  function Values(row: Row): seq<string>
  {
    [Quoted(row.stamp), IntToString(row.x), IntToString(row.y), Quoted(row.block)]
  }

  /** The `INSERT` statement of one row:
      `INSERT INTO default.PB (timestamp, x, y, c) VALUES ('<stamp>', <x>, <y>, '<block>');` */
  function Statement(row: Row): string
  {
    "INSERT INTO default.PB (" + SqlList(["timestamp", "x", "y", "c"]) + ") VALUES (" + SqlList(Values(row)) + ");"
  }

  /** The event the source makes of a readable row. */
  function EventOf(row: Row, parseTime: string -> Option<int>): VisualData
    requires parseTime(row.stamp).Some?
  {
    VisualData(parseTime(row.stamp).value, row.x, row.y, ToLower(row.block) + ".png")
  }

  /** A dump of the rows: one statement per line, each line ended by a
      newline. */
  function Dump(rows: seq<Row>): string
  {
    Terminated(Statements(rows), '\n')
  }

  /** The lines `ls`, each followed by `c`. */
  function Terminated(ls: seq<string>, c: char): string
  {
    if ls == [] then [] else Terminated(ls[..|ls| - 1], c) + ls[|ls| - 1] + [c]
  }

  lemma {:induction false} IntToStringPlain(n: int)
    ensures Plain(IntToString(n))
  {
    var s := NatToString(if n < 0 then -n else n);
    assert forall i :: 0 <= i < |s| ==> IsDigit(s[i]);
    if n < 0 {
      assert IntToString(n) == "-" + s;
      assert forall i :: 1 <= i < |"-" + s| ==> ("-" + s)[i] == s[i - 1];
    }
  }

  /** Text free of the five characters passes through unchanged. */
  lemma StripPlain(s: string)
    requires '(' !in s && ')' !in s && '\'' !in s && ';' !in s && ',' !in s
    ensures Strip(s) == s
  {
    RemoveCharAbsent(s, '(');
    RemoveCharAbsent(s, ')');
    RemoveCharAbsent(s, '\'');
    RemoveCharAbsent(s, ';');
    RemoveCharAbsent(s, ',');
  }

  lemma PlainStrip(s: string)
    requires Plain(s)
    ensures Strip(s) == s
  {
    StripPlain(s);
  }

  lemma StripQuoted(s: string)
    requires Plain(s)
    ensures Strip(Quoted(s)) == s
  {
    StripChar('\'');
    PlainStrip(s);
    StripAppend("'", s);
    StripAppend("'" + s, "'");
  }

  lemma StripComma()
    ensures Strip(", ") == " "
  {
    StripChar(',');
    StripChar(' ');
    assert ", " == [','] + [' '];
    StripAppend([','], [' ']);
  }

  /** A SQL list without its punctuation is its stripped items separated
      by single spaces. */
  lemma {:induction false} StripSqlList(items: seq<string>, stripped: seq<string>)
    requires |items| == |stripped| >= 1
    requires forall i :: 0 <= i < |items| ==> Strip(items[i]) == stripped[i]
    ensures Strip(SqlList(items)) == Join(stripped, ' ')
    decreases |items|
  {
    if |items| > 1 {
      StripSqlList(items[1..], stripped[1..]);
      StripComma();
      StripAppend(items[0], ", ");
      StripAppend(items[0] + ", ", SqlList(items[1..]));
    }
  }

  /** Plain text followed by one stripped character loses just that
      character. */
  lemma StripPlainThen(s: string, ch: char)
    requires '(' !in s && ')' !in s && '\'' !in s && ';' !in s && ',' !in s
    requires Stripped(ch)
    ensures Strip(s + [ch]) == s
  {
    StripPlain(s);
    StripChar(ch);
    StripAppend(s, [ch]);
  }

  /** The statement around the column list and around the value list. */
  lemma StripHead()
    ensures Strip("INSERT INTO default.PB (") == "INSERT INTO default.PB "
  {
    HeadPlain('(');
    HeadPlain(')');
    HeadPlain('\'');
    HeadPlain(';');
    HeadPlain(',');
    StripPlainThen("INSERT INTO default.PB ", '(');
    assert "INSERT INTO default.PB (" == "INSERT INTO default.PB " + ['('];
  }

  lemma HeadPlain(ch: char)
    requires Stripped(ch)
    ensures ch !in "INSERT INTO default.PB "
  {
  }

  lemma StripMiddle()
    ensures Strip(") VALUES (") == " VALUES "
  {
    StripChar('(');
    StripChar(')');
    assert ") VALUES (" == ")" + " VALUES " + "(";
    StripPlain(" VALUES ");
    StripAppend(")", " VALUES ");
    StripAppend(")" + " VALUES ", "(");
  }

  lemma StripTail()
    ensures Strip(");") == ""
  {
    StripChar(')');
    StripChar(';');
    assert ");" == ")" + ";";
    StripAppend(")", ";");
  }

  /** Without its punctuation the column list is the one in the prefix
      the source cuts off. */
  lemma StripColumns()
    ensures Strip(SqlList(["timestamp", "x", "y", "c"])) == "timestamp x y c"
  {
    StripPlainList(["timestamp", "x", "y", "c"]);
    ColumnsJoin();
  }

  /** A list of items without punctuation loses only its separators'
      commas. */
  lemma StripPlainList(items: seq<string>)
    requires |items| >= 1
    requires forall i :: 0 <= i < |items| ==> '(' !in items[i] && ')' !in items[i] && '\'' !in items[i] && ';' !in items[i] && ',' !in items[i]
    ensures Strip(SqlList(items)) == Join(items, ' ')
  {
    forall i | 0 <= i < |items|
      ensures Strip(items[i]) == items[i]
    {
      StripPlain(items[i]);
    }
    StripSqlList(items, items);
  }

  lemma ColumnsJoin()
    ensures Join(["timestamp", "x", "y", "c"], ' ') == "timestamp x y c"
  {
    var columns := ["timestamp", "x", "y", "c"];
    assert columns[1..] == ["x", "y", "c"] && columns[1..][1..] == ["y", "c"] && columns[1..][1..][1..] == ["c"];
  }

  lemma PrefixPieces()
    ensures "INSERT INTO default.PB " + "timestamp x y c" + " VALUES " == InsertPrefix
  {
  }

  /** The punctuation of a statement is what the replacements remove. */
  lemma StripStatement(row: Row)
    requires Plain(row.stamp) && Plain(row.block)
    ensures Strip(Statement(row)) == InsertPrefix + Join([row.stamp, IntToString(row.x), IntToString(row.y), row.block], ' ')
  {
    var columns := SqlList(["timestamp", "x", "y", "c"]);
    var values := SqlList(Values(row));
    var fields := [row.stamp, IntToString(row.x), IntToString(row.y), row.block];
    IntToStringPlain(row.x);
    IntToStringPlain(row.y);
    PlainStrip(IntToString(row.x));
    PlainStrip(IntToString(row.y));
    StripQuoted(row.stamp);
    StripQuoted(row.block);
    StripSqlList(Values(row), fields);
    StripHead();
    StripMiddle();
    StripTail();
    StripColumns();
    PrefixPieces();
    StripAppend("INSERT INTO default.PB (", columns);
    StripAppend("INSERT INTO default.PB (" + columns, ") VALUES (");
    StripAppend("INSERT INTO default.PB (" + columns + ") VALUES (", values);
    StripAppend("INSERT INTO default.PB (" + columns + ") VALUES (" + values, ");");
  }

  /** The statement of a readable row parses back to the row's event. */
  lemma LineRoundTrip(row: Row, parseTime: string -> Option<int>)
    requires Readable(row, parseTime)
    ensures ParseLine(Statement(row), parseTime) == Some(EventOf(row, parseTime))
  {
    var fields := [row.stamp, IntToString(row.x), IntToString(row.y), row.block];
    IntToStringPlain(row.x);
    IntToStringPlain(row.y);
    StripStatement(row);
    CutPrefix(InsertPrefix, Join(fields, ' '));
    forall f | f in fields
      ensures ' ' !in f
    {
      assert Plain(f);
    }
    SplitUnique(fields, ' ');
    assert Fields(Statement(row)) == fields;
    ParseIntToString(row.x);
    ParseIntToString(row.y);
  }

  /** The events of a run of rows. */
  function EventsOf(rows: seq<Row>, parseTime: string -> Option<int>): (r: seq<VisualData>)
    requires forall i :: 0 <= i < |rows| ==> Readable(rows[i], parseTime)
    ensures |r| == |rows|
  {
    if rows == [] then []
    else
      assert Readable(rows[|rows| - 1], parseTime);
      EventsOf(rows[..|rows| - 1], parseTime) + [EventOf(rows[|rows| - 1], parseTime)]
  }

  /** The lines of a dump: one statement per row, then the empty text
      after the final newline. */
  lemma {:induction false} DumpLines(rows: seq<Row>)
    requires forall i :: 0 <= i < |rows| ==> Plain(rows[i].stamp) && Plain(rows[i].block)
    ensures Split(Dump(rows), '\n') == Statements(rows) + [""]
  {
    var lines := Statements(rows) + [""];
    JoinTerminated(Statements(rows), '\n');
    forall f | f in lines
      ensures '\n' !in f
    {
      if f != "" {
        var i :| 0 <= i < |rows| && f == Statement(rows[i]);
        StatementOneLine(rows[i]);
      }
    }
    SplitUnique(lines, '\n');
  }

  /** The statements of the rows, in order. */
  function Statements(rows: seq<Row>): (r: seq<string>)
    ensures |r| == |rows|
    ensures forall i :: 0 <= i < |rows| ==> r[i] == Statement(rows[i])
  {
    seq(|rows|, i requires 0 <= i < |rows| => Statement(rows[i]))
  }

  lemma {:induction false} SqlListOneLine(items: seq<string>)
    requires |items| >= 1 && forall i :: 0 <= i < |items| ==> '\n' !in items[i]
    ensures '\n' !in SqlList(items)
    decreases |items|
  {
    if |items| > 1 {
      SqlListOneLine(items[1..]);
    }
  }

  /** A statement is a single line. */
  lemma StatementOneLine(row: Row)
    requires Plain(row.stamp) && Plain(row.block)
    ensures '\n' !in Statement(row)
  {
    IntToStringPlain(row.x);
    IntToStringPlain(row.y);
    SqlListOneLine(["timestamp", "x", "y", "c"]);
    SqlListOneLine(Values(row));
  }

  /** Lines each followed by `c` are those lines joined on `c`, with an
      empty last field after the final `c`. */
  lemma {:induction false} JoinTerminated(ls: seq<string>, c: char)
    ensures Join(ls + [""], c) == Terminated(ls, c)
    decreases |ls|
  {
    if ls != [] {
      var init := ls[..|ls| - 1];
      JoinTerminated(init, c);
      JoinSnoc(init, ls[|ls| - 1], c);
      assert init + [ls[|ls| - 1]] == ls;
    }
  }

  /** Replacing the final empty field by `s` and a new empty field adds
      `s` and a separator at the end. */
  lemma {:induction false} JoinSnoc(fields: seq<string>, s: string, c: char)
    ensures Join(fields + [s] + [""], c) == Join(fields + [""], c) + s + [c]
    decreases |fields|
  {
    if fields == [] {
      assert [s] + [""] == [s, ""];
      assert Join([s, ""], c) == s + [c] + Join([""], c);
    } else {
      assert (fields + [s] + [""])[1..] == fields[1..] + [s] + [""];
      assert (fields + [""])[1..] == fields[1..] + [""];
      JoinSnoc(fields[1..], s, c);
    }
  }

  /** A dump of readable rows parses back to their events, in order:
      every statement yields its row's event and the empty text after
      the final newline is skipped. */
  lemma {:induction false} DumpRoundTrip(rows: seq<Row>, parseTime: string -> Option<int>)
    requires forall i :: 0 <= i < |rows| ==> Readable(rows[i], parseTime)
    ensures ParseLines(Split(Dump(rows), '\n'), LineParser(parseTime)) == Success(EventsOf(rows, parseTime))
  {
    DumpLines(rows);
    StatementsParse(rows, parseTime);
    ParseLinesAppend(Statements(rows), [""], LineParser(parseTime));
    assert ParseLines([""], LineParser(parseTime)) == Success([]) by {
      assert [""][..0] == [];
    }
  }

  lemma {:induction false} StatementsParse(rows: seq<Row>, parseTime: string -> Option<int>)
    requires forall i :: 0 <= i < |rows| ==> Readable(rows[i], parseTime)
    ensures ParseLines(Statements(rows), LineParser(parseTime)) == Success(EventsOf(rows, parseTime))
  {
    if rows != [] {
      var init := rows[..|rows| - 1];
      var last := rows[|rows| - 1];
      StatementsParse(init, parseTime);
      assert Statements(rows)[..|rows| - 1] == Statements(init);
      LineRoundTrip(last, parseTime);
      assert |Statement(last)| > 0;
    }
  }
}
