/** How the CSV generator and the CSV parser fit together: the text
    `GenerateCsv` writes with the `"` qualifier splits back into exactly the
    records it wrote and tokenizes back into exactly their values, so parsing
    generated text recovers the headers and the cells (an empty cell coming
    back as `null`), and generating again from the parse reproduces the text.
    The conditions are the ones under which the parser's own rules do not
    get in the way: the splitter only knows `"`, blank lines are dropped when
    `skipEmptyRows` is set, values are trimmed when `trimValues` is set, an
    empty header is replaced by `Column{i}`, and a repeated header collapses
    into one key. */
module CsvRoundTrip {
  import opened Wrappers
  import opened Text
  import opened CsvLines
  import opened CsvFields
  import opened CsvDocument

  // ------------------------------------------------------- quote state

  /** Reading `a + b` is reading `a`, then `b` from the state `a` left. */
  lemma {:induction false} ConcatState(a: string, b: string, inQuotes: bool)
    ensures UnbrokenFrom(a + b, inQuotes) ==
              (UnbrokenFrom(a, inQuotes) && UnbrokenFrom(b, QuotesOpenAfter(a, inQuotes)))
    ensures QuotesOpenAfter(a + b, inQuotes) == QuotesOpenAfter(b, QuotesOpenAfter(a, inQuotes))
    decreases |a|
  {
    if |a| > 0 {
      assert (a + b)[0] == a[0];
      assert (a + b)[1..] == a[1..] + b;
      ConcatState(a[1..], b, if a[0] == Quote then !inQuotes else inQuotes);
    } else {
      assert a + b == b;
    }
  }

  /** Text with no `"` and no line break leaves the quote state alone. */
  lemma {:induction false} PlainState(v: string, inQuotes: bool)
    requires Quote !in v && '\r' !in v && '\n' !in v
    ensures UnbrokenFrom(v, inQuotes) && QuotesOpenAfter(v, inQuotes) == inQuotes
    decreases |v|
  {
    if |v| > 0 {
      assert forall c :: c in v[1..] ==> c in v;
      PlainState(v[1..], inQuotes);
    }
  }

  /** Inside quotes, a value with its quotes doubled may hold line breaks and
      leaves the splitter inside quotes. */
  lemma {:induction false} DoubledState(v: string)
    ensures UnbrokenFrom(DoubleQualifiers(v, Quote), true)
    ensures QuotesOpenAfter(DoubleQualifiers(v, Quote), true)
    decreases |v|
  {
    if |v| > 0 {
      DoubledState(v[1..]);
      var head := if v[0] == Quote then [Quote, Quote] else [v[0]];
      assert DoubleQualifiers(v, Quote) == head + DoubleQualifiers(v[1..], Quote);
      ConcatState(head, DoubleQualifiers(v[1..], Quote), true);
      if v[0] == Quote {
        assert head[1..] == [Quote];
        assert [Quote][1..] == [];
      } else {
        assert head[1..] == [];
      }
    }
  }

  /** Every field the generator writes with the `"` qualifier is a well
      quoted piece of a record. */
  lemma EscapedFieldWellQuoted(v: string, delimiter: char)
    requires delimiter != Quote
    ensures WellQuoted(EscapeField(v, delimiter, Quote))
  {
    var e := EscapeField(v, delimiter, Quote);
    if NeedsQuoting(v, delimiter, Quote) {
      var d := DoubleQualifiers(v, Quote);
      assert e == [Quote] + (d + [Quote]);
      DoubledState(v);
      ConcatState([Quote], d + [Quote], false);
      ConcatState(d, [Quote], true);
      assert [Quote][1..] == [];
    } else {
      PlainState(v, false);
    }
  }

  /** Well quoted fields joined by a delimiter that is neither `"` nor a line
      break make a well quoted record. */
  lemma {:induction false} JoinWellQuoted(fields: seq<string>, delimiter: char)
    requires delimiter != Quote && !IsBreak(delimiter)
    requires forall i :: 0 <= i < |fields| ==> WellQuoted(fields[i])
    ensures WellQuoted(JoinWith(fields, delimiter))
    decreases |fields|
  {
    if |fields| > 1 {
      JoinWellQuoted(fields[1..], delimiter);
      var rest := JoinWith(fields[1..], delimiter);
      assert JoinWith(fields, delimiter) == fields[0] + ([delimiter] + rest);
      ConcatState(fields[0], [delimiter] + rest, false);
      ConcatState([delimiter], rest, false);
      assert [delimiter][1..] == [];
    } else if |fields| == 0 {
      assert JoinWith(fields, delimiter) == [];
    }
  }

  lemma EscapedLineWellQuoted(values: seq<string>, delimiter: char)
    requires delimiter != Quote && !IsBreak(delimiter)
    ensures WellQuoted(EscapedLine(values, delimiter, Quote))
  {
    var fields := EscapeAll(values, delimiter, Quote);
    forall i | 0 <= i < |fields|
      ensures WellQuoted(fields[i])
    {
      EscapedFieldWellQuoted(values[i], delimiter);
    }
    JoinWellQuoted(fields, delimiter);
  }

  // ---------------------------------------------------------- blank lines

  lemma BlankConcat(a: string, b: string)
    ensures IsBlank(a + b) ==> IsBlank(a) && IsBlank(b)
  {
    if IsBlank(a + b) {
      assert forall i :: 0 <= i < |a| ==> a[i] == (a + b)[i];
      assert forall i :: 0 <= i < |b| ==> b[i] == (a + b)[|a| + i];
    }
  }

  /** A blank record consists of blank fields only. */
  lemma {:induction false} JoinBlank(fields: seq<string>, delimiter: char, i: nat)
    requires i < |fields|
    requires IsBlank(JoinWith(fields, delimiter))
    ensures IsBlank(fields[i])
    decreases |fields|
  {
    if |fields| > 1 {
      var rest := JoinWith(fields[1..], delimiter);
      assert JoinWith(fields, delimiter) == fields[0] + ([delimiter] + rest);
      BlankConcat(fields[0], [delimiter] + rest);
      BlankConcat([delimiter], rest);
      if i > 0 {
        JoinBlank(fields[1..], delimiter, i - 1);
      }
    }
  }

  /** Escaping never makes a value blank. */
  lemma EscapedNotBlank(v: string, delimiter: char)
    requires !IsBlank(v)
    ensures !IsBlank(EscapeField(v, delimiter, Quote))
  {
    var e := EscapeField(v, delimiter, Quote);
    if NeedsQuoting(v, delimiter, Quote) {
      assert !IsWhiteSpace(e[0]);
    }
  }

  // -------------------------------------------------------------- records

  /** The record survives the `skipEmptyRows` filter: with the filter on,
      some value is not empty or white space. */
  predicate Survives(values: seq<string>, skipEmptyRows: bool) {
    !skipEmptyRows || exists j :: 0 <= j < |values| && !IsBlank(values[j])
  }

  /** The values are unchanged by `trimValues`. */
  predicate Stable(values: seq<string>, trimValues: bool) {
    !trimValues || forall j :: 0 <= j < |values| ==> Trim(values[j]) == values[j]
  }

  lemma EscapedLineSurvives(values: seq<string>, delimiter: char)
    requires exists j :: 0 <= j < |values| && !IsBlank(values[j])
    ensures !IsBlank(EscapedLine(values, delimiter, Quote))
  {
    var j :| 0 <= j < |values| && !IsBlank(values[j]);
    EscapedNotBlank(values[j], delimiter);
    if IsBlank(EscapedLine(values, delimiter, Quote)) {
      JoinBlank(EscapeAll(values, delimiter, Quote), delimiter, j);
    }
  }

  /** A generated record line tokenizes back into its values. */
  lemma TokenizeEscaped(values: seq<string>, delimiter: char, trimValues: bool)
    requires delimiter != Quote
    requires |values| >= 1
    requires Stable(values, trimValues)
    ensures ParseLine(EscapedLine(values, delimiter, Quote), delimiter, Quote, trimValues) == values
  {
    ParseEscapedLine(values, delimiter, Quote);
  }

  lemma LinesWellQuoted(table: seq<seq<string>>, delimiter: char)
    requires delimiter != Quote && !IsBreak(delimiter)
    ensures forall i :: 0 <= i < |table| ==> WellQuoted(EscapedLines(table, delimiter, Quote)[i])
  {
    forall i | 0 <= i < |table|
      ensures WellQuoted(EscapedLines(table, delimiter, Quote)[i])
    {
      EscapedLineWellQuoted(table[i], delimiter);
    }
  }

  lemma LinesSurvive(table: seq<seq<string>>, delimiter: char, skipEmptyRows: bool)
    requires forall i :: 0 <= i < |table| ==> Survives(table[i], skipEmptyRows)
    ensures SurvivingLines(EscapedLines(table, delimiter, Quote), skipEmptyRows) == EscapedLines(table, delimiter, Quote)
  {
    var lines := EscapedLines(table, delimiter, Quote);
    if skipEmptyRows {
      forall l | l in lines
        ensures !IsBlank(l)
      {
        var i :| 0 <= i < |lines| && lines[i] == l;
        EscapedLineSurvives(table[i], delimiter);
      }
    }
  }

  lemma TokenizeTable(table: seq<seq<string>>, delimiter: char, trimValues: bool)
    requires delimiter != Quote
    requires forall i :: 0 <= i < |table| ==> |table[i]| >= 1
    requires forall i :: 0 <= i < |table| ==> Stable(table[i], trimValues)
    ensures TokenizeAll(EscapedLines(table, delimiter, Quote), delimiter, Quote, trimValues) == table
  {
    var records := TokenizeAll(EscapedLines(table, delimiter, Quote), delimiter, Quote, trimValues);
    forall i | 0 <= i < |table|
      ensures records[i] == table[i]
    {
      TokenizeEscaped(table[i], delimiter, trimValues);
    }
  }

  /** The generated lines of a table split, filter and tokenize back into the
      table. */
  lemma RecordsOfTable(table: seq<seq<string>>, delimiter: char, eol: string,
                       skipEmptyRows: bool, trimValues: bool)
    requires IsLineEnding(eol)
    requires delimiter != Quote && !IsBreak(delimiter)
    requires forall i :: 0 <= i < |table| ==> |table[i]| >= 1
    requires forall i :: 0 <= i < |table| ==> Survives(table[i], skipEmptyRows)
    requires forall i :: 0 <= i < |table| ==> Stable(table[i], trimValues)
    ensures Records(Terminated(EscapedLines(table, delimiter, Quote), eol), delimiter, Quote,
                    skipEmptyRows, trimValues) == table
  {
    var lines := EscapedLines(table, delimiter, Quote);
    LinesWellQuoted(table, delimiter);
    SplitTerminated(lines, eol);
    LinesSurvive(table, delimiter, skipEmptyRows);
    TokenizeTable(table, delimiter, trimValues);
  }

  // ------------------------------------------------------------ documents

  /** The cell a parsed value becomes: `null` when it is empty. */
  function CellOf(v: string): (c: Cell)
    ensures c.None? <==> v == ""
    ensures c.Some? ==> c.value == v
  {
    if v == "" then None else Some(v)
  }

  /** The conditions under which generated text parses back with the header
      record: a one-character delimiter other than `"` and the line breaks, the
      `"` qualifier, the header record written, at least one header, headers
      non-empty and pairwise distinct, and every written record surviving
      the empty-row filter and the trimming of the parse. */
  predicate RoundTrips(request: GenerateRequest, skipEmptyRows: bool, trimValues: bool) {
    var headers := ResolveHeaders(request.headers, request.rows);
    var table := OutputTable(headers, request.rows, request.includeHeader);
    && |request.rows| > 0
    && UnitLength(request.delimiter) == 1
    && request.delimiter[0] != Quote && !IsBreak(request.delimiter[0])
    && QualifierOf(request.textQualifier) == Quote
    && request.includeHeader
    && |headers| >= 1
    && Distinct(headers)
    && (forall j :: 0 <= j < |headers| ==> headers[j] != "")
    && (forall i :: 0 <= i < |table| ==> Survives(table[i], skipEmptyRows))
    && (forall i :: 0 <= i < |table| ==> Stable(table[i], trimValues))
  }

  /** Every record of the output table has one value per header. */
  lemma TableWidth(headers: seq<string>, rows: seq<Row>)
    requires |headers| > 0
    ensures forall i :: 0 <= i < |OutputTable(headers, rows, true)| ==> |OutputTable(headers, rows, true)[i]| == |headers|
  {
    var table := OutputTable(headers, rows, true);
    forall i | 0 <= i < |table|
      ensures |table[i]| == |headers|
    {
      if i > 0 {
        assert table[(i - 1) + 1] == RowValues(rows[i - 1], headers);
      }
    }
  }

  /** The records the parser reads from generated text are the output table. */
  lemma GeneratedRecords(request: GenerateRequest, skipEmptyRows: bool, trimValues: bool)
    requires RoundTrips(request, skipEmptyRows, trimValues)
    ensures Records(GeneratedText(request), request.delimiter[0], Quote, skipEmptyRows, trimValues)
              == OutputTable(ResolveHeaders(request.headers, request.rows), request.rows, true)
  {
    var headers := ResolveHeaders(request.headers, request.rows);
    var table := OutputTable(headers, request.rows, true);
    TableWidth(headers, request.rows);
    RecordsOfTable(table, request.delimiter[0], LineEndingOf(request.lineEnding), skipEmptyRows, trimValues);
  }

  /** Assembling, with the header record, a header record of distinct
      non-empty names followed by records of the same width. */
  lemma AssembleUniform(headers: seq<string>, data: seq<seq<string>>)
    requires |headers| > 0 && Distinct(headers)
    requires forall j :: 0 <= j < |headers| ==> headers[j] != ""
    requires forall i :: 0 <= i < |data| ==> |data[i]| == |headers|
    ensures var doc := Assemble([headers] + data, true);
      && doc.headers == headers
      && doc.columnCount == |headers|
      && doc.rowCount == |data|
      && |doc.rows| == |data|
      && (forall i :: 0 <= i < |data| ==> Keys(doc.rows[i]) == headers)
      && (forall i, j :: 0 <= i < |data| && 0 <= j < |headers| ==> Lookup(doc.rows[i], headers[j]) == Some(CellAt(data[i], j)))
  {
    var records := [headers] + data;
    forall i | 0 <= i < |records|
      ensures |records[i]| == |headers|
    {
      if i > 0 {
        assert records[i] == data[i - 1];
      }
    }
    assert MaxWidth(records) == |headers|;
    var doc := Assemble(records, true);
    assert doc.headers == headers;
    forall i | 0 <= i < |data|
      ensures Keys(doc.rows[i]) == headers
      ensures forall j :: 0 <= j < |headers| ==> Lookup(doc.rows[i], headers[j]) == Some(CellAt(data[i], j))
    {
      assert records[i + 1] == data[i];
      BuildRowDistinct(headers, data[i]);
    }
  }

  /** The output table with the header record is the headers followed by one
      record of values per row. */
  lemma TableShape(headers: seq<string>, rows: seq<Row>)
    requires |headers| > 0
    ensures OutputTable(headers, rows, true) == [headers] + RowRecords(rows, headers)
  {
  }

  /** Parsing generated text with the header record recovers the resolved
      headers as they are, one column per header, one row per request row,
      and in each row every header holding its written value, `null` for an
      empty one, with the headers as keys in order. */
  lemma ParseGenerated(request: GenerateRequest, skipEmptyRows: bool, trimValues: bool)
    requires RoundTrips(request, skipEmptyRows, trimValues)
    ensures var headers := ResolveHeaders(request.headers, request.rows);
      var doc := ParseCsv(GeneratedText(request), request.delimiter[0], Quote, true, skipEmptyRows, trimValues);
      && doc.headers == headers
      && doc.columnCount == |headers|
      && doc.rowCount == |request.rows|
      && |doc.rows| == |request.rows|
      && (forall i :: 0 <= i < |request.rows| ==> Keys(doc.rows[i]) == headers)
      && (forall i, j :: 0 <= i < |request.rows| && 0 <= j < |headers| ==>
            Lookup(doc.rows[i], headers[j]) == Some(CellOf(ValueFor(request.rows[i], headers[j]))))
  {
    var headers := ResolveHeaders(request.headers, request.rows);
    var rows := request.rows;
    var data := RowRecords(rows, headers);
    GeneratedRecords(request, skipEmptyRows, trimValues);
    TableShape(headers, rows);
    AssembleUniform(headers, data);
    forall i, j | 0 <= i < |rows| && 0 <= j < |headers|
      ensures CellAt(data[i], j) == CellOf(ValueFor(rows[i], headers[j]))
    {
      RowCell(rows[i], headers, j);
    }
  }

  /** The `j`-th cell of a row's record is the cell its value under the `j`-th
      header becomes. */
  lemma RowCell(row: Row, headers: seq<string>, j: nat)
    requires j < |headers|
    ensures CellAt(RowValues(row, headers), j) == CellOf(ValueFor(row, headers[j]))
  {
  }

  /** Generated text parses: the request passes the checks of `Parse`, and the
      document is the one `ParseGenerated` describes. */
  lemma ParseAcceptsGenerated(request: GenerateRequest, skipEmptyRows: bool, trimValues: bool,
                              fromBase64: string -> Option<string>)
    requires RoundTrips(request, skipEmptyRows, trimValues)
    ensures var text := GeneratedText(request);
      Parse(ParseRequest(text, false, request.delimiter, true, request.textQualifier, skipEmptyRows, trimValues), fromBase64)
        == Success(ParseCsv(text, request.delimiter[0], Quote, true, skipEmptyRows, trimValues))
  {
    var headers := ResolveHeaders(request.headers, request.rows);
    var table := OutputTable(headers, request.rows, request.includeHeader);
    assert |Terminated(EscapedLines(table, request.delimiter[0], Quote), LineEndingOf(request.lineEnding))| > 0;
  }

  /** Rows holding, under every header, the cell a value becomes write the
      same values as the rows they were parsed from. */
  lemma SameRowRecords(parsed: seq<Row>, rows: seq<Row>, headers: seq<string>)
    requires |parsed| == |rows|
    requires forall i, j :: 0 <= i < |rows| && 0 <= j < |headers| ==>
               Lookup(parsed[i], headers[j]) == Some(CellOf(ValueFor(rows[i], headers[j])))
    ensures RowRecords(parsed, headers) == RowRecords(rows, headers)
  {
    forall i | 0 <= i < |rows|
      ensures RowValues(parsed[i], headers) == RowValues(rows[i], headers)
    {
      forall j | 0 <= j < |headers|
        ensures ValueFor(parsed[i], headers[j]) == ValueFor(rows[i], headers[j])
      {
      }
    }
  }

  /** Parse, then generate from the parsed headers and rows with the same
      settings: the text comes back unchanged. */
  lemma Regenerate(request: GenerateRequest, skipEmptyRows: bool, trimValues: bool,
                   fromBase64: string -> Option<string>, toBase64: string -> string)
    requires RoundTrips(request, skipEmptyRows, trimValues)
    requires !request.outputBase64
    ensures var text := GeneratedText(request);
      var parsed := Parse(ParseRequest(text, false, request.delimiter, true, request.textQualifier,
                                       skipEmptyRows, trimValues), fromBase64);
      && parsed.Success?
      && Generate(GenerateRequest(parsed.value.headers, parsed.value.rows, request.delimiter, true,
                                  request.textQualifier, request.lineEnding, false), toBase64)
           == Success(GeneratedCsv(text, false, |request.rows|, |ResolveHeaders(request.headers, request.rows)|))
  {
    var headers := ResolveHeaders(request.headers, request.rows);
    var text := GeneratedText(request);
    ParseAcceptsGenerated(request, skipEmptyRows, trimValues, fromBase64);
    ParseGenerated(request, skipEmptyRows, trimValues);
    var doc := ParseCsv(text, request.delimiter[0], Quote, true, skipEmptyRows, trimValues);
    var again := GenerateRequest(doc.headers, doc.rows, request.delimiter, true,
                                 request.textQualifier, request.lineEnding, false);
    SameRowRecords(doc.rows, request.rows, headers);
    TableShape(headers, doc.rows);
    TableShape(headers, request.rows);
    assert GeneratedText(again) == text;
  }

  // ---------------------------------------------------------------- quirk

  /** Only `"` protects a line break from the splitter: two pieces without `"`
      or line breaks around a `\n` always split into two records, whatever
      other character a request uses as its text qualifier. */
  lemma OnlyDoubleQuoteProtectsBreaks(a: string, b: string)
    requires |a| > 0 && |b| > 0
    requires Quote !in a && '\r' !in a && '\n' !in a
    requires Quote !in b && '\r' !in b && '\n' !in b
    ensures SplitLines(a + "\n" + b) == [a, b]
  {
    PlainState(a, false);
    PlainState(b, false);
    assert a + "\n" + b == a + ("\n" + b);
    SplitReadsThrough(a, "\n" + b, [], false);
    assert [] + a == a;
    SplitAtLineEnding("\n", b, a);
    SplitReadsThrough(b, [], [], false);
    assert b + [] == b;
    assert [] + b == b;
  }

  /** With `'` as the qualifier, a quoted value holding a line break is cut in
      two before the tokenizer sees it. */
  lemma SingleQuotedBreakIsCut()
    ensures SplitLines("'a\nb'") == ["'a", "b'"]
  {
    assert "'a" + "\n" + "b'" == "'a\nb'";
    OnlyDoubleQuoteProtectsBreaks("'a", "b'");
  }
}
