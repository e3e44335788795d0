/** The document level of the CSV codec (`CsvController`): request checks in
    `Parse` and `Generate`, record filtering, header inference and row
    assembly in `ParseCsv`, and header resolution and line assembly in
    `GenerateCsv`. */
module CsvDocument {
  import opened Wrappers
  import opened Text
  import CsvLines
  import CsvFields

  /** A cell value; `None` is the source's `null`. */
  type Cell = Option<string>

  /** A row as the ordered association list of a .NET `Dictionary`: keys in
      first-insertion order, a later assignment to a key overwriting its value
      in place. */
  type Row = seq<(string, Cell)>

  datatype CsvError =
    | ContentEmpty
    | DelimiterEmpty
    | DelimiterNotSingleChar
    | RowsEmpty
    | InvalidBase64

  /** `CsvParseRequest`; a null string is modelled as "". */
  datatype ParseRequest = ParseRequest(
    content: string,
    isBase64: bool,
    delimiter: string,
    hasHeader: bool,
    textQualifier: string,
    skipEmptyRows: bool,
    trimValues: bool)

  /** `CsvParseResponse`. */
  datatype ParsedDocument = ParsedDocument(
    headers: seq<string>,
    rows: seq<Row>,
    rowCount: nat,
    columnCount: nat)

  /** `CsvGenerateRequest`; cells arrive already turned into text. */
  datatype GenerateRequest = GenerateRequest(
    headers: seq<string>,
    rows: seq<Row>,
    delimiter: string,
    includeHeader: bool,
    textQualifier: string,
    lineEnding: string,
    outputBase64: bool)

  /** `CsvGenerateResponse`; `content` is the text before any Base64 wrapping. */
  datatype GeneratedCsv = GeneratedCsv(
    content: string,
    isBase64: bool,
    rowCount: nat,
    columnCount: nat)

  /** A parse request with the property defaults of `CsvParseRequest`. */
  function DefaultParseRequest(content: string): (r: ParseRequest)
    ensures r.delimiter == "," && r.textQualifier == "\""
    ensures !r.isBase64 && r.hasHeader && r.skipEmptyRows && r.trimValues
  {
    ParseRequest(content, false, ",", true, "\"", true, true)
  }

  /** A generate request with the property defaults of `CsvGenerateRequest`. */
  function DefaultGenerateRequest(headers: seq<string>, rows: seq<Row>): (r: GenerateRequest)
    ensures r.delimiter == "," && r.textQualifier == "\"" && r.lineEnding == "crlf"
    ensures r.includeHeader && !r.outputBase64
  {
    GenerateRequest(headers, rows, ",", true, "\"", "crlf", false)
  }

  /** The qualifier is never rejected: an empty setting means `"`, otherwise
      only its first character counts. A first character above U+FFFF is
      taken whole (see "Left out"). */
  function QualifierOf(textQualifier: string): (q: char)
    ensures textQualifier == "" ==> q == '"'
    ensures textQualifier != "" ==> q == textQualifier[0]
  {
    if textQualifier == "" then '"' else textQualifier[0]
  }

  // ---------------------------------------------------------------- rows

  function Keys(row: Row): (r: seq<string>)
    ensures |r| == |row|
    ensures forall i :: 0 <= i < |row| ==> r[i] == row[i].0
  {
    seq(|row|, i requires 0 <= i < |row| => row[i].0)
  }

  /** `TryGetValue`: the value stored under `key`, if the key is present. */
  function Lookup(row: Row, key: string): (r: Option<Cell>)
    ensures r.Some? <==> key in Keys(row)
  {
    if |row| == 0 then None
    else if row[0].0 == key then Some(row[0].1)
    else
      assert Keys(row) == [row[0].0] + Keys(row[1..]);
      Lookup(row[1..], key)
  }

  predicate Distinct(names: seq<string>) {
    forall i, j :: 0 <= i < j < |names| ==> names[i] != names[j]
  }

  lemma KeysCons(p: (string, Cell), row: Row)
    ensures Keys([p] + row) == [p.0] + Keys(row)
  {
    var a, b := Keys([p] + row), [p.0] + Keys(row);
    assert |a| == |b|;
    assert forall i :: 0 <= i < |a| ==> a[i] == b[i];
  }

  lemma LookupCons(p: (string, Cell), row: Row, k: string)
    ensures Lookup([p] + row, k) == if p.0 == k then Some(p.1) else Lookup(row, k)
  {
    assert ([p] + row)[1..] == row;
  }

  /** `dict[key] = value`: overwrites the value of a present key in place and
      appends an absent one. */
  function Assign(row: Row, key: string, value: Cell): Row {
    if |row| == 0 then [(key, value)]
    else if row[0].0 == key then [(key, value)] + row[1..]
    else [row[0]] + Assign(row[1..], key, value)
  }

  /** After the assignment the key holds the new cell and every other key
      holds what it held before. */
  lemma {:induction false} AssignLookup(row: Row, key: string, value: Cell, k: string)
    ensures Lookup(Assign(row, key, value), k) == if k == key then Some(value) else Lookup(row, k)
  {
    if |row| == 0 {
      LookupCons((key, value), [], k);
    } else {
      assert row == [row[0]] + row[1..];
      LookupCons(row[0], row[1..], k);
      if row[0].0 == key {
        LookupCons((key, value), row[1..], k);
      } else {
        AssignLookup(row[1..], key, value, k);
        LookupCons(row[0], Assign(row[1..], key, value), k);
      }
    }
  }

  /** A present key keeps its place; an absent one is appended. */
  lemma {:induction false} AssignKeys(row: Row, key: string, value: Cell)
    ensures key in Keys(row) ==> Keys(Assign(row, key, value)) == Keys(row)
    ensures key !in Keys(row) ==> Keys(Assign(row, key, value)) == Keys(row) + [key]
  {
    if |row| == 0 {
      KeysCons((key, value), []);
    } else {
      assert row == [row[0]] + row[1..];
      KeysCons(row[0], row[1..]);
      if row[0].0 == key {
        KeysCons((key, value), row[1..]);
      } else {
        AssignKeys(row[1..], key, value);
        KeysCons(row[0], Assign(row[1..], key, value));
      }
    }
  }

  lemma AssignKeepsKeysDistinct(row: Row, key: string, value: Cell)
    requires Distinct(Keys(row))
    ensures Distinct(Keys(Assign(row, key, value)))
  {
    AssignKeys(row, key, value);
    var ks := Keys(row);
    if key !in ks {
      var ks' := ks + [key];
      forall i, j | 0 <= i < j < |ks'|
        ensures ks'[i] != ks'[j]
      {
        if j == |ks| {
          assert ks'[i] == ks[i];
        }
      }
    }
  }

  /** A field becomes a cell; a missing or empty field becomes `null`. */
  function CellAt(record: seq<string>, i: nat): (c: Cell)
    ensures c.Some? <==> i < |record| && record[i] != ""
    ensures c.Some? ==> c.value == record[i]
  {
    if i < |record| && record[i] != "" then Some(record[i]) else None
  }

  /** No header after position `i` (and before `n`) has the same name. */
  predicate LastOccurrence(headers: seq<string>, i: nat, n: nat)
    requires i < n <= |headers|
  {
    forall j :: i < j < n ==> headers[j] != headers[i]
  }

  /** The dictionary `ParseCsv` builds from the first `n` headers: header i is
      assigned field i, in order. */
  function BuildRowPrefix(headers: seq<string>, record: seq<string>, n: nat): Row
    requires n <= |headers|
  {
    if n == 0 then []
    else Assign(BuildRowPrefix(headers, record, n - 1), headers[n - 1], CellAt(record, n - 1))
  }

  lemma BuildRowStep(headers: seq<string>, record: seq<string>, n: nat)
    requires 0 < n <= |headers|
    ensures BuildRowPrefix(headers, record, n)
            == Assign(BuildRowPrefix(headers, record, n - 1), headers[n - 1], CellAt(record, n - 1))
  {
  }

  lemma TakeSnoc(headers: seq<string>, n: nat)
    requires 0 < n <= |headers|
    ensures headers[..n] == headers[..n - 1] + [headers[n - 1]]
    ensures forall k :: k in headers[..n] <==> k in headers[..n - 1] || k == headers[n - 1]
  {
    assert headers[..n] == headers[..n - 1] + [headers[n - 1]];
  }

  lemma DistinctPrefix(headers: seq<string>, n: nat)
    requires 0 < n <= |headers|
    requires Distinct(headers[..n])
    ensures Distinct(headers[..n - 1]) && headers[n - 1] !in headers[..n - 1]
  {
    var p := headers[..n];
    var q := headers[..n - 1];
    assert forall i :: 0 <= i < n - 1 ==> q[i] == p[i];
    assert p[n - 1] == headers[n - 1];
  }

  /** The keys of the built row are pairwise distinct. */
  lemma {:induction false} BuildRowKeysDistinct(headers: seq<string>, record: seq<string>, n: nat)
    requires n <= |headers|
    ensures Distinct(Keys(BuildRowPrefix(headers, record, n)))
  {
    if n > 0 {
      BuildRowKeysDistinct(headers, record, n - 1);
      var prev := BuildRowPrefix(headers, record, n - 1);
      AssignKeepsKeysDistinct(prev, headers[n - 1], CellAt(record, n - 1));
      assert BuildRowPrefix(headers, record, n) == Assign(prev, headers[n - 1], CellAt(record, n - 1));
    }
  }

  /** What adding header `n - 1` does to a lookup. */
  lemma BuildRowLookupStep(headers: seq<string>, record: seq<string>, n: nat, k: string)
    requires 0 < n <= |headers|
    ensures Lookup(BuildRowPrefix(headers, record, n), k)
            == if k == headers[n - 1] then Some(CellAt(record, n - 1)) else Lookup(BuildRowPrefix(headers, record, n - 1), k)
  {
    BuildRowStep(headers, record, n);
    AssignLookup(BuildRowPrefix(headers, record, n - 1), headers[n - 1], CellAt(record, n - 1), k);
  }

  /** The row has a key for every header and for nothing else. */
  lemma {:induction false} BuildRowCoversHeaders(headers: seq<string>, record: seq<string>, n: nat, k: string)
    requires n <= |headers|
    ensures Lookup(BuildRowPrefix(headers, record, n), k).Some? <==> k in headers[..n]
  {
    if n > 0 {
      BuildRowLookupStep(headers, record, n, k);
      BuildRowCoversHeaders(headers, record, n - 1, k);
      TakeSnoc(headers, n);
    }
  }

  /** Last write wins: a repeated header name keeps the field of its last
      position. */
  lemma {:induction false} BuildRowLastWriteWins(headers: seq<string>, record: seq<string>, n: nat, i: nat)
    requires i < n <= |headers|
    requires LastOccurrence(headers, i, n)
    ensures Lookup(BuildRowPrefix(headers, record, n), headers[i]) == Some(CellAt(record, i))
  {
    BuildRowLookupStep(headers, record, n, headers[i]);
    if i < n - 1 {
      assert headers[n - 1] != headers[i];
      BuildRowLastWriteWins(headers, record, n - 1, i);
    }
  }

  /** With distinct headers the keys are the headers, in order. */
  lemma {:induction false} BuildRowKeysInOrder(headers: seq<string>, record: seq<string>, n: nat)
    requires n <= |headers|
    requires Distinct(headers[..n])
    ensures Keys(BuildRowPrefix(headers, record, n)) == headers[..n]
  {
    if n > 0 {
      DistinctPrefix(headers, n);
      BuildRowStep(headers, record, n);
      BuildRowKeysInOrder(headers, record, n - 1);
      AssignKeys(BuildRowPrefix(headers, record, n - 1), headers[n - 1], CellAt(record, n - 1));
      TakeSnoc(headers, n);
    }
  }

  function BuildRow(headers: seq<string>, record: seq<string>): Row {
    BuildRowPrefix(headers, record, |headers|)
  }

  /** With pairwise distinct headers, header i holds cell i and the keys are
      the headers in order. */
  lemma BuildRowDistinct(headers: seq<string>, record: seq<string>)
    requires Distinct(headers)
    ensures Keys(BuildRow(headers, record)) == headers
    ensures forall i :: 0 <= i < |headers| ==> Lookup(BuildRow(headers, record), headers[i]) == Some(CellAt(record, i))
  {
    assert headers[..|headers|] == headers;
    BuildRowKeysInOrder(headers, record, |headers|);
    forall i | 0 <= i < |headers|
      ensures Lookup(BuildRow(headers, record), headers[i]) == Some(CellAt(record, i))
    {
      BuildRowLastWriteWins(headers, record, |headers|, i);
    }
  }

  // ------------------------------------------------------------- parsing

  /** The split lines that reach the tokenizer: with `skipEmptyRows`, exactly
      the lines that are not empty or white space, in order. */
  function SurvivingLines(lines: seq<string>, skipEmptyRows: bool): (r: seq<string>)
    ensures !skipEmptyRows ==> r == lines
    ensures |r| <= |lines|
    ensures forall l :: l in r ==> l in lines
    ensures skipEmptyRows ==> forall l :: l in r ==> !IsBlank(l)
    ensures skipEmptyRows ==> forall l :: l in lines && !IsBlank(l) ==> l in r
    ensures (forall l :: l in lines ==> !IsBlank(l)) ==> r == lines
  {
    if |lines| == 0 then []
    else
      var rest := SurvivingLines(lines[1..], skipEmptyRows);
      assert forall l :: l in lines ==> l == lines[0] || l in lines[1..];
      if skipEmptyRows && IsBlank(lines[0]) then rest else [lines[0]] + rest
  }

  /** A single line survives unless it is blank and blank lines are skipped. */
  lemma SurvivingLine(line: string, skipEmptyRows: bool)
    ensures SurvivingLines([line], skipEmptyRows) == if skipEmptyRows && IsBlank(line) then [] else [line]
  {
    assert [line][1..] == [];
  }

  /** Filtering works line by line: it distributes over concatenation, so the
      surviving lines keep their order and their repetitions. With
      `SurvivingLine` this fixes the result for every list of lines. */
  lemma {:induction false} SurvivingLinesAppend(a: seq<string>, b: seq<string>, skipEmptyRows: bool)
    ensures SurvivingLines(a + b, skipEmptyRows) == SurvivingLines(a, skipEmptyRows) + SurvivingLines(b, skipEmptyRows)
    decreases |a|
  {
    if |a| == 0 {
      assert a + b == b;
    } else {
      assert (a + b)[0] == a[0];
      assert (a + b)[1..] == a[1..] + b;
      SurvivingLinesAppend(a[1..], b, skipEmptyRows);
    }
  }

  function TokenizeAll(lines: seq<string>, delimiter: char, qualifier: char, trimValues: bool): (r: seq<seq<string>>)
    ensures |r| == |lines|
    ensures forall i :: 0 <= i < |lines| ==> r[i] == CsvFields.ParseLine(lines[i], delimiter, qualifier, trimValues)
  {
    seq(|lines|, i requires 0 <= i < |lines| => CsvFields.ParseLine(lines[i], delimiter, qualifier, trimValues))
  }

  /** The tokenized records of `ParseCsv` (`allParsedRows` before the header
      record is taken off). */
  function Records(content: string, delimiter: char, qualifier: char, skipEmptyRows: bool, trimValues: bool): seq<seq<string>> {
    TokenizeAll(SurvivingLines(CsvLines.SplitLines(content), skipEmptyRows), delimiter, qualifier, trimValues)
  }

  /** The widest record. */
  function MaxWidth(records: seq<seq<string>>): (m: nat)
    ensures forall i :: 0 <= i < |records| ==> |records[i]| <= m
    ensures |records| > 0 ==> exists i :: 0 <= i < |records| && |records[i]| == m
    ensures |records| == 0 ==> m == 0
  {
    if |records| == 0 then 0
    else
      var rest := MaxWidth(records[1..]);
      assert forall i :: 1 <= i < |records| ==> records[i] == records[1..][i - 1];
      if |records[0]| >= rest then |records[0]| else rest
  }

  /** `$"Column{i}"`. */
  function ColumnName(i: nat): string {
    "Column" + DecimalString(i)
  }

  lemma ColumnNamesDistinct(i: nat, j: nat)
    requires i != j
    ensures ColumnName(i) != ColumnName(j)
  {
    DecimalStringInjective(i, j);
    assert ColumnName(i)[6..] == DecimalString(i);
    assert ColumnName(j)[6..] == DecimalString(j);
  }

  /** Headers taken from the header record: field i when present and not
      empty, otherwise `Column{i+1}`. */
  function HeadersFrom(first: seq<string>, columnCount: nat): (r: seq<string>)
    ensures |r| == columnCount
    ensures forall i :: 0 <= i < columnCount ==>
              r[i] == (if i < |first| && first[i] != "" then first[i] else ColumnName(i + 1))
  {
    seq(columnCount, i requires 0 <= i < columnCount =>
      if i < |first| && first[i] != "" then first[i] else ColumnName(i + 1))
  }

  /** `Column1` .. `ColumnN`, pairwise distinct. */
  function GeneratedHeaders(columnCount: nat): (r: seq<string>)
    ensures |r| == columnCount
    ensures forall i :: 0 <= i < columnCount ==> r[i] == ColumnName(i + 1)
    ensures Distinct(r)
  {
    var r := seq(columnCount, i requires 0 <= i < columnCount => ColumnName(i + 1));
    forall i, j | 0 <= i < j < columnCount
      ensures r[i] != r[j]
    {
      ColumnNamesDistinct(i + 1, j + 1);
    }
    r
  }

  function BuildRows(headers: seq<string>, records: seq<seq<string>>): (r: seq<Row>)
    ensures |r| == |records|
    ensures forall i :: 0 <= i < |records| ==> r[i] == BuildRow(headers, records[i])
  {
    seq(|records|, i requires 0 <= i < |records| => BuildRow(headers, records[i]))
  }

  /** The document `ParseCsv` assembles from the tokenized records. An empty
      list of records gives an empty document. Otherwise the column count is
      the widest record, the header record included; there is one header per
      column; with `hasHeader` the first record supplies the headers and is
      not a row, without it the headers are `Column1`..; every row is built by
      `BuildRow` from its record. */
  function Assemble(records: seq<seq<string>>, hasHeader: bool): (doc: ParsedDocument)
    ensures |records| == 0 ==> doc == ParsedDocument([], [], 0, 0)
    ensures |records| > 0 ==> doc.columnCount == MaxWidth(records)
    ensures |doc.headers| == doc.columnCount
    ensures doc.rowCount == |doc.rows|
    ensures |records| > 0 ==> |doc.rows| == (if hasHeader then |records| - 1 else |records|)
    ensures |records| > 0 && hasHeader ==> doc.headers == HeadersFrom(records[0], doc.columnCount)
    ensures |records| > 0 && hasHeader ==>
              forall i :: 0 <= i < |doc.rows| ==> doc.rows[i] == BuildRow(doc.headers, records[i + 1])
    ensures !hasHeader ==> doc.headers == GeneratedHeaders(doc.columnCount)
    ensures !hasHeader ==> forall i :: 0 <= i < |doc.rows| ==> doc.rows[i] == BuildRow(doc.headers, records[i])
  {
    if |records| == 0 then ParsedDocument([], [], 0, 0)
    else
      var columnCount := MaxWidth(records);
      var headers := if hasHeader then HeadersFrom(records[0], columnCount) else GeneratedHeaders(columnCount);
      var data := if hasHeader then records[1..] else records;
      var rows := BuildRows(headers, data);
      ParsedDocument(headers, rows, |rows|, columnCount)
  }

  /** `ParseCsv` on already decoded text: the records of the text assembled
      into a document. No input is rejected. */
  function ParseCsv(content: string, delimiter: char, qualifier: char, hasHeader: bool,
                    skipEmptyRows: bool, trimValues: bool): ParsedDocument
  {
    Assemble(Records(content, delimiter, qualifier, skipEmptyRows, trimValues), hasHeader)
  }

  /** `CsvController.Parse`: content, then delimiter, are checked before any
      parsing; the delimiter must be one UTF-16 code unit long. Base64
      decoding is the `fromBase64` collaborator. */
  function Parse(request: ParseRequest, fromBase64: string -> Option<string>): (r: Result<ParsedDocument, CsvError>)
    ensures request.content == "" ==> r == Failure(ContentEmpty)
    ensures request.content != "" && request.delimiter == "" ==> r == Failure(DelimiterEmpty)
    ensures request.content != "" && UnitLength(request.delimiter) > 1 ==> r == Failure(DelimiterNotSingleChar)
    ensures r.Failure? && r.error == InvalidBase64 <==>
              request.content != "" && UnitLength(request.delimiter) == 1 && request.isBase64
              && fromBase64(request.content).None?
    ensures r.Success? <==>
              request.content != "" && UnitLength(request.delimiter) == 1
              && (request.isBase64 ==> fromBase64(request.content).Some?)
    ensures request.content != "" && UnitLength(request.delimiter) == 1 && !request.isBase64 ==>
              r == Success(ParseCsv(request.content, request.delimiter[0], QualifierOf(request.textQualifier),
                                    request.hasHeader, request.skipEmptyRows, request.trimValues))
    ensures request.content != "" && UnitLength(request.delimiter) == 1 && request.isBase64
            && fromBase64(request.content).Some? ==>
              r == Success(ParseCsv(fromBase64(request.content).value, request.delimiter[0],
                                    QualifierOf(request.textQualifier),
                                    request.hasHeader, request.skipEmptyRows, request.trimValues))
  {
    if request.content == "" then Failure(ContentEmpty)
    else if request.delimiter == "" then Failure(DelimiterEmpty)
    else if UnitLength(request.delimiter) > 1 then Failure(DelimiterNotSingleChar)
    else
      var decoded := if request.isBase64 then fromBase64(request.content) else Some(request.content);
      match decoded
      case None => Failure(InvalidBase64)
      case Some(text) =>
        Success(ParseCsv(text, request.delimiter[0], QualifierOf(request.textQualifier),
                         request.hasHeader, request.skipEmptyRows, request.trimValues))
  }

  /** A delimiter outside the Basic Multilingual Plane is two `char`s long and
      is rejected, by both operations. */
  lemma SupplementaryDelimiterRejected(content: string, rows: seq<Row>, c: char,
                                       parse: ParseRequest, generate: GenerateRequest,
                                       fromBase64: string -> Option<string>, toBase64: string -> string)
    requires c as int >= 0x1_0000
    requires parse.content != "" && parse.delimiter == [c]
    requires |generate.rows| > 0 && generate.delimiter == [c]
    ensures Parse(parse, fromBase64) == Failure(DelimiterNotSingleChar)
    ensures Generate(generate, toBase64) == Failure(DelimiterNotSingleChar)
  {
    assert UnitLength([c]) == 2 by {
      assert [c][1..] == [];
    }
  }

  // ---------------------------------------------------------- generation

  /** `"\n"` exactly when the setting lower-cases to `lf`, else `"\r\n"`. */
  function LineEndingOf(lineEnding: string): (eol: string)
    ensures CsvLines.IsLineEnding(eol)
    ensures eol == "\n" <==> AsciiLower(lineEnding) == "lf"
  {
    if AsciiLower(lineEnding) == "lf" then "\n" else "\r\n"
  }

  /** The headers written: the supplied list if it is not empty, otherwise the
      key order of the first row. */
  function ResolveHeaders(headers: seq<string>, rows: seq<Row>): (r: seq<string>)
    ensures |headers| > 0 ==> r == headers
    ensures |headers| == 0 && |rows| > 0 ==> r == Keys(rows[0])
    ensures |headers| == 0 && |rows| == 0 ==> r == []
  {
    if |headers| > 0 then headers else if |rows| > 0 then Keys(rows[0]) else []
  }

  /** The text written for a header's cell: the value, or "" when the key is
      missing or the value is null. */
  function ValueFor(row: Row, header: string): (v: string)
    ensures Lookup(row, header).Some? && Lookup(row, header).value.Some? ==> v == Lookup(row, header).value.value
    ensures Lookup(row, header).None? || Lookup(row, header).value.None? ==> v == ""
  {
    match Lookup(row, header)
    case Some(Some(v)) => v
    case _ => ""
  }

  function RowValues(row: Row, headers: seq<string>): (r: seq<string>)
    ensures |r| == |headers|
    ensures forall i :: 0 <= i < |headers| ==> r[i] == ValueFor(row, headers[i])
  {
    seq(|headers|, i requires 0 <= i < |headers| => ValueFor(row, headers[i]))
  }

  /** One record of values per row, in header order. */
  function RowRecords(rows: seq<Row>, headers: seq<string>): (r: seq<seq<string>>)
    ensures |r| == |rows|
    ensures forall i :: 0 <= i < |rows| ==> r[i] == RowValues(rows[i], headers)
  {
    seq(|rows|, i requires 0 <= i < |rows| => RowValues(rows[i], headers))
  }

  /** The records the generator writes: the header record when it is included
      and there are headers, then one record per row in header order. */
  function OutputTable(headers: seq<string>, rows: seq<Row>, includeHeader: bool): (t: seq<seq<string>>)
    ensures |t| == |rows| + (if includeHeader && |headers| > 0 then 1 else 0)
    ensures includeHeader && |headers| > 0 ==> t[0] == headers
    ensures forall i :: 0 <= i < |rows| ==>
              t[i + (if includeHeader && |headers| > 0 then 1 else 0)] == RowValues(rows[i], headers)
  {
    (if includeHeader && |headers| > 0 then [headers] else []) + RowRecords(rows, headers)
  }

  function EscapedLines(table: seq<seq<string>>, delimiter: char, qualifier: char): (r: seq<string>)
    ensures |r| == |table|
    ensures forall i :: 0 <= i < |table| ==> r[i] == CsvFields.EscapedLine(table[i], delimiter, qualifier)
  {
    seq(|table|, i requires 0 <= i < |table| => CsvFields.EscapedLine(table[i], delimiter, qualifier))
  }

  /** The text `GenerateCsv` builds: every record of the output table escaped,
      joined with the delimiter and terminated by the line ending, the last
      one included. */
  function GeneratedText(request: GenerateRequest): string
    requires |request.delimiter| >= 1
  {
    var headers := ResolveHeaders(request.headers, request.rows);
    CsvLines.Terminated(
      EscapedLines(OutputTable(headers, request.rows, request.includeHeader),
                   request.delimiter[0], QualifierOf(request.textQualifier)),
      LineEndingOf(request.lineEnding))
  }

  /** `GenerateCsv`: the generated text, wrapped by the `toBase64`
      collaborator when `outputBase64` is set; the counts are the number of
      rows and of resolved headers. */
  function GenerateCsv(request: GenerateRequest, toBase64: string -> string): (r: GeneratedCsv)
    requires |request.delimiter| >= 1
    ensures r.columnCount == |ResolveHeaders(request.headers, request.rows)|
    ensures r.rowCount == |request.rows|
    ensures r.isBase64 == request.outputBase64
    ensures !request.outputBase64 ==> r.content == GeneratedText(request)
    ensures request.outputBase64 ==> r.content == toBase64(GeneratedText(request))
  {
    var text := GeneratedText(request);
    GeneratedCsv(if request.outputBase64 then toBase64(text) else text,
                 request.outputBase64, |request.rows|, |ResolveHeaders(request.headers, request.rows)|)
  }

  /** `CsvController.Generate`: rows, then delimiter, are checked first; the
      delimiter must be one UTF-16 code unit long. */
  function Generate(request: GenerateRequest, toBase64: string -> string): (r: Result<GeneratedCsv, CsvError>)
    ensures |request.rows| == 0 ==> r == Failure(RowsEmpty)
    ensures |request.rows| > 0 && request.delimiter == "" ==> r == Failure(DelimiterEmpty)
    ensures |request.rows| > 0 && UnitLength(request.delimiter) > 1 ==> r == Failure(DelimiterNotSingleChar)
    ensures r.Success? <==> |request.rows| > 0 && UnitLength(request.delimiter) == 1
    ensures r.Success? ==> r.value == GenerateCsv(request, toBase64)
  {
    if |request.rows| == 0 then Failure(RowsEmpty)
    else if request.delimiter == "" then Failure(DelimiterEmpty)
    else if UnitLength(request.delimiter) > 1 then Failure(DelimiterNotSingleChar)
    else Success(GenerateCsv(request, toBase64))
  }
}
