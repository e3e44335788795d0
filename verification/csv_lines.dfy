/** The quote-aware record splitter of the CSV parser
    (`CsvController.SplitLines`). It cuts the text at `\n`, at a `\r\n` pair
    and at a lone `\r`, but only where an even number of `"` characters has
    been seen so far: the splitter always tracks the literal `"`, whatever
    text qualifier the request names. */
module CsvLines {

  /** The only character the splitter treats as a quote. */
  const Quote: char := '"'

  predicate IsBreak(c: char) {
    c == '\r' || c == '\n'
  }

  /** The splitter's scan of `s`, given the record read so far (`current`) and
      whether an odd number of quotes has been seen. */
  function Split(s: string, current: string, inQuotes: bool): seq<string>
    decreases |s|
  {
    if |s| == 0 then
      if |current| > 0 then [current] else []
    else if s[0] == Quote then
      Split(s[1..], current + [s[0]], !inQuotes)
    else if s[0] == '\r' && !inQuotes then
      if |s| > 1 && s[1] == '\n' then Split(s[1..], current, inQuotes)
      else [current] + Split(s[1..], [], inQuotes)
    else if s[0] == '\n' && !inQuotes then
      [current] + Split(s[1..], [], inQuotes)
    else
      Split(s[1..], current + [s[0]], inQuotes)
  }

  /** `SplitLines`: the logical records of a whole document. */
  function SplitLines(content: string): seq<string> {
    Split(content, [], false)
  }

  /** Whether an odd number of quotes has been seen after reading `s`,
      starting from `inQuotes`. */
  function QuotesOpenAfter(s: string, inQuotes: bool): bool
    decreases |s|
  {
    if |s| == 0 then inQuotes
    else QuotesOpenAfter(s[1..], if s[0] == Quote then !inQuotes else inQuotes)
  }

  /** No line-break character of `s` lies outside quotes. */
  predicate UnbrokenFrom(s: string, inQuotes: bool)
    decreases |s|
  {
    if |s| == 0 then true
    else if s[0] == Quote then UnbrokenFrom(s[1..], !inQuotes)
    else (inQuotes || !IsBreak(s[0])) && UnbrokenFrom(s[1..], inQuotes)
  }

  /** A record that can be written on one logical line: every line break in it
      is inside quotes and its quotes are balanced. */
  predicate WellQuoted(line: string) {
    UnbrokenFrom(line, false) && !QuotesOpenAfter(line, false)
  }

  /** `s` with the line-break characters outside quotes removed. */
  function StripBreaks(s: string, inQuotes: bool): string
    decreases |s|
  {
    if |s| == 0 then []
    else if s[0] == Quote then [s[0]] + StripBreaks(s[1..], !inQuotes)
    else if IsBreak(s[0]) && !inQuotes then StripBreaks(s[1..], inQuotes)
    else [s[0]] + StripBreaks(s[1..], inQuotes)
  }

  function Flatten(lines: seq<string>): string {
    if |lines| == 0 then [] else lines[0] + Flatten(lines[1..])
  }

  /** Every line followed by the line ending, as the generator writes them. */
  function Terminated(lines: seq<string>, eol: string): string {
    if |lines| == 0 then [] else lines[0] + eol + Terminated(lines[1..], eol)
  }

  predicate IsLineEnding(eol: string) {
    eol == "\n" || eol == "\r\n"
  }

  lemma FlattenCons(line: string, lines: seq<string>)
    ensures Flatten([line] + lines) == line + Flatten(lines)
  {
    assert ([line] + lines)[1..] == lines;
  }

  /** One step of the splitter that appends the character read to the record. */
  lemma SplitExtends(s: string, current: string, inQuotes: bool)
    requires |s| > 0 && (s[0] == Quote || !IsBreak(s[0]) || inQuotes)
    requires var q := if s[0] == Quote then !inQuotes else inQuotes;
      Flatten(Split(s[1..], current + [s[0]], q)) == (current + [s[0]]) + StripBreaks(s[1..], q)
    ensures Flatten(Split(s, current, inQuotes)) == current + StripBreaks(s, inQuotes)
  {
  }

  /** One step of the splitter that ends the record at a line break. */
  lemma SplitCuts(s: string, current: string, inQuotes: bool)
    requires |s| > 0 && IsBreak(s[0]) && !inQuotes && !(s[0] == '\r' && |s| > 1 && s[1] == '\n')
    requires Flatten(Split(s[1..], [], inQuotes)) == StripBreaks(s[1..], inQuotes)
    ensures Flatten(Split(s, current, inQuotes)) == current + StripBreaks(s, inQuotes)
  {
    FlattenCons(current, Split(s[1..], [], inQuotes));
  }

  /** Nothing but the separators is lost: the records put back together are the
      text with its out-of-quote line breaks removed. */
  lemma {:induction false} SplitKeepsEverythingButSeparators(s: string, current: string, inQuotes: bool)
    ensures Flatten(Split(s, current, inQuotes)) == current + StripBreaks(s, inQuotes)
    decreases |s|
  {
    if |s| == 0 {
      assert current + StripBreaks(s, inQuotes) == current;
    } else if s[0] == Quote || !IsBreak(s[0]) || inQuotes {
      SplitKeepsEverythingButSeparators(s[1..], current + [s[0]], if s[0] == Quote then !inQuotes else inQuotes);
      SplitExtends(s, current, inQuotes);
    } else if s[0] == '\r' && |s| > 1 && s[1] == '\n' {
      SplitKeepsEverythingButSeparators(s[1..], current, inQuotes);
    } else {
      SplitKeepsEverythingButSeparators(s[1..], [], inQuotes);
      SplitCuts(s, current, inQuotes);
    }
  }

  lemma SplitLinesKeepsEverythingButSeparators(content: string)
    ensures Flatten(SplitLines(content)) == StripBreaks(content, false)
  {
    SplitKeepsEverythingButSeparators(content, [], false);
  }

  lemma {:induction false} AppendKeepsUnbroken(a: string, c: char, inQuotes: bool)
    requires UnbrokenFrom(a, inQuotes)
    requires c == Quote || !IsBreak(c) || QuotesOpenAfter(a, inQuotes)
    ensures UnbrokenFrom(a + [c], inQuotes)
    ensures QuotesOpenAfter(a + [c], inQuotes) == (QuotesOpenAfter(a, inQuotes) != (c == Quote))
    decreases |a|
  {
    if |a| > 0 {
      assert (a + [c])[1..] == a[1..] + [c];
      AppendKeepsUnbroken(a[1..], c, if a[0] == Quote then !inQuotes else inQuotes);
    }
  }

  /** Every record the splitter emits keeps its line breaks inside quotes. */
  lemma {:induction false} SplitRecordsAreUnbroken(s: string, current: string, inQuotes: bool)
    requires UnbrokenFrom(current, false) && QuotesOpenAfter(current, false) == inQuotes
    ensures forall r :: r in Split(s, current, inQuotes) ==> UnbrokenFrom(r, false)
    decreases |s|
  {
    if |s| == 0 {
    } else if s[0] == Quote {
      AppendKeepsUnbroken(current, s[0], false);
      SplitRecordsAreUnbroken(s[1..], current + [s[0]], !inQuotes);
    } else if s[0] == '\r' && !inQuotes {
      if |s| > 1 && s[1] == '\n' {
        SplitRecordsAreUnbroken(s[1..], current, inQuotes);
      } else {
        SplitRecordsAreUnbroken(s[1..], [], inQuotes);
      }
    } else if s[0] == '\n' && !inQuotes {
      SplitRecordsAreUnbroken(s[1..], [], inQuotes);
    } else {
      AppendKeepsUnbroken(current, s[0], false);
      SplitRecordsAreUnbroken(s[1..], current + [s[0]], inQuotes);
    }
  }

  lemma SplitLinesRecordsAreUnbroken(content: string)
    ensures forall r :: r in SplitLines(content) ==> UnbrokenFrom(r, false)
  {
    SplitRecordsAreUnbroken(content, [], false);
  }

  /** Reading a record whose out-of-quote text has no line break only extends
      the current record. */
  lemma {:induction false} SplitReadsThrough(line: string, rest: string, current: string, inQuotes: bool)
    requires UnbrokenFrom(line, inQuotes)
    ensures Split(line + rest, current, inQuotes)
         == Split(rest, current + line, QuotesOpenAfter(line, inQuotes))
    decreases |line|
  {
    if |line| > 0 {
      var s := line + rest;
      assert s[0] == line[0] && s[1..] == line[1..] + rest;
      assert current + line == (current + [line[0]]) + line[1..];
      var q' := if line[0] == Quote then !inQuotes else inQuotes;
      SplitReadsThrough(line[1..], rest, current + [line[0]], q');
    } else {
      assert line + rest == rest;
      assert current + line == current;
    }
  }

  lemma SplitAtLineEnding(eol: string, rest: string, current: string)
    requires IsLineEnding(eol)
    ensures Split(eol + rest, current, false) == [current] + Split(rest, [], false)
  {
    var s := eol + rest;
    if eol == "\r\n" {
      assert s[1..] == "\n" + rest;
      assert s[1..][1..] == rest;
    } else {
      assert s[1..] == rest;
    }
  }

  /** Outside quotes a `\r` that is not followed by `\n` ends the record on
      its own. */
  lemma SplitAtLoneCarriageReturn(rest: string, current: string)
    requires |rest| == 0 || rest[0] != '\n'
    ensures Split("\r" + rest, current, false) == [current] + Split(rest, [], false)
  {
    assert ("\r" + rest)[1..] == rest;
  }

  /** Round trip with the generator: splitting well-quoted records written one
      per line, each followed by `\n` or `\r\n`, gives the records back. */
  lemma {:induction false} SplitTerminated(lines: seq<string>, eol: string)
    requires IsLineEnding(eol)
    requires forall i :: 0 <= i < |lines| ==> WellQuoted(lines[i])
    ensures SplitLines(Terminated(lines, eol)) == lines
    decreases |lines|
  {
    if |lines| > 0 {
      var rest := Terminated(lines[1..], eol);
      assert Terminated(lines, eol) == lines[0] + (eol + rest);
      SplitReadsThrough(lines[0], eol + rest, [], false);
      assert [] + lines[0] == lines[0];
      SplitAtLineEnding(eol, rest, lines[0]);
      SplitTerminated(lines[1..], eol);
      assert lines == [lines[0]] + lines[1..];
    }
  }
}
