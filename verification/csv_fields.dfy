/** The field tokenizer (`CsvController.ParseLine`) and the field escaper
    (`CsvController.EscapeField`) of the CSV codec, with the round trip that
    connects them: tokenizing a line of escaped fields gives the fields back. */
module CsvFields {
  import opened Text

  /** The tokenizer's scan of `s`, given whether it is inside a qualified span
      and the field read so far. The qualifier is checked before the delimiter,
      so a qualifier equal to the delimiter never splits. */
  function Scan(s: string, delimiter: char, qualifier: char, inQuotes: bool, current: string): (r: seq<string>)
    ensures |r| >= 1
    decreases |s|
  {
    if |s| == 0 then
      [current]
    else if s[0] == qualifier then
      if inQuotes then
        if |s| > 1 && s[1] == qualifier then Scan(s[2..], delimiter, qualifier, true, current + [qualifier])
        else Scan(s[1..], delimiter, qualifier, false, current)
      else
        Scan(s[1..], delimiter, qualifier, true, current)
    else if s[0] == delimiter && !inQuotes then
      [current] + Scan(s[1..], delimiter, qualifier, false, [])
    else
      Scan(s[1..], delimiter, qualifier, inQuotes, current + [s[0]])
  }

  function TrimAll(fields: seq<string>): (r: seq<string>)
    ensures |r| == |fields|
    ensures forall i :: 0 <= i < |fields| ==> r[i] == Trim(fields[i])
  {
    if |fields| == 0 then [] else [Trim(fields[0])] + TrimAll(fields[1..])
  }

  /** The delimiters of `s` that lie outside a qualified span, where the
      span state simply flips at every qualifier, starting from `inQuotes`. */
  function Separators(s: string, delimiter: char, qualifier: char, inQuotes: bool): nat
    decreases |s|
  {
    if |s| == 0 then 0
    else if s[0] == qualifier then Separators(s[1..], delimiter, qualifier, !inQuotes)
    else (if s[0] == delimiter && !inQuotes then 1 else 0) + Separators(s[1..], delimiter, qualifier, inQuotes)
  }

  /** A doubled qualifier inside a span flips the state twice, so the scan
      makes one field more than there are separating delimiters. */
  lemma {:induction false} ScanCountsSeparators(s: string, delimiter: char, qualifier: char, inQuotes: bool, current: string)
    requires delimiter != qualifier
    ensures |Scan(s, delimiter, qualifier, inQuotes, current)| == Separators(s, delimiter, qualifier, inQuotes) + 1
    decreases |s|
  {
    if |s| == 0 {
    } else if s[0] == qualifier {
      if inQuotes && |s| > 1 && s[1] == qualifier {
        assert s[1..][1..] == s[2..];
        ScanCountsSeparators(s[2..], delimiter, qualifier, true, current + [qualifier]);
      } else {
        ScanCountsSeparators(s[1..], delimiter, qualifier, !inQuotes, current);
      }
    } else if s[0] == delimiter && !inQuotes {
      ScanCountsSeparators(s[1..], delimiter, qualifier, false, []);
    } else {
      ScanCountsSeparators(s[1..], delimiter, qualifier, inQuotes, current + [s[0]]);
    }
  }

  /** `ParseLine`: the fields of one record; with `trimValues` every field is
      trimmed. There is always at least one field, and one more than there
      are delimiters outside qualified spans; a record without the qualifier
      is cut at every delimiter. */
  function ParseLine(line: string, delimiter: char, qualifier: char, trimValues: bool): (r: seq<string>)
    ensures |r| >= 1
    ensures delimiter != qualifier ==> |r| == Separators(line, delimiter, qualifier, false) + 1
    ensures qualifier !in line ==>
              r == (if trimValues then TrimAll(SplitAt(line, delimiter)) else SplitAt(line, delimiter))
    ensures trimValues ==> forall i :: 0 <= i < |r| ==> Trim(r[i]) == r[i]
    ensures |r| == |Scan(line, delimiter, qualifier, false, [])|
    ensures trimValues ==> forall i :: 0 <= i < |r| ==> r[i] == Trim(Scan(line, delimiter, qualifier, false, [])[i])
  {
    var raw := Scan(line, delimiter, qualifier, false, []);
    assert delimiter != qualifier ==> |raw| == Separators(line, delimiter, qualifier, false) + 1 by {
      if delimiter != qualifier {
        ScanCountsSeparators(line, delimiter, qualifier, false, []);
      }
    }
    assert qualifier !in line ==> raw == SplitAt(line, delimiter) by {
      if qualifier !in line {
        ScanWithoutQualifier(line, delimiter, qualifier, []);
        var p := SplitAt(line, delimiter);
        assert [] + p[0] == p[0];
        assert [p[0]] + p[1..] == p;
      }
    }
    if trimValues then
      var r := TrimAll(raw);
      forall i | 0 <= i < |r|
        ensures Trim(r[i]) == r[i]
      {
        TrimIdempotent(raw[i]);
      }
      r
    else raw
  }

  function CountOf(s: string, c: char): nat {
    if |s| == 0 then 0 else (if s[0] == c then 1 else 0) + CountOf(s[1..], c)
  }

  /** Splitting at every occurrence of the delimiter (`string.Split`), the
      reference for a record that contains no qualifier. */
  function SplitAt(s: string, delimiter: char): (r: seq<string>)
    ensures |r| == CountOf(s, delimiter) + 1
    ensures forall i :: 0 <= i < |r| ==> delimiter !in r[i]
  {
    if |s| == 0 then [[]]
    else
      var rest := SplitAt(s[1..], delimiter);
      if s[0] == delimiter then [[]] + rest
      else [[s[0]] + rest[0]] + rest[1..]
  }

  /** The fields joined with the delimiter (`string.Join`). */
  function JoinWith(fields: seq<string>, delimiter: char): string {
    if |fields| == 0 then []
    else if |fields| == 1 then fields[0]
    else fields[0] + [delimiter] + JoinWith(fields[1..], delimiter)
  }

  lemma {:induction false} JoinSplitAt(s: string, delimiter: char)
    ensures JoinWith(SplitAt(s, delimiter), delimiter) == s
    decreases |s|
  {
    if |s| > 0 {
      var rest := SplitAt(s[1..], delimiter);
      JoinSplitAt(s[1..], delimiter);
      if s[0] == delimiter {
        assert ([[]] + rest)[1..] == rest;
      } else {
        var r := [[s[0]] + rest[0]] + rest[1..];
        assert r[1..] == rest[1..];
        if |rest| == 1 {
          assert rest == [rest[0]];
        } else {
          assert rest[1..][0] == rest[1];
        }
      }
    }
  }

  /** A record without qualifiers is cut at every delimiter, so k delimiters
      give k + 1 fields. */
  lemma {:induction false} ScanWithoutQualifier(s: string, delimiter: char, qualifier: char, current: string)
    requires qualifier !in s
    ensures Scan(s, delimiter, qualifier, false, current)
         == [current + SplitAt(s, delimiter)[0]] + SplitAt(s, delimiter)[1..]
    decreases |s|
  {
    if |s| == 0 {
      assert current + [] == current;
    } else {
      assert s[0] != qualifier;
      ScanWithoutQualifier(s[1..], delimiter, qualifier, if s[0] == delimiter then [] else current + [s[0]]);
      var rest := SplitAt(s[1..], delimiter);
      if s[0] == delimiter {
        assert [] + rest[0] == rest[0];
        assert [rest[0]] + rest[1..] == rest;
        assert SplitAt(s, delimiter)[1..] == rest;
        assert current + SplitAt(s, delimiter)[0] == current;
      } else {
        assert current + ([s[0]] + SplitAt(s[1..], delimiter)[0]) == (current + [s[0]]) + SplitAt(s[1..], delimiter)[0];
      }
    }
  }

  lemma UnqualifiedRecordSplitsAtEveryDelimiter(line: string, delimiter: char, qualifier: char)
    requires qualifier !in line
    ensures ParseLine(line, delimiter, qualifier, false) == SplitAt(line, delimiter)
    ensures |ParseLine(line, delimiter, qualifier, false)| == CountOf(line, delimiter) + 1
  {
    ScanWithoutQualifier(line, delimiter, qualifier, []);
    var r := SplitAt(line, delimiter);
    assert [] + r[0] == r[0];
    assert [r[0]] + r[1..] == r;
  }

  /** With a qualifier equal to the delimiter, nothing ever splits. */
  lemma {:induction false} ScanSameDelimiterOneField(s: string, c: char, inQuotes: bool, current: string)
    ensures |Scan(s, c, c, inQuotes, current)| == 1
    decreases |s|
  {
    if |s| > 0 {
      if s[0] == c {
        if inQuotes && |s| > 1 && s[1] == c {
          ScanSameDelimiterOneField(s[2..], c, true, current + [c]);
        } else {
          ScanSameDelimiterOneField(s[1..], c, !inQuotes, current);
        }
      } else {
        ScanSameDelimiterOneField(s[1..], c, inQuotes, current + [s[0]]);
      }
    }
  }

  lemma QualifierEqualToDelimiterNeverSplits(line: string, c: char, trimValues: bool)
    ensures |ParseLine(line, c, c, trimValues)| == 1
  {
    ScanSameDelimiterOneField(line, c, false, []);
  }

  /** Text read inside an open qualified span that contains no qualifier is
      copied verbatim, delimiters included. */
  lemma {:induction false} ScanInsideQuotes(s: string, delimiter: char, qualifier: char, current: string)
    requires qualifier !in s
    ensures Scan(s, delimiter, qualifier, true, current) == [current + s]
    decreases |s|
  {
    if |s| == 0 {
      assert current + s == current;
    } else {
      ScanInsideQuotes(s[1..], delimiter, qualifier, current + [s[0]]);
      assert (current + [s[0]]) + s[1..] == current + s;
    }
  }

  /** An unterminated qualified span runs to the end of the record without
      error. */
  lemma UnterminatedQuoteRunsToEnd(rest: string, delimiter: char, qualifier: char)
    requires qualifier !in rest
    ensures ParseLine([qualifier] + rest, delimiter, qualifier, false) == [rest]
  {
    assert ([qualifier] + rest)[1..] == rest;
    ScanInsideQuotes(rest, delimiter, qualifier, []);
    assert [] + rest == rest;
  }

  /** `value.Contains(...)` test of `EscapeField`. */
  predicate NeedsQuoting(value: string, delimiter: char, qualifier: char) {
    delimiter in value || qualifier in value || '\r' in value || '\n' in value
  }

  /** `value.Replace(q, qq)`: every qualifier doubled, every other character
      kept. Together with `DoubleQualifiersAppend` this fixes the result for
      every value. */
  function DoubleQualifiers(value: string, qualifier: char): (r: string)
    ensures |r| == |value| + CountOf(value, qualifier)
    ensures |value| == 1 ==> r == (if value[0] == qualifier then [qualifier, qualifier] else value)
    ensures qualifier !in value ==> r == value
  {
    if |value| == 0 then []
    else if value[0] == qualifier then [qualifier, qualifier] + DoubleQualifiers(value[1..], qualifier)
    else [value[0]] + DoubleQualifiers(value[1..], qualifier)
  }

  /** Doubling works piece by piece: it distributes over concatenation. */
  lemma {:induction false} DoubleQualifiersAppend(a: string, b: string, qualifier: char)
    ensures DoubleQualifiers(a + b, qualifier) == DoubleQualifiers(a, qualifier) + DoubleQualifiers(b, qualifier)
    decreases |a|
  {
    if |a| == 0 {
      assert a + b == b;
    } else {
      assert (a + b)[0] == a[0];
      assert (a + b)[1..] == a[1..] + b;
      DoubleQualifiersAppend(a[1..], b, qualifier);
    }
  }

  /** `EscapeField`: a value that holds the delimiter, the qualifier or a line
      break is wrapped in qualifiers with its own qualifiers doubled; any other
      value, the empty one included, is written as it is. The result starts
      with the qualifier exactly when the value needed quoting. */
  function EscapeField(value: string, delimiter: char, qualifier: char): (r: string)
    ensures !NeedsQuoting(value, delimiter, qualifier) ==> r == value
    ensures NeedsQuoting(value, delimiter, qualifier) ==>
              r == [qualifier] + DoubleQualifiers(value, qualifier) + [qualifier]
    ensures NeedsQuoting(value, delimiter, qualifier) ==>
              |r| == |value| + CountOf(value, qualifier) + 2 && r[0] == qualifier && r[|r| - 1] == qualifier
    ensures (|r| > 0 && r[0] == qualifier) <==> NeedsQuoting(value, delimiter, qualifier)
  {
    if |value| == 0 then value
    else if NeedsQuoting(value, delimiter, qualifier) then [qualifier] + DoubleQualifiers(value, qualifier) + [qualifier]
    else value
  }

  function EscapeAll(values: seq<string>, delimiter: char, qualifier: char): (r: seq<string>)
    ensures |r| == |values|
    ensures forall i :: 0 <= i < |values| ==> r[i] == EscapeField(values[i], delimiter, qualifier)
  {
    if |values| == 0 then [] else [EscapeField(values[0], delimiter, qualifier)] + EscapeAll(values[1..], delimiter, qualifier)
  }

  /** One record line of the generator: the escaped values joined with the
      delimiter. */
  function EscapedLine(values: seq<string>, delimiter: char, qualifier: char): string {
    JoinWith(EscapeAll(values, delimiter, qualifier), delimiter)
  }

  lemma {:induction false} ScanPlain(v: string, rest: string, delimiter: char, qualifier: char, current: string)
    requires qualifier !in v && delimiter !in v
    ensures Scan(v + rest, delimiter, qualifier, false, current) == Scan(rest, delimiter, qualifier, false, current + v)
    decreases |v|
  {
    if |v| == 0 {
      assert v + rest == rest;
      assert current + v == current;
    } else {
      assert (v + rest)[1..] == v[1..] + rest;
      ScanPlain(v[1..], rest, delimiter, qualifier, current + [v[0]]);
      assert (current + [v[0]]) + v[1..] == current + v;
    }
  }

  lemma {:induction false} ScanDoubled(v: string, rest: string, delimiter: char, qualifier: char, current: string)
    requires |rest| == 0 || rest[0] != qualifier
    ensures Scan(DoubleQualifiers(v, qualifier) + [qualifier] + rest, delimiter, qualifier, true, current)
         == Scan(rest, delimiter, qualifier, false, current + v)
    decreases |v|
  {
    var s := DoubleQualifiers(v, qualifier) + [qualifier] + rest;
    if |v| == 0 {
      assert s == [qualifier] + rest;
      assert s[1..] == rest;
      assert current + v == current;
    } else if v[0] == qualifier {
      assert s == [qualifier, qualifier] + (DoubleQualifiers(v[1..], qualifier) + [qualifier] + rest);
      assert s[2..] == DoubleQualifiers(v[1..], qualifier) + [qualifier] + rest;
      ScanDoubled(v[1..], rest, delimiter, qualifier, current + [qualifier]);
      assert (current + [qualifier]) + v[1..] == current + v;
    } else {
      assert s == [v[0]] + (DoubleQualifiers(v[1..], qualifier) + [qualifier] + rest);
      assert s[1..] == DoubleQualifiers(v[1..], qualifier) + [qualifier] + rest;
      ScanDoubled(v[1..], rest, delimiter, qualifier, current + [v[0]]);
      assert (current + [v[0]]) + v[1..] == current + v;
    }
  }

  /** An opening qualifier outside quotes only switches quoting on. */
  lemma ScanOpenQuote(t: string, delimiter: char, qualifier: char)
    ensures Scan([qualifier] + t, delimiter, qualifier, false, []) == Scan(t, delimiter, qualifier, true, [])
  {
    assert ([qualifier] + t)[1..] == t;
  }

  lemma ScanQuotedField(v: string, rest: string, delimiter: char, qualifier: char)
    requires delimiter != qualifier
    requires |rest| == 0 || rest[0] == delimiter
    ensures Scan([qualifier] + DoubleQualifiers(v, qualifier) + [qualifier] + rest, delimiter, qualifier, false, [])
         == Scan(rest, delimiter, qualifier, false, v)
  {
    var t := DoubleQualifiers(v, qualifier) + [qualifier] + rest;
    assert [qualifier] + DoubleQualifiers(v, qualifier) + [qualifier] + rest == [qualifier] + t;
    ScanOpenQuote(t, delimiter, qualifier);
    ScanDoubled(v, rest, delimiter, qualifier, []);
    assert [] + v == v;
  }

  lemma ScanPlainField(v: string, rest: string, delimiter: char, qualifier: char)
    requires qualifier !in v && delimiter !in v
    ensures Scan(v + rest, delimiter, qualifier, false, []) == Scan(rest, delimiter, qualifier, false, v)
  {
    ScanPlain(v, rest, delimiter, qualifier, []);
    assert [] + v == v;
  }

  /** Tokenizing an escaped field leaves exactly the original value as the
      field being read, whatever follows it. */
  lemma ScanEscaped(v: string, rest: string, delimiter: char, qualifier: char)
    requires delimiter != qualifier
    requires |rest| == 0 || rest[0] == delimiter
    ensures Scan(EscapeField(v, delimiter, qualifier) + rest, delimiter, qualifier, false, [])
         == Scan(rest, delimiter, qualifier, false, v)
  {
    if |v| == 0 {
      assert EscapeField(v, delimiter, qualifier) + rest == rest;
    } else if NeedsQuoting(v, delimiter, qualifier) {
      ScanQuotedField(v, rest, delimiter, qualifier);
    } else {
      ScanPlainField(v, rest, delimiter, qualifier);
    }
  }

  /** Round trip: for a delimiter different from the qualifier, tokenizing the
      generator's line of escaped values (without trimming) gives back exactly
      the values, embedded delimiters, qualifiers and line breaks included. */
  lemma {:induction false} ParseEscapedLine(values: seq<string>, delimiter: char, qualifier: char)
    requires delimiter != qualifier
    requires |values| >= 1
    ensures ParseLine(EscapedLine(values, delimiter, qualifier), delimiter, qualifier, false) == values
    decreases |values|
  {
    var escaped := EscapeAll(values, delimiter, qualifier);
    if |values| == 1 {
      assert EscapedLine(values, delimiter, qualifier) == escaped[0] + [];
      ScanEscaped(values[0], [], delimiter, qualifier);
      assert values == [values[0]];
    } else {
      assert escaped[1..] == EscapeAll(values[1..], delimiter, qualifier);
      var tail := EscapedLine(values[1..], delimiter, qualifier);
      assert EscapedLine(values, delimiter, qualifier) == escaped[0] + ([delimiter] + tail);
      ScanEscaped(values[0], [delimiter] + tail, delimiter, qualifier);
      assert ([delimiter] + tail)[1..] == tail;
      ParseEscapedLine(values[1..], delimiter, qualifier);
      assert values == [values[0]] + values[1..];
    }
  }
}
