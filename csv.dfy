/** The site's CSV reader: a quote-toggling line splitter and the conversion of a whole text
    into row records keyed by the header line. */
module Csv {
  import opened JsString
  import opened Rows
  import Seqs

  // ----- Splitting one line -----

  /** What the splitter has after some prefix of the line: the finished fields, the field
      being built, and whether it is inside quotes. */
  datatype ScanState = ScanState(fields: seq<string>, current: string, inQuotes: bool)

  /** One character of the scan: a quote toggles the flag and is dropped, an unquoted
      delimiter finishes the current field, anything else is appended to it. */
  function Step(st: ScanState, c: char, delimiter: char): ScanState {
    if c == '"' then st.(inQuotes := !st.inQuotes)
    else if c == delimiter && !st.inQuotes then ScanState(st.fields + [st.current], [], st.inQuotes)
    else st.(current := st.current + [c])
  }

  /** The state after scanning `line` from left to right. */
  function Scan(line: string, delimiter: char): ScanState {
    if |line| == 0 then ScanState([], [], false)
    else Step(Scan(line[..|line| - 1], delimiter), line[|line| - 1], delimiter)
  }

  /** One more character is one more step of the scan. */
  lemma ScanSnoc(p: string, c: char, delimiter: char)
    ensures Scan(p + [c], delimiter) == Step(Scan(p, delimiter), c, delimiter)
  {
    assert (p + [c])[..|p|] == p;
  }

  /** The fields of a line: the finished ones and the last buffer, which is always emitted. */
  function SplitFields(line: string, delimiter: char): seq<string> {
    var st := Scan(line, delimiter);
    st.fields + [st.current]
  }

  /** Position `k` is a field separator: the delimiter, preceded by an even number of quotes. */
  predicate IsSeparator(line: string, delimiter: char, k: nat)
    requires k < |line|
  {
    line[k] == delimiter && delimiter != '"' && multiset(line[..k])['"'] % 2 == 0
  }

  /** The number of field separators in the line. */
  function SeparatorCount(line: string, delimiter: char): nat {
    if |line| == 0 then 0
    else SeparatorCount(line[..|line| - 1], delimiter) + (if IsSeparator(line, delimiter, |line| - 1) then 1 else 0)
  }

  /** The line without its quotes and without its separators. */
  function Kept(line: string, delimiter: char): string {
    if |line| == 0 then []
    else
      var k := |line| - 1;
      Kept(line[..k], delimiter) + (if line[k] == '"' || IsSeparator(line, delimiter, k) then [] else [line[k]])
  }

  lemma JoinWithAppendChar(parts: seq<string>, p: string, c: char, sep: string)
    ensures JoinWith(parts + [p + [c]], sep) == JoinWith(parts + [p], sep) + [c]
  {
    if |parts| > 0 {
      JoinWithSnoc(parts, p + [c], sep);
      JoinWithSnoc(parts, p, sep);
    }
  }

  /** The quote flag after a prefix: set exactly when an odd number of quotes was seen. */
  lemma {:induction false} ScanQuoteParity(line: string, delimiter: char)
    ensures Scan(line, delimiter).inQuotes <==> multiset(line)['"'] % 2 == 1
  {
    if |line| > 0 {
      var k := |line| - 1;
      assert line == line[..k] + [line[k]];
      ScanQuoteParity(line[..k], delimiter);
    }
  }

  /** One finished field per separator. */
  lemma {:induction false} ScanFieldCount(line: string, delimiter: char)
    ensures |Scan(line, delimiter).fields| == SeparatorCount(line, delimiter)
  {
    if |line| > 0 {
      var k := |line| - 1;
      ScanFieldCount(line[..k], delimiter);
      ScanQuoteParity(line[..k], delimiter);
    }
  }

  /** Quotes never reach a field. */
  lemma {:induction false} ScanNoQuotes(line: string, delimiter: char)
    ensures forall i :: 0 <= i < |Scan(line, delimiter).fields| ==> '"' !in Scan(line, delimiter).fields[i]
    ensures '"' !in Scan(line, delimiter).current
  {
    if |line| > 0 {
      ScanNoQuotes(line[..|line| - 1], delimiter);
    }
  }

  /** The fields and the buffer together hold the kept characters, in order. */
  lemma {:induction false} ScanKept(line: string, delimiter: char)
    ensures var st := Scan(line, delimiter);
      JoinWith(st.fields + [st.current], []) == Kept(line, delimiter)
  {
    if |line| > 0 {
      var k := |line| - 1;
      var prefix, c := line[..k], line[k];
      ScanKept(prefix, delimiter);
      ScanQuoteParity(prefix, delimiter);
      var st := Scan(prefix, delimiter);
      if c == '"' {
      } else if c == delimiter && !st.inQuotes {
        JoinWithSnoc(st.fields + [st.current], [], []);
      } else {
        JoinWithAppendChar(st.fields, st.current, c, []);
      }
    }
  }

  /** Joined with the delimiter, the fields and the buffer give the prefix without its quotes. */
  lemma {:induction false} ScanJoin(line: string, delimiter: char)
    ensures var st := Scan(line, delimiter);
      JoinWith(st.fields + [st.current], [delimiter]) == RemoveChar(line, '"')
  {
    if |line| > 0 {
      var k := |line| - 1;
      var prefix, c := line[..k], line[k];
      ScanJoin(prefix, delimiter);
      var st := Scan(prefix, delimiter);
      if c == '"' {
      } else if c == delimiter && !st.inQuotes {
        JoinWithSnoc(st.fields + [st.current], [], [delimiter]);
      } else {
        JoinWithAppendChar(st.fields, st.current, c, [delimiter]);
      }
    }
  }

  /** On a line without quotes every delimiter separates, so no field holds one. */
  lemma {:induction false} ScanPlain(line: string, delimiter: char)
    requires '"' !in line
    ensures var st := Scan(line, delimiter);
      && !st.inQuotes && delimiter !in st.current
      && forall i :: 0 <= i < |st.fields| ==> delimiter !in st.fields[i]
  {
    if |line| > 0 {
      ScanPlain(line[..|line| - 1], delimiter);
    }
  }

  /** All of the above at once. */
  lemma ScanFacts(line: string, delimiter: char)
    ensures var st := Scan(line, delimiter);
      && |st.fields| == SeparatorCount(line, delimiter)
      && (forall i :: 0 <= i < |st.fields| ==> '"' !in st.fields[i])
      && '"' !in st.current
      && JoinWith(st.fields + [st.current], []) == Kept(line, delimiter)
      && JoinWith(st.fields + [st.current], [delimiter]) == RemoveChar(line, '"')
  {
    ScanFieldCount(line, delimiter);
    ScanNoQuotes(line, delimiter);
    ScanKept(line, delimiter);
    ScanJoin(line, delimiter);
  }

  /** parseDelimitedLine(line, delimiter): scans the line once, keeping a field buffer and
      the quote flag. */
  method ParseDelimitedLine(line: string, delimiter: char) returns (result: seq<string>)
    ensures result == SplitFields(line, delimiter)
    ensures |result| == 1 + SeparatorCount(line, delimiter)
    ensures forall i :: 0 <= i < |result| ==> '"' !in result[i]
    ensures JoinWith(result, []) == Kept(line, delimiter)
    ensures JoinWith(result, [delimiter]) == RemoveChar(line, '"')
  {
    result := [];
    var current: string := [];
    var inQuotes := false;
    for i := 0 to |line|
      invariant ScanState(result, current, inQuotes) == Scan(line[..i], delimiter)
    {
      assert line[..i + 1][..i] == line[..i];
      var c := line[i];
      if c == '"' {
        inQuotes := !inQuotes;
      } else if c == delimiter && !inQuotes {
        result := result + [current];
        current := [];
      } else {
        current := current + [c];
      }
    }
    assert line[..|line|] == line;
    result := result + [current];
    ScanFacts(line, delimiter);
  }

  /** parseCSVLine: the splitter with a comma. */
  method ParseCsvLine(line: string) returns (result: seq<string>)
    ensures result == SplitFields(line, ',')
    ensures |result| == 1 + SeparatorCount(line, ',')
  {
    result := ParseDelimitedLine(line, ',');
  }

  /** The number of fields is one more than the number of separators. */
  lemma SplitFieldsCount(line: string, delimiter: char)
    ensures |SplitFields(line, delimiter)| == 1 + SeparatorCount(line, delimiter)
  {
    ScanFacts(line, delimiter);
  }

  /** No field holds a quote, and the fields together are the line without its quotes and
      its separators. */
  lemma SplitFieldsContent(line: string, delimiter: char)
    ensures forall i :: 0 <= i < |SplitFields(line, delimiter)| ==> '"' !in SplitFields(line, delimiter)[i]
    ensures JoinWith(SplitFields(line, delimiter), []) == Kept(line, delimiter)
  {
    ScanFacts(line, delimiter);
  }

  /** Joining the fields with the delimiter gives the line without its quotes; on a line with
      no quote that is the line itself, and the fields are those String.prototype.split gives. */
  lemma SplitFieldsRoundTrip(line: string, delimiter: char)
    ensures JoinWith(SplitFields(line, delimiter), [delimiter]) == RemoveChar(line, '"')
    ensures '"' !in line ==> JoinWith(SplitFields(line, delimiter), [delimiter]) == line
    ensures '"' !in line ==> SplitFields(line, delimiter) == SplitOn(line, delimiter)
  {
    ScanJoin(line, delimiter);
    if '"' !in line {
      ScanPlain(line, delimiter);
      JoinThenSplit(SplitFields(line, delimiter), delimiter);
    }
  }

  // ----- Converting a text into records -----

  /** The lines of the text after every '\r' is removed and the whole text is trimmed. */
  function Lines(text: string): seq<string> {
    SplitOn(Trim(RemoveChar(text, '\r')), '\n')
  }

  /** `fields.map(h => h.trim())`. */
  function TrimAll(fields: seq<string>): (trimmed: seq<string>)
    ensures |trimmed| == |fields|
    ensures forall i :: 0 <= i < |fields| ==> trimmed[i] == Trim(fields[i])
  {
    seq(|fields|, i requires 0 <= i < |fields| => Trim(fields[i]))
  }

  /** The column names: the fields of the header line, each trimmed. */
  function Headers(headerLine: string): seq<string> {
    TrimAll(SplitFields(headerLine, ','))
  }

  /** `values[index] ? values[index].trim() : ''`. */
  function FieldValue(values: seq<string>, index: nat): string {
    if index < |values| && values[index] != "" then Trim(values[index]) else ""
  }

  /** The assignments `row[header] = value` made for one data line, in header order. */
  function RowPairs(headers: seq<string>, values: seq<string>): (pairs: seq<(string, string)>)
    ensures |pairs| == |headers|
    ensures forall i :: 0 <= i < |headers| ==> pairs[i] == (headers[i], FieldValue(values, i))
  {
    seq(|headers|, i requires 0 <= i < |headers| => (headers[i], FieldValue(values, i)))
  }

  /** The record of one data line, split into `values`. */
  function MakeRow(headers: seq<string>, values: seq<string>): Row {
    Assign(RowPairs(headers, values))
  }

  /** The record of a non-blank data line: the trimmed line split on commas. */
  function LineRecord(headers: seq<string>, line: string): Row {
    MakeRow(headers, SplitFields(Trim(line), ','))
  }

  /** The records of the data lines, blank lines skipped. */
  function DataRows(headers: seq<string>, lines: seq<string>): seq<Row> {
    if |lines| == 0 then []
    else
      var last := lines[|lines| - 1];
      DataRows(headers, lines[..|lines| - 1]) + (if AllWhite(last) then [] else [LineRecord(headers, last)])
  }

  /** The non-blank lines, in order. */
  function NonBlankLines(lines: seq<string>): seq<string> {
    if |lines| == 0 then []
    else
      var last := lines[|lines| - 1];
      NonBlankLines(lines[..|lines| - 1]) + (if AllWhite(last) then [] else [last])
  }

  /** parseCSV(csvText) as a function of the text. */
  function Records(text: string): seq<Row> {
    var lines := Lines(text);
    if |lines| < 2 then [] else DataRows(Headers(lines[0]), lines[1..])
  }

  /** The `headers.forEach` that fills a fresh record from the values of one line. */
  method FillRow(headers: seq<string>, values: seq<string>) returns (row: Row)
    ensures row == MakeRow(headers, values)
  {
    row := map[];
    for index := 0 to |headers|
      invariant row == Assign(RowPairs(headers, values)[..index])
    {
      assert RowPairs(headers, values)[..index + 1][..index] == RowPairs(headers, values)[..index];
      row := row[headers[index] := if index < |values| && values[index] != "" then Trim(values[index]) else ""];
    }
    assert RowPairs(headers, values)[..|headers|] == RowPairs(headers, values);
  }

  lemma DataRowsSnoc(headers: seq<string>, lines: seq<string>, i: nat)
    requires 1 <= i < |lines|
    ensures DataRows(headers, lines[1..i + 1]) ==
      DataRows(headers, lines[1..i]) + (if AllWhite(lines[i]) then [] else [LineRecord(headers, lines[i])])
  {
    var seg := lines[1..i + 1];
    assert seg[..|seg| - 1] == lines[1..i];
    assert seg[|seg| - 1] == lines[i];
  }

  /** parseCSV: one pass over the data lines, each non-blank one split and filled into a fresh
      record header by header. */
  method ParseCsv(csvText: string) returns (data: seq<Row>)
    ensures data == Records(csvText)
    ensures |Lines(csvText)| < 2 ==> data == []
  {
    var lines := Lines(csvText);
    if |lines| < 2 {
      return [];
    }
    var headerFields := ParseCsvLine(lines[0]);
    var headers := TrimAll(headerFields);
    data := [];
    for i := 1 to |lines|
      invariant data == DataRows(headers, lines[1..i])
    {
      DataRowsSnoc(headers, lines, i);
      TrimEmptyIff(lines[i]);
      var line := Trim(lines[i]);
      if line != [] {
        var values := ParseCsvLine(line);
        var row := FillRow(headers, values);
        data := data + [row];
      }
    }
    assert lines[1..|lines|] == lines[1..];
  }

  // ----- What parseCSV promises -----

  /** The records are those of the non-blank data lines, one each, in input order. */
  lemma {:induction false} DataRowsOfNonBlank(headers: seq<string>, lines: seq<string>)
    ensures var kept := NonBlankLines(lines);
      && |DataRows(headers, lines)| == |kept|
      && forall j :: 0 <= j < |kept| ==> DataRows(headers, lines)[j] == LineRecord(headers, kept[j])
  {
    if |lines| > 0 {
      var front, last := lines[..|lines| - 1], lines[|lines| - 1];
      DataRowsOfNonBlank(headers, front);
      var rows, kept := DataRows(headers, lines), NonBlankLines(lines);
      var rows0, kept0 := DataRows(headers, front), NonBlankLines(front);
      assert RecordsOf(headers, rows0, kept0);
      if AllWhite(last) {
        assert rows == rows0 && kept == kept0;
      } else {
        assert rows == rows0 + [LineRecord(headers, last)] && kept == kept0 + [last];
        RecordsOfSnoc(headers, rows0, kept0, last);
      }
      assert RecordsOf(headers, rows, kept);
    }
  }

  /** `rows` are the records of `kept`, one each, in order. */
  predicate RecordsOf(headers: seq<string>, rows: seq<Row>, kept: seq<string>) {
    |rows| == |kept| && forall j :: 0 <= j < |kept| ==> rows[j] == LineRecord(headers, kept[j])
  }

  lemma RecordsOfSnoc(headers: seq<string>, rows: seq<Row>, kept: seq<string>, line: string)
    requires RecordsOf(headers, rows, kept)
    ensures RecordsOf(headers, rows + [LineRecord(headers, line)], kept + [line])
  {
    var rows', kept' := rows + [LineRecord(headers, line)], kept + [line];
    forall j | 0 <= j < |kept'|
      ensures rows'[j] == LineRecord(headers, kept'[j])
    {
      if j < |kept| {
        assert rows'[j] == rows[j] && kept'[j] == kept[j];
      }
    }
  }

  /** The kept lines are exactly the non-blank lines of the input: each kept line is a
      non-blank input line, each non-blank input line is kept, and a non-blank line is kept as
      many times as it occurs, a blank one never. */
  lemma NonBlankLinesSpec(lines: seq<string>)
    ensures |NonBlankLines(lines)| <= |lines|
    ensures forall j :: 0 <= j < |NonBlankLines(lines)| ==> !AllWhite(NonBlankLines(lines)[j]) && NonBlankLines(lines)[j] in lines
    ensures forall i :: 0 <= i < |lines| && !AllWhite(lines[i]) ==> lines[i] in NonBlankLines(lines)
    ensures forall x :: multiset(NonBlankLines(lines))[x] == if AllWhite(x) then 0 else multiset(lines)[x]
  {
    NonBlankLinesSound(lines);
    NonBlankLinesComplete(lines);
    var kept := NonBlankLines(lines);
    forall x
      ensures multiset(kept)[x] == if AllWhite(x) then 0 else multiset(lines)[x]
    {
      if AllWhite(x) {
        assert forall j :: 0 <= j < |kept| ==> kept[j] != x;
        assert x !in multiset(kept);
      } else {
        NonBlankLinesCount(lines, x);
      }
    }
  }

  /** A non-blank line is kept exactly as often as it occurs. */
  lemma {:induction false} NonBlankLinesCount(lines: seq<string>, x: string)
    requires !AllWhite(x)
    ensures multiset(NonBlankLines(lines))[x] == multiset(lines)[x]
  {
    if |lines| > 0 {
      var front, last := lines[..|lines| - 1], lines[|lines| - 1];
      NonBlankLinesCount(front, x);
      assert lines == front + [last];
      assert multiset(lines) == multiset(front) + multiset{last};
      if AllWhite(last) {
        assert NonBlankLines(lines) == NonBlankLines(front);
      } else {
        assert NonBlankLines(lines) == NonBlankLines(front) + [last];
      }
    }
  }

  lemma {:induction false} NonBlankLinesSound(lines: seq<string>)
    ensures |NonBlankLines(lines)| <= |lines|
    ensures forall j :: 0 <= j < |NonBlankLines(lines)| ==> !AllWhite(NonBlankLines(lines)[j]) && NonBlankLines(lines)[j] in lines
  {
    if |lines| > 0 {
      var front, last := lines[..|lines| - 1], lines[|lines| - 1];
      NonBlankLinesSound(front);
      var kept, kept0 := NonBlankLines(lines), NonBlankLines(front);
      forall j | 0 <= j < |kept|
        ensures !AllWhite(kept[j]) && kept[j] in lines
      {
        if j < |kept0| {
          assert kept[j] == kept0[j] && kept0[j] in front;
        }
      }
    }
  }

  lemma NonBlankLinesComplete(lines: seq<string>)
    ensures forall i :: 0 <= i < |lines| && !AllWhite(lines[i]) ==> lines[i] in NonBlankLines(lines)
  {
    forall i | 0 <= i < |lines| && !AllWhite(lines[i])
      ensures lines[i] in NonBlankLines(lines)
    {
      NonBlankLineKept(lines, i);
    }
  }

  lemma {:induction false} NonBlankLineKept(lines: seq<string>, i: nat)
    requires i < |lines| && !AllWhite(lines[i])
    ensures lines[i] in NonBlankLines(lines)
  {
    var front, last := lines[..|lines| - 1], lines[|lines| - 1];
    var kept0 := NonBlankLines(front);
    if i == |front| {
      assert NonBlankLines(lines) == kept0 + [last];
    } else {
      assert lines[i] == front[i];
      NonBlankLineKept(front, i);
      if AllWhite(last) {
        assert NonBlankLines(lines) == kept0;
      } else {
        assert NonBlankLines(lines) == kept0 + [last];
      }
    }
  }

  /** The kept lines keep their input order: only blank lines are left out, and the rest follow
      one another as in the input. */
  lemma {:induction false} NonBlankLinesInOrder(lines: seq<string>)
    ensures Seqs.IsSubsequence(NonBlankLines(lines), lines)
  {
    if |lines| > 0 {
      var front, last := lines[..|lines| - 1], lines[|lines| - 1];
      NonBlankLinesInOrder(front);
      var kept, kept0 := NonBlankLines(lines), NonBlankLines(front);
      if AllWhite(last) {
        assert kept == kept0;
        if |kept0| > 0 {
          NonBlankLinesSound(front);
          assert !AllWhite(kept0[|kept0| - 1]);
        }
      } else {
        assert kept == kept0 + [last];
        assert kept[..|kept| - 1] == kept0;
      }
    }
  }

  /** Fewer than two lines (no '\n' left once '\r' is removed and the text is trimmed): no
      records, whatever the text; the empty text and a lone header line are such texts. */
  lemma TooFewLines(text: string)
    ensures |Lines(text)| < 2 <==> '\n' !in Trim(RemoveChar(text, '\r'))
    ensures |Lines(text)| < 2 ==> Records(text) == []
    ensures '\n' !in text ==> Records(text) == []
  {
    var s := RemoveChar(text, '\r');
    var t := Trim(s);
    SplitOnCount(t, '\n');
    if '\n' !in text {
      RemoveCharKeeps(text, '\r', '\n');
      TrimKeeps(s, '\n');
    }
  }

  /** One record per non-blank line after the header, in input order; blank lines give none. */
  lemma RecordsPerLine(text: string)
    requires |Lines(text)| >= 2
    ensures var lines := Lines(text);
      var kept := NonBlankLines(lines[1..]);
      && |Records(text)| == |kept|
      && forall j :: 0 <= j < |kept| ==> Records(text)[j] == LineRecord(Headers(lines[0]), kept[j])
  {
    var lines := Lines(text);
    DataRowsOfNonBlank(Headers(lines[0]), lines[1..]);
  }

  /** Every record of a line has exactly the header names as keys; the key of position i holds
      the trimmed i-th field, or '' when the line has fewer fields, unless a later header has the
      same name (the last position wins). */
  lemma MakeRowShape(headers: seq<string>, values: seq<string>)
    ensures forall k :: k in MakeRow(headers, values) <==> k in headers
    ensures forall i :: 0 <= i < |headers| && (forall j :: i < j < |headers| ==> headers[j] != headers[i]) ==>
      MakeRow(headers, values)[headers[i]] == (if i < |values| then Trim(values[i]) else "")
  {
    var pairs := RowPairs(headers, values);
    AssignKeys(pairs);
    forall k
      ensures k in MakeRow(headers, values) <==> k in headers
    {
      if k in headers {
        var i :| 0 <= i < |headers| && headers[i] == k;
        assert pairs[i].0 == k;
      }
    }
    forall i | 0 <= i < |headers| && (forall j :: i < j < |headers| ==> headers[j] != headers[i])
      ensures MakeRow(headers, values)[headers[i]] == (if i < |values| then Trim(values[i]) else "")
    {
      AssignLastWins(pairs, i);
    }
  }
}
