/** The memory-report parser: `BenchmarkTool.process_massif_output` turns the text
    that ms_print renders from a Massif profile into a table of snapshots with a
    trailing row of column totals. */
module Massif {
  import opened Wrappers
  import opened Text
  import opened Seqs

  // ---------------------------------------------------------------------------
  // Selecting the table lines

  /** `re.match(r"^\s*\d+\s+\d", line)`: optional white space, a number, white
      space, and a digit. Every quantifier is greedy over a class disjoint from
      what follows it, so the greedy runs decide the match. */
  predicate IsTableLine(line: string) {
    var p := RunEnd(line, 0, Space);
    var q := RunEnd(line, p, Digit);
    p < q &&
    var r := RunEnd(line, q, Space);
    q < r < |line| && IsDigit(line[r])
  }

  /** The shape a table line has, with its parts at positions `p`, `q` and `r`
      given explicitly: spaces before `p`, digits from `p` to `q`, spaces from `q`
      to `r`, and a digit at `r`. */
  predicate ShapeAt(line: string, p: nat, q: nat, r: nat) {
    && p < q < r < |line|
    && AllIn(line[..p], Space) && AllIn(line[p..q], Digit) && AllIn(line[q..r], Space)
    && IsDigit(line[r])
  }

  /** The shape test accepts a line exactly when the line has that shape. */
  lemma TableLineShape(line: string)
    ensures IsTableLine(line) <==> exists p: nat, q: nat, r: nat :: ShapeAt(line, p, q, r)
  {
    if IsTableLine(line) {
      var p := RunEnd(line, 0, Space);
      var q := RunEnd(line, p, Digit);
      var r := RunEnd(line, q, Space);
      assert line[..p] == line[0..p];
      assert ShapeAt(line, p, q, r);
    }
    if exists p: nat, q: nat, r: nat :: ShapeAt(line, p, q, r) {
      var p: nat, q: nat, r: nat :| ShapeAt(line, p, q, r);
      assert line[..p] == line[0..p];
      assert !InClass(line[p], Space);
      RunEndUnique(line, 0, p, Space);
      assert line[q] == line[q..r][0];
      assert !InClass(line[q], Digit);
      RunEndUnique(line, p, q, Digit);
      assert !InClass(line[r], Space);
      RunEndUnique(line, q, r, Space);
    }
  }

  /** The first field of a table line is its leading number, so `int(parts[0])`
      cannot fail. */
  lemma FirstFieldOfTableLine(line: string)
    requires IsTableLine(line)
    ensures IsNumeral(Fields(line)[0])
  {
    var p := RunEnd(line, 0, Space);
    var q := RunEnd(line, p, Digit);
    var r := RunEnd(line, q, Space);
    assert TrimStart(line) == line[p..];
    StripKeeps(line, p, r);
    assert IsSpace(line[q]) by { assert line[q] == line[q..r][0]; }
    FirstFieldAt(Strip(line), line, p, q);
  }

  /** When `t` is the text of `line` from `p` on, and a number runs from `p` to a
      white space at `q`, the first field of `t` is that number. */
  lemma FirstFieldAt(t: string, line: string, p: nat, q: nat)
    requires p < q < |line| && q - p < |t| && p + |t| <= |line|
    requires forall m :: 0 <= m < |t| ==> t[m] == line[p + m]
    requires AllIn(line[p..q], Digit) && IsSpace(line[q])
    ensures SplitWs(t)[0] == line[p..q] && IsNumeral(SplitWs(t)[0])
  {
    forall m | 0 <= m < q - p ensures !IsSpace(t[m]) {
      assert t[m] == line[p..q][m];
    }
    SplitWsFirst(t, q - p);
    assert t[..q - p] == line[p..q];
  }

  /** Stripping a line whose leading white space ends at `p` keeps its text from
      `p` on up to any later character that is not white space. */
  lemma StripKeeps(line: string, p: nat, r: nat)
    requires p <= r < |line| && TrimStart(line) == line[p..] && !IsSpace(line[r])
    ensures p + |Strip(line)| <= |line| && r - p < |Strip(line)|
    ensures forall m :: 0 <= m < |Strip(line)| ==> Strip(line)[m] == line[p + m]
  {
    var u := TrimStart(line);
    assert u[r - p] == line[r];
    TrimEndKeeps(u, r - p);
    PrefixOfSuffix(line, p, TrimEnd(u));
  }

  /** A prefix of the text from `p` on matches the text at `p` character by character. */
  lemma PrefixOfSuffix(line: string, p: nat, t: string)
    requires p <= |line| && |t| <= |line| - p && t == line[p..][..|t|]
    ensures p + |t| <= |line| && forall m :: 0 <= m < |t| ==> t[m] == line[p + m]
  {
  }

  /** A line that yields a sample: it passes the shape test and has at least six fields. */
  predicate Accepts(line: string) {
    IsTableLine(line) && |Fields(line)| >= 6
  }

  /** The lines of `output`, in order, that give one sample each. */
  function SampleLines(output: string): seq<string> {
    Filter(Split(output, '\n'), Accepts)
  }

  // ---------------------------------------------------------------------------
  // Records and rows

  /** One entry of `parsed_tables`: the snapshot number already converted by
      `int()`, the other five columns still text. */
  datatype RawRecord = RawRecord(n: nat, time: string, total: string,
                                 usefulHeap: string, extraHeap: string, stacks: string)

  /** The record the loop builds from one accepted line: fields 0 to 5, the rest ignored. */
  function RecordOf(line: string): RawRecord
    requires Accepts(line)
  {
    var parts := Fields(line);
    FirstFieldOfTableLine(line);
    RawRecord(Value(parts[0]), parts[1], parts[2], parts[3], parts[4], parts[5])
  }

  /** `.str.replace(',', '').astype(int)` on one cell: the value of the digits once
      the commas are dropped, or nothing if anything but digits remains. */
  function ToInt(cell: string): Option<nat> {
    var digits := RemoveCommas(cell);
    if IsNumeral(digits) then Some(Value(digits)) else None
  }

  /** A cell converts exactly when it holds nothing but digits and commas, and at
      least one digit. */
  lemma ToIntAccepts(cell: string)
    ensures ToInt(cell).Some? <==>
              (forall c :: c in cell ==> c == ',' || IsDigit(c)) && exists c :: c in cell && IsDigit(c)
  {
    var t := RemoveCommas(cell);
    if IsNumeral(t) {
      assert t[0] in t;
      forall c | c in cell ensures c == ',' || IsDigit(c) {
        if c != ',' {
          var m :| 0 <= m < |t| && t[m] == c;
          assert InClass(t[m], Digit);
        }
      }
    }
    if (forall c :: c in cell ==> c == ',' || IsDigit(c)) && exists c :: c in cell && IsDigit(c) {
      var d :| d in cell && IsDigit(d);
      assert d in t;
      forall m | 0 <= m < |t| ensures InClass(t[m], Digit) {
        assert t[m] in t;
      }
    }
  }

  /** A comma-grouped numeral converts to its value: `"12,345"` becomes 12345. */
  lemma ToIntGrouped(n: nat)
    ensures ToInt(Grouped(n)) == Some(n)
  {
    GroupedValue(n);
  }

  lemma ToIntExample()
    ensures ToInt("12,345") == Some(12345)
  {
    GroupedExample();
    ToIntGrouped(12345);
  }

  /** The `n` column: a snapshot number, or the marker `'Total'` of the totals row. */
  datatype Label = Index(value: nat) | Marker(name: string)

  /** One row of the final DataFrame. */
  datatype Row = Row(n: Label, time: nat, total: nat, usefulHeap: nat, extraHeap: nat, stacks: nat)

  /** The five columns `columns_to_sum`. */
  datatype Column = Time | Total | UsefulHeap | ExtraHeap | Stacks

  function Get(row: Row, c: Column): nat {
    match c
    case Time => row.time
    case Total => row.total
    case UsefulHeap => row.usefulHeap
    case ExtraHeap => row.extraHeap
    case Stacks => row.stacks
  }

  /** A record with all five numeric columns converted, or nothing if one of them is not a number. */
  function Convert(rec: RawRecord): Option<Row> {
    var t, b, u, e, s := ToInt(rec.time), ToInt(rec.total), ToInt(rec.usefulHeap),
                         ToInt(rec.extraHeap), ToInt(rec.stacks);
    if t.Some? && b.Some? && u.Some? && e.Some? && s.Some?
    then Some(Row(Index(rec.n), t.value, b.value, u.value, e.value, s.value))
    else None
  }

  /** All records converted, in order: the five column conversions of lines 108-112. */
  function ConvertAll(recs: seq<RawRecord>): (rows: Option<seq<Row>>)
    ensures rows.Some? ==> |rows.value| == |recs|
    decreases |recs|
  {
    if recs == [] then Some([])
    else
      var rows, row := ConvertAll(recs[..|recs| - 1]), Convert(recs[|recs| - 1]);
      if rows.Some? && row.Some? then Some(rows.value + [row.value]) else None
  }

  /** `df[col].sum()`. */
  function ColumnSum(rows: seq<Row>, c: Column): nat
    decreases |rows|
  {
    if rows == [] then 0 else ColumnSum(rows[..|rows| - 1], c) + Get(rows[|rows| - 1], c)
  }

  /** The synthetic row of lines 115-116: every summed column holds its total and `n` holds `'Total'`. */
  function TotalRow(rows: seq<Row>): Row {
    Row(Marker("Total"), ColumnSum(rows, Time), ColumnSum(rows, Total), ColumnSum(rows, UsefulHeap),
        ColumnSum(rows, ExtraHeap), ColumnSum(rows, Stacks))
  }

  /** The two ways the conversion raises: an empty table has no `time(i)` column
      (a KeyError), and a cell that is not a number cannot be cast (a ValueError). */
  datatype ParseError = NoSamples | NotAnInteger

  /** The records the loop of lines 92-104 collects from the accepted lines. */
  function Records(samples: seq<string>): (recs: seq<RawRecord>)
    requires forall i :: 0 <= i < |samples| ==> Accepts(samples[i])
    ensures |recs| == |samples|
  {
    seq(|samples|, i requires 0 <= i < |samples| => RecordOf(samples[i]))
  }

  /** Lines 107-117 on the collected records: no records means no columns to
      convert; otherwise every record converted, then the totals row. */
  function Report(recs: seq<RawRecord>): (r: Result<seq<Row>, ParseError>)
    ensures r.Success? ==> |r.value| == |recs| + 1
  {
    if recs == [] then Failure(NoSamples)
    else
      match ConvertAll(recs)
      case Some(rows) => Success(rows + [TotalRow(rows)])
      case None => Failure(NotAnInteger)
  }

  /** What `process_massif_output` returns: the sample rows in line order followed by
      the totals row, or the error the conversion raises. */
  function MassifReport(output: string): (r: Result<seq<Row>, ParseError>)
    ensures r.Success? ==> |r.value| == |SampleLines(output)| + 1
  {
    Report(Records(SampleLines(output)))
  }

  // ---------------------------------------------------------------------------
  // The imperative parser

  /** `process_massif_output`, step by step: split into lines, keep the table lines,
      collect a record from each line with six fields or more, convert the numeric
      columns, append the totals row. */
  method ProcessMassifOutput(output: string) returns (r: Result<seq<Row>, ParseError>)
    ensures r == MassifReport(output)
  {
    var lines := Split(output, '\n');
    var tableLines := Filter(lines, IsTableLine);
    var parsedTables := CollectRecords(tableLines);
    FilterNarrow(lines, IsTableLine, Accepts);
    if |parsedTables| == 0 {
      return Failure(NoSamples);
    }
    var rows := ConvertColumns(parsedTables);
    if rows.None? {
      return Failure(NotAnInteger);
    }
    return Success(rows.value + [TotalRow(rows.value)]);
  }

  /** The conversions of lines 108-112, record by record: every numeric cell of
      every record, or nothing as soon as one cell is not a number. */
  method ConvertColumns(parsedTables: seq<RawRecord>) returns (rows: Option<seq<Row>>)
    ensures rows == ConvertAll(parsedTables)
  {
    var converted: seq<Row> := [];
    for j := 0 to |parsedTables|
      invariant ConvertAll(parsedTables[..j]) == Some(converted)
    {
      assert parsedTables[..j + 1][..j] == parsedTables[..j];
      var row := Convert(parsedTables[j]);
      if row.None? {
        ConvertAllFails(parsedTables, j + 1);
        return None;
      }
      converted := converted + [row.value];
    }
    assert parsedTables[..|parsedTables|] == parsedTables;
    return Some(converted);
  }

  /** The loop of lines 92-104: a record from every table line with six fields or more. */
  method CollectRecords(tableLines: seq<string>) returns (parsedTables: seq<RawRecord>)
    requires forall k :: 0 <= k < |tableLines| ==> IsTableLine(tableLines[k])
    ensures parsedTables == Records(Filter(tableLines, Accepts))
  {
    parsedTables := [];
    for i := 0 to |tableLines|
      invariant parsedTables == Records(Filter(tableLines[..i], Accepts))
    {
      var line := tableLines[i];
      var parts := Fields(line);
      RecordsStep(tableLines, i);
      if |parts| >= 6 {
        parsedTables := parsedTables + [RecordOf(line)];
      }
    }
    assert tableLines[..|tableLines|] == tableLines;
  }

  /** One more table line through the loop adds its record exactly when it has six fields. */
  lemma RecordsStep(tableLines: seq<string>, i: nat)
    requires i < |tableLines|
    requires forall k :: 0 <= k < |tableLines| ==> IsTableLine(tableLines[k])
    ensures Records(Filter(tableLines[..i + 1], Accepts))
         == Records(Filter(tableLines[..i], Accepts))
            + if |Fields(tableLines[i])| >= 6 then [RecordOf(tableLines[i])] else []
  {
    Extend(tableLines, i);
    if |Fields(tableLines[i])| >= 6 {
      RecordsSnoc(Filter(tableLines[..i], Accepts), tableLines[i]);
    }
  }

  lemma RecordsSnoc(samples: seq<string>, line: string)
    requires forall i :: 0 <= i < |samples| ==> Accepts(samples[i])
    requires Accepts(line)
    ensures Records(samples + [line]) == Records(samples) + [RecordOf(line)]
  {
  }

  /** One more table line through the loop: it is accepted exactly when it has six fields. */
  lemma Extend(tableLines: seq<string>, i: nat)
    requires i < |tableLines|
    requires forall k :: 0 <= k < |tableLines| ==> IsTableLine(tableLines[k])
    ensures Filter(tableLines[..i + 1], Accepts)
         == Filter(tableLines[..i], Accepts)
            + if |Fields(tableLines[i])| >= 6 then [tableLines[i]] else []
  {
    assert tableLines[..i + 1] == tableLines[..i] + [tableLines[i]];
    FilterConcat(tableLines[..i], [tableLines[i]], Accepts);
    FilterSingle(tableLines[i], Accepts);
  }

  /** Once one record fails to convert, the whole conversion fails. */
  lemma {:induction false} ConvertAllFails(recs: seq<RawRecord>, k: nat)
    requires k <= |recs| && ConvertAll(recs[..k]).None?
    ensures ConvertAll(recs).None?
    decreases |recs| - k
  {
    if k < |recs| {
      assert recs[..k + 1][..k] == recs[..k];
      ConvertAllFails(recs, k + 1);
    } else {
      assert recs[..k] == recs;
    }
  }

  // ---------------------------------------------------------------------------
  // Properties of the report

  /** Converting a list of records succeeds exactly when every record converts,
      and then converts each record in place. */
  lemma ConvertAllPointwise(recs: seq<RawRecord>)
    ensures ConvertAll(recs).Some? <==> forall i :: 0 <= i < |recs| ==> Convert(recs[i]).Some?
    ensures ConvertAll(recs).Some? ==>
              && |ConvertAll(recs).value| == |recs|
              && forall i :: 0 <= i < |recs| ==> Convert(recs[i]) == Some(ConvertAll(recs).value[i])
  {
    ConvertAllSucceeds(recs);
    if ConvertAll(recs).Some? {
      ConvertAllRows(recs);
    }
  }

  /** The conversion succeeds exactly when every record converts. */
  lemma {:induction false} ConvertAllSucceeds(recs: seq<RawRecord>)
    ensures ConvertAll(recs).Some? <==> forall i :: 0 <= i < |recs| ==> Convert(recs[i]).Some?
    decreases |recs|
  {
    if recs != [] {
      var init := recs[..|recs| - 1];
      ConvertAllSucceeds(init);
      assert forall i :: 0 <= i < |init| ==> init[i] == recs[i];
    }
  }

  /** A successful conversion converts each record in place. */
  lemma {:induction false} ConvertAllRows(recs: seq<RawRecord>)
    requires ConvertAll(recs).Some?
    ensures |ConvertAll(recs).value| == |recs|
    ensures forall i :: 0 <= i < |recs| ==> Convert(recs[i]) == Some(ConvertAll(recs).value[i])
    decreases |recs|
  {
    if recs != [] {
      var init := recs[..|recs| - 1];
      ConvertAllRows(init);
      var rows := ConvertAll(recs).value;
      assert rows == ConvertAll(init).value + [Convert(recs[|recs| - 1]).value];
      forall i | 0 <= i < |recs| ensures Convert(recs[i]) == Some(rows[i]) {
        if i < |init| {
          assert init[i] == recs[i];
        }
      }
    }
  }

  /** The row read from a line: the snapshot number from field 0 and the
      comma-stripped integers of fields 1 to 5, in the column order of the table. */
  predicate ReadFrom(row: Row, fields: seq<string>) {
    && |fields| >= 6
    && IsNumeral(fields[0]) && row.n == Index(Value(fields[0]))
    && ToInt(fields[1]) == Some(row.time)
    && ToInt(fields[2]) == Some(row.total)
    && ToInt(fields[3]) == Some(row.usefulHeap)
    && ToInt(fields[4]) == Some(row.extraHeap)
    && ToInt(fields[5]) == Some(row.stacks)
  }

  /** The record of an accepted line converts to a row exactly when that row is
      read from the line's fields. */
  lemma ConvertLine(line: string, row: Row)
    requires Accepts(line)
    ensures Convert(RecordOf(line)) == Some(row) <==> ReadFrom(row, Fields(line))
  {
    FirstFieldOfTableLine(line);
  }

  /** One of the five numeric fields of a line, `time(i)` to `stacks(B)`, is not a
      comma-grouped number. */
  predicate HasBadCell(line: string) {
    exists k :: 1 <= k <= 5 && k < |Fields(line)| && ToInt(Fields(line)[k]).None?
  }

  /** The record of an accepted line fails to convert exactly when one of the
      five numeric fields is not a comma-grouped number. */
  lemma ConvertLineFails(line: string)
    requires Accepts(line)
    ensures Convert(RecordOf(line)).None? <==> HasBadCell(line)
  {
    var f := Fields(line);
    if Convert(RecordOf(line)).None? {
      var k := if ToInt(f[1]).None? then 1 else if ToInt(f[2]).None? then 2
               else if ToInt(f[3]).None? then 3 else if ToInt(f[4]).None? then 4 else 5;
      assert ToInt(f[k]).None?;
    }
  }

  /** A successful report on records has one row per record, each that record
      converted, and then the totals row: `'Total'` in the `n` column and the sum
      of each summed column over the rows above it. */
  lemma ReportOnRecords(recs: seq<RawRecord>)
    requires Report(recs).Success?
    ensures var rows := Report(recs).value;
      && |recs| > 0 && |rows| == |recs| + 1
      && (forall i :: 0 <= i < |recs| ==> Convert(recs[i]) == Some(rows[i]))
      && rows[|recs|].n == Marker("Total")
      && forall c: Column :: Get(rows[|recs|], c) == ColumnSum(rows[..|recs|], c)
  {
    ConvertAllPointwise(recs);
    var rows := ConvertAll(recs).value;
    assert (rows + [TotalRow(rows)])[..|recs|] == rows;
  }

  /** The report on records fails with `NoSamples` exactly when there are none, and
      with `NotAnInteger` exactly when some record does not convert. */
  lemma ReportFailsOnRecords(recs: seq<RawRecord>)
    ensures Report(recs) == Failure(NoSamples) <==> recs == []
    ensures Report(recs) == Failure(NotAnInteger) <==>
              recs != [] && exists i :: 0 <= i < |recs| && Convert(recs[i]).None?
  {
    ConvertAllPointwise(recs);
  }

  /** A successful report has one row per accepted line, in line order, each read
      from the first six fields of its line, and then the totals row: `'Total'` in
      the `n` column and the sum of each summed column over the sample rows. */
  lemma ReportRows(output: string)
    requires MassifReport(output).Success?
    ensures var rows, samples := MassifReport(output).value, SampleLines(output);
      && |samples| > 0 && |rows| == |samples| + 1
      && (forall i :: 0 <= i < |samples| ==> ReadFrom(rows[i], Fields(samples[i])))
      && rows[|samples|].n == Marker("Total")
      && forall c: Column :: Get(rows[|samples|], c) == ColumnSum(rows[..|samples|], c)
  {
    var samples := SampleLines(output);
    var recs := Records(samples);
    ReportOnRecords(recs);
    var rows := Report(recs).value;
    forall i | 0 <= i < |samples| ensures ReadFrom(rows[i], Fields(samples[i])) {
      assert recs[i] == RecordOf(samples[i]);
      ConvertLine(samples[i], rows[i]);
    }
  }

  /** The parse fails exactly when no line is accepted, or when some accepted line
      has a field among the five numeric ones that is not a comma-grouped number. */
  lemma ReportFailure(output: string)
    ensures MassifReport(output) == Failure(NoSamples) <==> SampleLines(output) == []
    ensures MassifReport(output) == Failure(NotAnInteger) <==>
              && SampleLines(output) != []
              && exists i :: 0 <= i < |SampleLines(output)| && HasBadCell(SampleLines(output)[i])
  {
    var samples := SampleLines(output);
    ReportFailsOnRecords(Records(samples));
    SamplesFail(samples);
  }

  /** Some record of the accepted lines fails to convert exactly when some line has
      a numeric field that is not a comma-grouped number. */
  lemma SamplesFail(samples: seq<string>)
    requires forall i :: 0 <= i < |samples| ==> Accepts(samples[i])
    ensures (exists i :: 0 <= i < |samples| && Convert(Records(samples)[i]).None?) <==>
            exists i :: 0 <= i < |samples| && HasBadCell(samples[i])
  {
    var recs := Records(samples);
    if exists i :: 0 <= i < |recs| && Convert(recs[i]).None? {
      var i :| 0 <= i < |recs| && Convert(recs[i]).None?;
      ConvertLineFails(samples[i]);
    }
    if exists i :: 0 <= i < |samples| && HasBadCell(samples[i]) {
      var i :| 0 <= i < |samples| && HasBadCell(samples[i]);
      ConvertLineFails(samples[i]);
      assert Convert(recs[i]).None?;
    }
  }

  /** The accepted lines of two texts joined by a newline are those of the first
      text followed by those of the second. */
  lemma SampleLinesAround(a: string, b: string)
    ensures SampleLines(a + "\n" + b) == SampleLines(a) + SampleLines(b)
  {
    SplitAround(a, b, '\n');
    FilterConcat(Split(a, '\n'), Split(b, '\n'), Accepts);
  }

  /** A line that is not a sample line (a header, a graph row, a line of prose)
      can be inserted anywhere without changing the report. */
  lemma NoiseLineIgnored(a: string, line: string, b: string)
    requires '\n' !in line && !Accepts(line)
    ensures MassifReport(a + "\n" + line + "\n" + b) == MassifReport(a + "\n" + b)
  {
    SampleLinesAround(a + "\n" + line, b);
    SampleLinesAround(a, line);
    SampleLinesAround(a, b);
    SplitWithout(line, '\n');
    FilterSingle(line, Accepts);
    assert SampleLines(line) == [];
    assert SampleLines(a + "\n" + line) == SampleLines(a);
    assert SampleLines(a + "\n" + line + "\n" + b) == SampleLines(a + "\n" + b);
  }

  /** Parsing only the sample lines of a report, joined back by newlines, finds
      the same samples and so the same report: the line filter is idempotent. */
  lemma ReparseSamples(output: string)
    ensures SampleLines(Join(SampleLines(output), '\n')) == SampleLines(output)
    ensures MassifReport(Join(SampleLines(output), '\n')) == MassifReport(output)
  {
    var samples := SampleLines(output);
    SampleLinesClean(output);
    ReparseLines(samples);
  }

  /** Sample lines hold no newline, and each is accepted. */
  lemma SampleLinesClean(output: string)
    ensures forall i :: 0 <= i < |SampleLines(output)| ==>
              '\n' !in SampleLines(output)[i] && Accepts(SampleLines(output)[i])
  {
    var samples, lines := SampleLines(output), Split(output, '\n');
    forall i | 0 <= i < |samples| ensures '\n' !in samples[i] && Accepts(samples[i]) {
      var j :| 0 <= j < |lines| && lines[j] == samples[i];
    }
  }

  /** Accepted lines without newlines, joined by newlines, are their own sample lines. */
  lemma ReparseLines(samples: seq<string>)
    requires forall i :: 0 <= i < |samples| ==> '\n' !in samples[i] && Accepts(samples[i])
    ensures SampleLines(Join(samples, '\n')) == samples
  {
    if samples == [] {
      assert !IsTableLine([]);
      FilterSingle([], Accepts);
    } else {
      SplitJoin(samples, '\n');
      FilterAll(samples, Accepts);
    }
  }

  /** Accepted lines convert independently: the records of a concatenation of
      line lists are the records of each list. */
  lemma RecordsConcat(s: seq<string>, t: seq<string>)
    requires forall i :: 0 <= i < |s| ==> Accepts(s[i])
    requires forall i :: 0 <= i < |t| ==> Accepts(t[i])
    ensures forall i :: 0 <= i < |s + t| ==> Accepts((s + t)[i])
    ensures Records(s + t) == Records(s) + Records(t)
  {
    assert forall i :: 0 <= i < |s + t| ==> (s + t)[i] == if i < |s| then s[i] else t[i - |s|];
  }

  /** Column sums add up over a concatenation of rows. */
  lemma {:induction false} ColumnSumConcat(a: seq<Row>, b: seq<Row>, c: Column)
    ensures ColumnSum(a + b, c) == ColumnSum(a, c) + ColumnSum(b, c)
    decreases |b|
  {
    if b == [] {
      assert a + b == a;
    } else {
      assert (a + b)[..|a + b| - 1] == a + b[..|b| - 1];
      ColumnSumConcat(a, b[..|b| - 1], c);
    }
  }

  /** Converting two lists of records one after the other converts their concatenation. */
  lemma {:induction false} ConvertAllConcat(r: seq<RawRecord>, s: seq<RawRecord>)
    requires ConvertAll(r).Some? && ConvertAll(s).Some?
    ensures ConvertAll(r + s) == Some(ConvertAll(r).value + ConvertAll(s).value)
    decreases |s|
  {
    if s == [] {
      assert r + s == r;
      assert ConvertAll(r).value + [] == ConvertAll(r).value;
    } else {
      var s' := s[..|s| - 1];
      assert (r + s)[..|r + s| - 1] == r + s';
      assert (r + s)[|r + s| - 1] == s[|s| - 1];
      ConvertAllConcat(r, s');
      var x, y' := ConvertAll(r).value, ConvertAll(s').value;
      assert ConvertAll(s).value == y' + [Convert(s[|s| - 1]).value];
      assert x + (y' + [Convert(s[|s| - 1]).value]) == (x + y') + [Convert(s[|s| - 1]).value];
    }
  }

  /** A totals row whose summed columns are those of `x` and `y` added. */
  function AddTotals(x: Row, y: Row): Row {
    Row(Marker("Total"), x.time + y.time, x.total + y.total, x.usefulHeap + y.usefulHeap,
        x.extraHeap + y.extraHeap, x.stacks + y.stacks)
  }

  /** Two successful reports on records combine: the rows of the concatenation are
      the rows of each, and its totals row is the sum of the two totals rows. */
  lemma ReportConcatRecords(r: seq<RawRecord>, s: seq<RawRecord>)
    requires Report(r).Success? && Report(s).Success?
    ensures Report(r + s).Success?
    ensures var x, y, z := Report(r).value, Report(s).value, Report(r + s).value;
      && z[..|z| - 1] == x[..|x| - 1] + y[..|y| - 1]
      && z[|z| - 1] == AddTotals(x[|x| - 1], y[|y| - 1])
  {
    var xa, xb := ConvertAll(r).value, ConvertAll(s).value;
    ConvertAllConcat(r, s);
    assert (xa + [TotalRow(xa)])[..|xa|] == xa;
    assert (xb + [TotalRow(xb)])[..|xb|] == xb;
    assert ((xa + xb) + [TotalRow(xa + xb)])[..|xa + xb|] == xa + xb;
    TotalRowConcat(xa, xb);
  }

  /** The totals row of a concatenation adds the two totals rows. */
  lemma TotalRowConcat(xa: seq<Row>, xb: seq<Row>)
    ensures TotalRow(xa + xb) == AddTotals(TotalRow(xa), TotalRow(xb))
  {
    ColumnSumConcat(xa, xb, Time);
    ColumnSumConcat(xa, xb, Total);
    ColumnSumConcat(xa, xb, UsefulHeap);
    ColumnSumConcat(xa, xb, ExtraHeap);
    ColumnSumConcat(xa, xb, Stacks);
  }

  /** Two reports concatenated parse into the sample rows of both, and the totals
      row of the whole is the sum of the two totals rows, column by column. */
  lemma ReportConcat(a: string, b: string)
    requires MassifReport(a).Success? && MassifReport(b).Success?
    ensures MassifReport(a + "\n" + b).Success?
    ensures var x, y, z := MassifReport(a).value, MassifReport(b).value, MassifReport(a + "\n" + b).value;
      && z[..|z| - 1] == x[..|x| - 1] + y[..|y| - 1]
      && z[|z| - 1] == AddTotals(x[|x| - 1], y[|y| - 1])
  {
    SampleLinesAround(a, b);
    var sa, sb := SampleLines(a), SampleLines(b);
    RecordsConcat(sa, sb);
    ReportConcatRecords(Records(sa), Records(sb));
  }

  // ---------------------------------------------------------------------------
  // Reading back a rendered table

  /** The six fields of a sample row as ms_print writes them: the snapshot number
      and the five columns grouped in thousands. */
  function RowFields(row: Row): (fs: seq<string>)
    requires row.n.Index?
    ensures |fs| == 6
  {
    [Decimal(row.n.value), Grouped(row.time), Grouped(row.total), Grouped(row.usefulHeap),
     Grouped(row.extraHeap), Grouped(row.stacks)]
  }

  /** A table line holding the fields of `row`, one space apart. */
  function RenderLine(row: Row): string
    requires row.n.Index?
  {
    Join(RowFields(row), ' ')
  }

  /** The rendered lines of the sample rows, in order. */
  function RenderedLines(rows: seq<Row>): (lines: seq<string>)
    requires forall i :: 0 <= i < |rows| ==> rows[i].n.Index?
    ensures |lines| == |rows|
  {
    seq(|rows|, i requires 0 <= i < |rows| => RenderLine(rows[i]))
  }

  /** Sample rows rendered one per line. */
  function RenderRows(rows: seq<Row>): string
    requires forall i :: 0 <= i < |rows| ==> rows[i].n.Index?
  {
    Join(RenderedLines(rows), '\n')
  }

  /** Every field of a rendered row is non-empty and without white space or newline. */
  lemma RowFieldsPlain(row: Row)
    requires row.n.Index?
    ensures forall i :: 0 <= i < 6 ==> RowFields(row)[i] != []
    ensures forall i, m :: 0 <= i < 6 && 0 <= m < |RowFields(row)[i]| ==>
              RowFields(row)[i][m] == ',' || IsDigit(RowFields(row)[i][m])
  {
    var d := Decimal(row.n.value);
    assert forall m :: 0 <= m < |d| ==> InClass(d[m], Digit);
  }

  /** The fields of a rendered line are the fields of its row. */
  lemma RenderLineFields(row: Row)
    requires row.n.Index?
    ensures Fields(RenderLine(row)) == RowFields(row)
  {
    var fs, line := RowFields(row), RenderLine(row);
    RowFieldsPlain(row);
    JoinFirst(fs, ' ');
    JoinLast(fs, ' ');
    assert IsDigit(fs[0][0]) by { assert fs[0][0] == ',' || IsDigit(fs[0][0]); assert fs[0][0] in fs[0]; }
    StripNoEdges(line);
    SplitWsJoin(fs);
  }

  /** A rendered line has the table-line shape: its number, one space, and a digit. */
  lemma RenderLineShape(row: Row)
    requires row.n.Index?
    ensures IsTableLine(RenderLine(row))
  {
    var fs, line := RowFields(row), RenderLine(row);
    RowFieldsPlain(row);
    var d, rest := fs[0], Join(fs[1..], ' ');
    assert line == d + [' '] + rest;
    JoinFirst(fs[1..], ' ');
    var q := |d|;
    assert line[..0] == [];
    assert line[0..q] == d;
    assert line[q..q + 1] == [' '];
    assert line[q + 1] == rest[0] == fs[1][0];
    assert AllIn(d, Digit);
    TableLineShape(line);
    assert ShapeAt(line, 0, q, q + 1);
  }

  /** A rendered line holds no newline. */
  lemma RenderLineSingle(row: Row)
    requires row.n.Index?
    ensures '\n' !in RenderLine(row)
  {
    var fs, line := RowFields(row), RenderLine(row);
    RowFieldsPlain(row);
    forall c | c in line ensures c != '\n' {
      var m :| 0 <= m < |line| && line[m] == c;
      JoinChars(fs, ' ', m);
    }
  }

  /** A rendered line is a sample line whose record converts back to its row. */
  lemma RenderLineReads(row: Row)
    requires row.n.Index?
    ensures '\n' !in RenderLine(row)
    ensures Accepts(RenderLine(row))
    ensures Convert(RecordOf(RenderLine(row))) == Some(row)
  {
    RenderLineSingle(row);
    RenderLineShape(row);
    RenderLineFields(row);
    ToIntGrouped(row.time);
    ToIntGrouped(row.total);
    ToIntGrouped(row.usefulHeap);
    ToIntGrouped(row.extraHeap);
    ToIntGrouped(row.stacks);
  }

  /** Every character of a join of plain fields is a digit, a comma or the separator. */
  lemma {:induction false} JoinChars(parts: seq<string>, sep: char, m: nat)
    requires forall i, k :: 0 <= i < |parts| && 0 <= k < |parts[i]| ==> parts[i][k] == ',' || IsDigit(parts[i][k])
    requires m < |Join(parts, sep)|
    ensures var c := Join(parts, sep)[m]; c == ',' || IsDigit(c) || c == sep
    decreases |parts|
  {
    if |parts| > 1 {
      var j := Join(parts[1..], sep);
      assert Join(parts, sep) == parts[0] + [sep] + j;
      if m > |parts[0]| {
        assert Join(parts, sep)[m] == j[m - |parts[0]| - 1];
        JoinChars(parts[1..], sep, m - |parts[0]| - 1);
      }
    }
  }

  /** The rendered lines are sample lines, and their records convert back to the rows. */
  lemma RenderedRecords(rows: seq<Row>)
    requires forall i :: 0 <= i < |rows| ==> rows[i].n.Index?
    ensures forall i :: 0 <= i < |rows| ==> '\n' !in RenderedLines(rows)[i]
    ensures forall i :: 0 <= i < |rows| ==> Accepts(RenderedLines(rows)[i])
    ensures ConvertAll(Records(RenderedLines(rows))) == Some(rows)
  {
    var lines := RenderedLines(rows);
    forall i | 0 <= i < |rows|
      ensures '\n' !in lines[i] && Accepts(lines[i]) && Convert(RecordOf(lines[i])) == Some(rows[i])
    {
      RenderLineReads(rows[i]);
    }
    var recs := Records(lines);
    ConvertAllPointwise(recs);
    assert ConvertAll(recs).value == rows;
  }

  /** The sample lines of a rendered table are its rendered lines. */
  lemma RenderedSamples(rows: seq<Row>)
    requires rows != [] && forall i :: 0 <= i < |rows| ==> rows[i].n.Index?
    ensures SampleLines(RenderRows(rows)) == RenderedLines(rows)
  {
    var lines := RenderedLines(rows);
    RenderedRecords(rows);
    SplitJoin(lines, '\n');
    FilterAll(lines, Accepts);
  }

  /** Parsing rendered rows gives back those rows followed by their totals row, and
      no rows at all is an error. */
  lemma RenderRoundTrip(rows: seq<Row>)
    requires forall i :: 0 <= i < |rows| ==> rows[i].n.Index?
    ensures MassifReport(RenderRows(rows)) ==
              if rows == [] then Failure(NoSamples) else Success(rows + [TotalRow(rows)])
  {
    if rows == [] {
      assert RenderRows(rows) == [];
      assert !IsTableLine([]);
      FilterSingle([], Accepts);
    } else {
      RenderedSamples(rows);
      RenderedRecords(rows);
    }
  }

  /** The totals of two sample rows. */
  lemma ExampleTotals()
    ensures TotalRow([Row(Index(0), 1, 1000, 800, 150, 50), Row(Index(1), 2, 2000, 1600, 300, 100)])
         == Row(Marker("Total"), 3, 3000, 2400, 450, 150)
  {
    var r0, r1 := Row(Index(0), 1, 1000, 800, 150, 50), Row(Index(1), 2, 2000, 1600, 300, 100);
    var rows := [r0, r1];
    forall c ensures ColumnSum(rows, c) == Get(r0, c) + Get(r1, c) {
      assert ColumnSum([r0], c) == Get(r0, c) by { assert [r0][..0] == []; }
      assert rows[..1] == [r0];
    }
  }

  /** Two sample rows, rendered and read back: the totals row sums each column,
      e.g. 1,000 and 2,000 bytes give 3000. */
  lemma ExampleTable()
    ensures var rows := [Row(Index(0), 1, 1000, 800, 150, 50), Row(Index(1), 2, 2000, 1600, 300, 100)];
      MassifReport(RenderRows(rows)) == Success(rows + [Row(Marker("Total"), 3, 3000, 2400, 450, 150)])
  {
    var r0, r1 := Row(Index(0), 1, 1000, 800, 150, 50), Row(Index(1), 2, 2000, 1600, 300, 100);
    RenderRoundTrip([r0, r1]);
    ExampleTotals();
  }
}
