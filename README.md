# Benchmark tool for zkLLVM circuits, modelled in Dafny

`benchmark_script.py` is an interactive benchmarking tool for circuits built with a
zkLLVM template. It measures two programs, the assigner and the single-threaded proof
generator. For each, it records a heap figure and a wall-clock time. The heap
figure is the sum of the `total(B)` column over all Massif snapshots, which is the
`Total` row of the table it parses from `ms_print`'s output. The time comes from the
`time` wrapper. The logic the tool owns is
small: two text parsers and four result fields that a menu loop updates. This project
models that logic and proves what it computes.

- **`ElapsedTime`** (`elapsed.dfy`) models `extract_and_convert_time`. It reads the
  pattern `(\d+):(\d+\.\d+)elapsed` in two ways:
  - declaratively, as the predicate `MatchesWith`: a token at position `i` with
    three digit groups;
  - computably, as the function `MatchAt`, where greedy digit runs stop at `:`, `.`
    and `e`.

  The two agree exactly, and a match at a given position is unique. `re.search`
  becomes the search for the least position with a match. The seconds are an exact
  `real`: `minutes * 60 + whole + fraction / 10^|fraction|`.
- **`Massif`** (`massif.dfy`) models `process_massif_output`. The pipeline is:
  1. Split the output on `\n`.
  2. Keep the lines that have the shape `^\s*\d+\s+\d`.
  3. Strip each kept line, split it on white space, and keep the lines with at least
     six fields.
  4. Build a record from fields 0 to 5.
  5. Remove the commas from the five numeric columns and convert them to integers.
  6. Append a `Total` row holding the column sums.

  The specification function is `MassifReport`. The imperative method
  `ProcessMassifOutput` has two loops: the code's records loop, and a conversion
  loop that goes record by record where the code converts column by column (see
  `Massif.ConvertColumns` under "Left out"). It is proved to return exactly what
  `MassifReport` returns. A table with no sample lines, and a cell that is not a
  number, are the two failures the code raises, as a KeyError and a ValueError. A
  rendering of rows as table lines, their fields one space apart, gives a round
  trip: parsing a rendered table gives back its rows plus their totals.
- **`Session`** (`session.dfy`) models the class `BenchmarkTool`:
  - its four optional result fields;
  - `verify_build` over a set of existing paths;
  - the completeness test of `display_results`;
  - one pass of the menu (`Next`);
  - the `while True` loop over a sequence of inputs (`Replay`, `RunSession`).

  The class `BenchmarkTool` keeps the four fields as `var`s. Its method `Step`
  updates them as one pass of the menu does, and its method `Run` carries the
  loop. Both are proved equal to the functions.

  Each input bundles three things:
  - the line `input()` returns;
  - the paths that exist at that moment;
  - what each external command prints on stdout and stderr.
- **`Text`**, **`Seqs`** and **`Wrappers`** hold the pieces of Python's `str` and `re`
  behaviour this needs, a list comprehension filter, and `Option`/`Result`.

Choice `'4'` ("Measure Assigner Execution Time") runs the proof generator's timing
command and stores its elapsed time as the assigner's time
(`benchmark_script.py:239`). The model does the same. `AssignerTimeIsProofTime`
and `AssignerTimeNeverRun` state the consequences: the assigner's timing command is
never started, and the stored assigner time is the proof generator's time.

A choice is compared with the strings `'1'` to `'7'` only. Any other line falls
through every branch and changes nothing.

## Model

| member | source | states |
|---|---|---|
| Text.Strip | benchmark_script.py:94 | no contract: `line.strip()`, as `TrimEnd(TrimStart(line))` |
| Text.SplitWs | benchmark_script.py:94 | `re.split(r"\s+", t)` gives at least one part; `SplitWsPartsPlain`, `SplitWsRun`, `SplitWsJoin` and `SplitWsFirst` give its parts |
| Text.SplitWsPartsPlain | benchmark_script.py:94 | no part of a split on white space contains white space |
| Text.SplitWsRun | benchmark_script.py:94 | a field, then a run of white space of any length, then text not starting with white space splits into that field and the fields of the text, as padded table columns do |
| Text.SplitWsPaddedExample | benchmark_script.py:94 | columns separated by runs of spaces and tabs split into exactly those columns |
| Text.Fields | benchmark_script.py:94 | no contract: `re.split(r"\s+", line.strip())` |
| Text.RunEnd | benchmark_script.py:89 | a greedy `\d*`/`\s*` run from `i` stops at the first character outside the class, and everything before it is inside |
| Text.RunEndUnique | benchmark_script.py:89 | any end position with those two properties is the one `RunEnd` finds, so greedy runs never need to backtrack |
| Text.Split | benchmark_script.py:86 | `str.split("\n")` gives at least one part, and no part contains the separator |
| Text.JoinSplit | benchmark_script.py:86 | joining the parts of a split with the separator gives back the original text |
| Text.SplitJoin | benchmark_script.py:86 | splitting a join of separator-free parts gives back the parts |
| Text.TrimStart | benchmark_script.py:94 | `lstrip` removes a white-space prefix and leaves a suffix that does not start with white space |
| Text.TrimEnd | benchmark_script.py:94 | `rstrip` removes a white-space suffix and leaves a prefix that does not end with white space |
| Text.SplitWsJoin | benchmark_script.py:94 | `re.split(r"\s+", ...)` of non-empty space-free fields joined by single spaces returns those fields |
| Text.SplitWsFirst | benchmark_script.py:94 | the first field after splitting on white space is the text up to the first white space |
| Text.Value | benchmark_script.py:97-112 | no contract: `int()` of a digit string, most significant digit first; `ValueConcat` says how it splits over a concatenation |
| Text.ValueConcat | benchmark_script.py:97-112 | the value of two digit strings one after the other is the first value shifted by the second's length, plus the second value |
| Text.RemoveCommas | benchmark_script.py:108-112 | `str.replace(',', '')` keeps exactly the characters that are not commas, and never lengthens the text |
| Text.RemoveCommasInOrder | benchmark_script.py:108-112 | comma removal is the comprehension of the non-comma characters: every other character is kept, in order |
| Text.RemoveCommasConcat | benchmark_script.py:108-112 | comma removal of a concatenation is the concatenation of the two removals |
| Text.GroupedValue | benchmark_script.py:108-112 | removing the thousands commas from a comma-grouped number leaves a numeral whose value is that number |
| Seqs.Filter | benchmark_script.py:89 | a list comprehension with a condition keeps only elements of the list that satisfy the condition |
| Seqs.FilterConcat | benchmark_script.py:89 | the comprehension over a concatenation is the concatenation of the comprehensions, so order is kept |
| Seqs.FilterKeeps | benchmark_script.py:89 | every element of the list that satisfies the condition is kept |
| Seqs.FilterAll | benchmark_script.py:89 | a comprehension whose condition holds throughout keeps the list as it is |
| ElapsedTime.MatchesWith | benchmark_script.py:34-37 | no contract: the pattern read declaratively, three non-empty digit groups framed by `:`, `.` and `elapsed` at `i` |
| ElapsedTime.MatchAt | benchmark_script.py:34-37 | no contract: the pattern tried at `i` with greedy digit runs; `MatchAtExact` relates it to `MatchesWith` |
| ElapsedTime.Seconds | benchmark_script.py:43 | no contract: `int(minutes) * 60 + float(seconds)`, read as an exact real |
| ElapsedTime.MatchAtSound | benchmark_script.py:34-37 | whatever the greedy matcher returns at a position is a match of the pattern there |
| ElapsedTime.MatchAtComplete | benchmark_script.py:34-37 | every match of the pattern at a position is what the greedy matcher returns there |
| ElapsedTime.MatchAtExact | benchmark_script.py:34-37 | the greedy matcher returns groups `g` at `i` if and only if the pattern matches at `i` with groups `g` |
| ElapsedTime.MatchUnique | benchmark_script.py:34 | at any position the pattern matches with at most one set of groups |
| ElapsedTime.SearchFrom | benchmark_script.py:37 | `re.search` finds a match, with no match at any earlier position, or reports that there is no match anywhere |
| ElapsedTime.ExtractAndConvertTime | benchmark_script.py:23-46 | the result is `None` exactly when no substring matches the pattern |
| ElapsedTime.ExtractLeftmost | benchmark_script.py:37-44 | given the leftmost match, the result is `int(minutes) * 60` plus the seconds group read exactly |
| ElapsedTime.ExtractExample | benchmark_script.py:34-44 | `0:12.50elapsed` converts to 12.5 seconds |
| Massif.IsTableLine | benchmark_script.py:89 | no contract: `re.match(r"^\s*\d+\s+\d", line)` with greedy runs; `TableLineShape` relates it to the pattern's shape |
| Massif.Accepts | benchmark_script.py:89-95 | no contract: the line passes the shape test and has at least six fields |
| Massif.SampleLines | benchmark_script.py:86-95 | no contract: the lines of the output, in order, that pass both tests |
| Massif.RecordOf | benchmark_script.py:96-103 | no contract: the record built from fields 0 to 5, with `int()` applied to field 0 |
| Massif.ToInt | benchmark_script.py:108-112 | no contract: `.str.replace(',', '').astype(int)` on one cell; `ToIntAccepts` says when it succeeds |
| Massif.Convert | benchmark_script.py:108-112 | no contract: a record with its five numeric columns converted, or nothing |
| Massif.ColumnSum | benchmark_script.py:115-116 | no contract: `df[col].sum()` |
| Massif.TotalRow | benchmark_script.py:115-117 | no contract: the row labelled `Total` holding the five column sums |
| Massif.Report | benchmark_script.py:107-117 | a successful report on records has one row per record, plus one; `ReportOnRecords` and `ReportFailsOnRecords` give its contents |
| Massif.TableLineShape | benchmark_script.py:89 | the shape test accepts a line exactly when it has the form white space, digits, white space, digit |
| Massif.FirstFieldOfTableLine | benchmark_script.py:89-97 | the first field of a line that passes the shape test is a numeral, so `int(parts[0])` cannot fail |
| Massif.ToIntAccepts | benchmark_script.py:108-112 | a cell converts exactly when it holds only digits and commas, and at least one digit |
| Massif.ToIntGrouped | benchmark_script.py:108-112 | a comma-grouped number converts to its value |
| Massif.ToIntExample | benchmark_script.py:108-112 | `"12,345"` converts to 12345 |
| Massif.Records | benchmark_script.py:92-104 | one record per accepted line |
| Massif.ConvertAll | benchmark_script.py:107-112 | a successful conversion has one row per record |
| Massif.MassifReport | benchmark_script.py:76-118 | a successful parse has one row per accepted line, plus one |
| Massif.ProcessMassifOutput | benchmark_script.py:86-118 | the method with the code's loops returns exactly `MassifReport(output)` |
| Massif.CollectRecords | benchmark_script.py:92-104 | the records loop builds exactly the records of the lines with at least six fields, in order |
| Massif.ConvertColumns | benchmark_script.py:107-112 | the conversion loop, which goes record by record, returns exactly `ConvertAll` of the records |
| Massif.RecordsStep | benchmark_script.py:93-104 | one pass of the records loop appends one record exactly when the line has at least six fields |
| Massif.ConvertAllPointwise | benchmark_script.py:107-112 | the conversion succeeds exactly when every record converts, and then row `i` is record `i` converted |
| Massif.ConvertAllFails | benchmark_script.py:107-112 | once a prefix of the records fails to convert, the whole conversion fails |
| Massif.ConvertLine | benchmark_script.py:96-112 | the record of an accepted line converts to a row exactly when the row's `n` and five columns are read from fields 0 to 5 |
| Massif.ConvertLineFails | benchmark_script.py:96-112 | the record of an accepted line fails to convert exactly when one of fields 1 to 5 is not a comma-grouped number |
| Massif.ReportOnRecords | benchmark_script.py:107-117 | a successful report holds each record converted, in order, then a `Total` row whose every column is the column sum |
| Massif.ReportFailsOnRecords | benchmark_script.py:107-112 | the report fails with `NoSamples` exactly when there are no records, and with `NotAnInteger` exactly when some record does not convert |
| Massif.ReportRows | benchmark_script.py:86-117 | a successful parse reads row `i` from the fields of the `i`-th accepted line, and ends with the `Total` row of column sums |
| Massif.ReportFailure | benchmark_script.py:86-112 | the parse fails for lack of samples exactly when no line is accepted, and on a bad number exactly when some accepted line has a non-numeric cell |
| Massif.SamplesFail | benchmark_script.py:96-112 | some record of the accepted lines fails to convert exactly when some accepted line has a non-numeric cell in fields 1 to 5 |
| Massif.SampleLinesAround | benchmark_script.py:86-89 | the accepted lines of two texts joined by a newline are those of the first, then those of the second |
| Massif.NoiseLineIgnored | benchmark_script.py:86-95 | inserting a line that is not accepted, such as a header or graph line, leaves the parse unchanged |
| Massif.ReparseSamples | benchmark_script.py:86-104 | re-parsing only the accepted lines gives the same accepted lines and the same report |
| Massif.RecordsConcat | benchmark_script.py:92-104 | the records of two groups of accepted lines are the records of each, in order |
| Massif.ColumnSumConcat | benchmark_script.py:115-116 | a column sum over two groups of rows is the sum of the two column sums |
| Massif.TotalRowConcat | benchmark_script.py:115-117 | the `Total` row of two groups of rows adds their two `Total` rows column by column |
| Massif.ReportConcat | benchmark_script.py:76-118 | a parse of two outputs joined by a newline holds the rows of each, and its `Total` row adds their `Total` rows |
| Massif.RenderLineReads | benchmark_script.py:89-112 | a row rendered with its fields one space apart makes a line that is accepted and converts back to that row |
| Massif.RenderRoundTrip | benchmark_script.py:76-118 | parsing rendered rows gives those rows plus their `Total` row, and fails with `NoSamples` when there are no rows |
| Massif.ExampleTotals | benchmark_script.py:115-117 | the `Total` row of two concrete rows holds their column sums |
| Massif.ExampleTable | benchmark_script.py:76-118 | a concrete two-sample table parses to its rows and its `Total` row |
| Session.VerifyBuild | benchmark_script.py:142-154 | the build is good exactly when all three required files exist, and the missing list holds exactly the absent ones in the list's order |
| Session.MissingFiles | benchmark_script.py:149-150 | the comprehension of absent required files holds exactly those, in the fixed order, and is empty exactly when none is absent |
| Session.Show | benchmark_script.py:191-201 | the results are reported incomplete exactly when one of the four fields is unset, and otherwise all four are shown as stored |
| Session.GiB | benchmark_script.py:227-228 | the gigabyte figure times 2^30 is the byte count |
| Session.Key | benchmark_script.py:219-251 | a menu key is recognised only when the input line is exactly that one character |
| Session.HeapFile | benchmark_script.py:226-233 | no contract: the Massif output file of choice 2 (`assigner_memory_bench`) or 3 (`proof_memory_bench`) |
| Session.HeapReport | benchmark_script.py:64-74 | no contract: `parse_memory_usage`, which is `process_massif_output` applied to the stdout of `ms_print <file>` |
| Session.Stored | benchmark_script.py:224-245 | no contract: the value a choice assigns, if it reaches the assignment |
| Session.Store | benchmark_script.py:228-244 | no contract: the field that choices 2 to 5 assign |
| Session.Apply | benchmark_script.py:219-251 | no contract: the fields after one choice |
| Session.Commands | benchmark_script.py:224-245 | no contract: the commands a choice starts, in order |
| Session.EffectOf | benchmark_script.py:219-251 | no contract: what a choice logs or shows, or how it leaves the loop |
| Session.Next | benchmark_script.py:219-251 | no contract: one pass of the menu dispatch; `HeapStep`, `TimeStep` and `ReadOnlyChoice` state what it does |
| Session.RunSession | benchmark_script.py:204-207 | `run` stops before the loop exactly when a required file is missing, and then changes nothing and shows nothing |
| Session.Replay | benchmark_script.py:209-251 | the menu loop never stops for a missing build |
| Session.ReplayNext | benchmark_script.py:209-251 | proof helper for `Run`'s loop invariant: `Replay` unfolded once at input `i` |
| Session.HeapStep | benchmark_script.py:224-236 | choices 2 and 3 render the right Massif file and set only their own field, to the sum of `total(B)` over the samples in gigabytes; or, if the table does not parse, leave every field alone and end the loop with the error |
| Session.TimeStep | benchmark_script.py:238-245 | choices 4 and 5 run the proof generator's timing command and set only their own field, to that command's elapsed time, which is `None` exactly when its stderr has no match |
| Session.AssignerTimeIsProofTime | benchmark_script.py:238-245 | choice 4 stores the time choice 5 would store as the proof time |
| Session.AssignerTimeNeverRun | benchmark_script.py:219-251 | no choice starts the assigner's timing command |
| Session.ReadOnlyChoice | benchmark_script.py:219-251 | every choice other than 2 to 5 changes no field and starts no command; 1 checks the build, 6 shows the results, 7 exits |
| Session.NextIdempotent | benchmark_script.py:219-251 | repeating a choice with the same command output leaves the fields as the first run left them |
| Session.NextCommutes | benchmark_script.py:219-251 | two different choices update the fields to the same values in either order |
| Session.ReplayShape | benchmark_script.py:209-251 | the loop shows one effect per input read, only the last one can end it, and the stop reason agrees with that effect |
| Session.ReplayStops | benchmark_script.py:209-251 | inputs after the loop has ended are never read |
| Session.ReplayContinues | benchmark_script.py:209-251 | a loop that has read all of its first inputs carries on with the later ones from the results it reached |
| Session.ReplayMeasurements | benchmark_script.py:209-245 | a run of successful measurements shows one `Measured` each and leaves the fields as the measurements set them |
| Session.AllMeasured | benchmark_script.py:191-245 | after choices 2, 3, 4 and 5 succeed, the results show exactly the two heap totals and the two times measured |
| Session.FullBenchmark | benchmark_script.py:204-251 | the session 2, 3, 4, 5, 6 shows four measurements, then the complete summary of those values |
| Session.BenchmarkTool.constructor | benchmark_script.py:52-61 | `build_src` is the template path followed by `/build/src`, and all four result fields start unset |
| Session.BenchmarkTool.Step | benchmark_script.py:219-251 | one pass of the menu updates the four fields, and reports the effect and the commands, exactly as `Next` does |
| Session.BenchmarkTool.Run | benchmark_script.py:204-251 | `run` leaves the fields and reports the effects and the stop reason exactly as `RunSession` does |

## Left out

- `run_command` and the `measure_*` and `compile_circuit` methods (`benchmark_script.py:120-140`, `156-189`) start subprocesses. Their stdout and stderr are a parameter of each input (`Input.run`). The model records which command each choice starts, but not the shell command strings.
- The filesystem is a set of existing paths, given with each input. `Path` normalisation is not modelled: paths are joined with `/` as plain strings.
- The `current_dir_path`, `build` and `input_json` fields are not modelled. They only feed command strings.
- Logging, `argparse`, `setup_logging`, `main`, `input()` and `print` are I/O. Each input line is the `choice` of one `Input`. The end of input, where `input()` would raise `EOFError`, ends the loop as `InputExhausted`. Printed output is the `Displayed` effect and is not rendered.
- Floating point is replaced by exact reals: `float(seconds)`, the division by 2^30, and the `.2f` formatting with its rounding.
- pandas internals, such as dtype inference, `concat` and the index, are not modelled. The table is a sequence of rows plus a final `Total` row.
- int64 overflow of the converted columns and their sums is not modelled: integers are unbounded.
- Massif.ToInt: accepts only digits after comma removal. Python's `int()` also accepts surrounding white space, a sign and underscores. Such cells cannot occur in fields produced by splitting on white space, apart from signs and underscores, which `ms_print` never prints.
- Massif.ConvertColumns: converts record by record, where lines 108-112 convert column by column. The result is the same because a failure (`NotAnInteger`) does not say which cell failed.
- Massif.Report: a non-numeric cell is reported as `NotAnInteger` without saying which cell. In the code, pandas' column-by-column conversion decides which `ValueError` is raised first.
- Text.IsSpace and Text.IsDigit: `\s`, `\d` and `str.strip` cover ASCII only. Python also treats `\x1c`-`\x1f` and other Unicode white space as `\s`, and other Unicode digits as `\d`.
- Massif.RenderLine: renders rows with single spaces, not with `ms_print`'s column padding. It is only used to state the round trip.
