/** The benchmark session: `BenchmarkTool` keeps the four measured results and its
    menu loop updates them one choice at a time. External commands are not run
    here: each menu input carries the captured output of every command it may
    start, and the paths that exist at that moment. */
module Session {
  import opened Wrappers
  import opened Seqs
  import opened Text
  import opened ElapsedTime
  import opened Massif

  // ---------------------------------------------------------------------------
  // The environment

  /** The external commands the menu starts: the two Massif runs, the two timing
      runs, and `ms_print` on a Massif output file. */
  datatype Command = AssignerHeap | ProofHeap | AssignerTime | ProofTime | MsPrint(file: string)

  /** What `run_command` returns: both captured streams, whatever the exit status. */
  datatype Captured = Captured(stdout: string, stderr: string)

  /** One pass of the menu loop: the line `input()` returns, the paths that exist,
      and the output each command would produce if it ran now. */
  datatype Input = Input(choice: string, files: set<string>, run: Command -> Captured)

  // ---------------------------------------------------------------------------
  // verify_build

  const RequiredFiles: seq<string> := ["template.ll", "template.crct", "template.tbl"]

  /** `zkllvm_template_path / "build/src"`. */
  function BuildSrc(templatePath: string): string {
    templatePath + "/build/src"
  }

  /** `build_src / f`. */
  function FilePath(buildSrc: string, f: string): string {
    buildSrc + "/" + f
  }

  /** The outcome of `verify_build`: its return value and the files its error names. */
  datatype BuildCheck = BuildCheck(ok: bool, missing: seq<string>)

  /** The position of a required file in the fixed list. */
  function Rank(f: string): nat {
    if f == RequiredFiles[0] then 0 else if f == RequiredFiles[1] then 1 else 2
  }

  /** `verify_build`: the required files absent from `build_src`, in the order of
      the list; the build is good exactly when none is absent. */
  function VerifyBuild(buildSrc: string, files: set<string>): (c: BuildCheck)
    ensures c.ok <==> forall f :: f in RequiredFiles ==> FilePath(buildSrc, f) in files
    ensures forall f :: f in c.missing <==> f in RequiredFiles && FilePath(buildSrc, f) !in files
    ensures forall i, j :: 0 <= i < j < |c.missing| ==> Rank(c.missing[i]) < Rank(c.missing[j])
    ensures c.ok <==> c.missing == []
  {
    var missing := Filter(RequiredFiles, Absent(buildSrc, files));
    MissingFiles(buildSrc, files);
    BuildCheck(missing == [], missing)
  }

  /** The test `not (build_src / f).exists()`. */
  function Absent(buildSrc: string, files: set<string>): string -> bool {
    f => FilePath(buildSrc, f) !in files
  }

  /** The comprehension of the required files that are absent: exactly those, in
      the order of the list. */
  lemma MissingFiles(buildSrc: string, files: set<string>)
    ensures var m := Filter(RequiredFiles, Absent(buildSrc, files));
      && (forall f :: f in m <==> f in RequiredFiles && FilePath(buildSrc, f) !in files)
      && (forall i, j :: 0 <= i < j < |m| ==> Rank(m[i]) < Rank(m[j]))
      && (m == [] <==> forall f :: f in RequiredFiles ==> FilePath(buildSrc, f) in files)
  {
    var absent := Absent(buildSrc, files);
    FilterThree(RequiredFiles[0], RequiredFiles[1], RequiredFiles[2], absent);
    assert RequiredFiles == [RequiredFiles[0], RequiredFiles[1], RequiredFiles[2]];
  }

  /** The comprehension over a three-element list, element by element. */
  lemma FilterThree<T>(a: T, b: T, c: T, p: T -> bool)
    ensures Filter([a, b, c], p)
         == (if p(a) then [a] else []) + (if p(b) then [b] else []) + (if p(c) then [c] else [])
  {
    assert [a, b, c] == [a] + [b] + [c];
    FilterConcat([a] + [b], [c], p);
    FilterConcat([a], [b], p);
    FilterSingle(a, p);
    FilterSingle(b, p);
    FilterSingle(c, p);
  }

  // ---------------------------------------------------------------------------
  // Results and display_results

  /** The four result fields of lines 58-61; `None` until measured. */
  datatype Results = Results(assignerTotalGb: Option<real>, proofTotalGb: Option<real>,
                             assignerTime: Option<real>, proofTime: Option<real>)

  const Unset: Results := Results(None, None, None, None)

  /** What `display_results` does: report that the benchmark is incomplete, or show
      both subjects' memory and time. */
  datatype Display = Incomplete | Summary(assignerGb: real, assignerTime: real, proofGb: real, proofTime: real)

  function Show(r: Results): (d: Display)
    ensures d == Incomplete <==>
              r.assignerTotalGb.None? || r.assignerTime.None? || r.proofTotalGb.None? || r.proofTime.None?
    ensures d.Summary? ==>
              && r.assignerTotalGb == Some(d.assignerGb) && r.assignerTime == Some(d.assignerTime)
              && r.proofTotalGb == Some(d.proofGb) && r.proofTime == Some(d.proofTime)
  {
    if r.assignerTotalGb.None? || r.assignerTime.None? || r.proofTotalGb.None? || r.proofTime.None?
    then Incomplete
    else Summary(r.assignerTotalGb.value, r.assignerTime.value, r.proofTotalGb.value, r.proofTime.value)
  }

  /** `bytes / (2**30)`, exactly. */
  function GiB(bytes: nat): (g: real)
    ensures g * 1073741824.0 == bytes as real
  {
    bytes as real / 1073741824.0
  }

  // ---------------------------------------------------------------------------
  // One pass of the menu loop

  /** What a menu choice leaves in the log or on the screen, or how it ends the loop. */
  datatype Effect =
    | NoEffect
    | BuildChecked(check: BuildCheck)
    | Measured
    | Displayed(display: Display)
    | Exited
    | Crashed(error: ParseError)

  /** The results after one choice, what it showed, and the commands it started, in order. */
  datatype Outcome = Outcome(results: Results, effect: Effect, commands: seq<Command>)

  /** The menu key typed: `choice` is compared with one-character strings only,
      so any other line is `'?'`, which is no menu key. */
  function Key(choice: string): (k: char)
    ensures k != '?' ==> choice == [k]
  {
    if |choice| == 1 && '1' <= choice[0] <= '7' then choice[0] else '?'
  }

  /** The Massif output file a heap choice renders: lines 226 and 233. */
  function HeapFile(choice: string): string {
    if Key(choice) == '2' then "assigner_memory_bench" else "proof_memory_bench"
  }

  /** The table `parse_memory_usage` builds from `ms_print`'s output for a heap choice. */
  function HeapReport(inp: Input): Result<seq<Row>, ParseError> {
    MassifReport(inp.run(MsPrint(HeapFile(inp.choice))).stdout)
  }

  /** The value a choice assigns to its field, if it reaches the assignment.
      Choices 2 and 3 store the last row's `total(B)` in gigabytes, unless the
      report does not parse and the exception leaves the loop first; choices 4
      and 5 store whatever `extract_and_convert_time` returns for the proof
      generator's stderr, as line 239 reads it for choice 4 too. */
  function Stored(inp: Input): Option<Option<real>> {
    if Key(inp.choice) == '2' || Key(inp.choice) == '3' then
      var report := HeapReport(inp);
      if report.Success? then Some(Some(GiB(report.value[|report.value| - 1].total))) else None
    else if Key(inp.choice) == '4' || Key(inp.choice) == '5' then Some(ExtractAndConvertTime(inp.run(ProofTime).stderr))
    else None
  }

  /** The field a choice assigns: lines 228, 235, 240 and 244. */
  function Store(r: Results, choice: string, v: Option<real>): Results {
    if Key(choice) == '2' then r.(assignerTotalGb := v)
    else if Key(choice) == '3' then r.(proofTotalGb := v)
    else if Key(choice) == '4' then r.(assignerTime := v)
    else if Key(choice) == '5' then r.(proofTime := v)
    else r
  }

  /** The results after a choice. */
  function Apply(r: Results, inp: Input): Results {
    match Stored(inp)
    case Some(v) => Store(r, inp.choice, v)
    case None => r
  }

  /** The commands a choice starts, in order. */
  function Commands(choice: string): seq<Command> {
    if Key(choice) == '2' then [AssignerHeap, MsPrint("assigner_memory_bench")]
    else if Key(choice) == '3' then [ProofHeap, MsPrint("proof_memory_bench")]
    else if Key(choice) == '4' || Key(choice) == '5' then [ProofTime]
    else []
  }

  /** What a choice reports, or how it leaves the loop. */
  function EffectOf(r: Results, buildSrc: string, inp: Input): Effect {
    var choice := inp.choice;
    if Key(choice) == '1' then BuildChecked(VerifyBuild(buildSrc, inp.files))
    else if Key(choice) == '2' || Key(choice) == '3' then
      (if HeapReport(inp).Failure? then Crashed(HeapReport(inp).error) else Measured)
    else if Key(choice) == '4' || Key(choice) == '5' then Measured
    else if Key(choice) == '6' then Displayed(Show(r))
    else if Key(choice) == '7' then Exited
    else NoEffect
  }

  /** The menu dispatch of lines 219-251. */
  function Next(r: Results, buildSrc: string, inp: Input): Outcome {
    Outcome(Apply(r, inp), EffectOf(r, buildSrc, inp), Commands(inp.choice))
  }

  // ---------------------------------------------------------------------------
  // The menu loop

  /** How `run` ends: the build check failed before the loop, choice 7, an
      exception from a measurement, or `input()` finding no more lines. */
  datatype Stop = BuildMissing(missing: seq<string>) | Exit | Crash | InputExhausted

  /** The state `run` leaves, the effects of the choices it processed, and how it ended. */
  datatype Trace = Trace(results: Results, effects: seq<Effect>, stop: Stop)

  /** The `while True` loop over a sequence of inputs, from results `r`. */
  function Replay(r: Results, buildSrc: string, inputs: seq<Input>): (t: Trace)
    ensures !t.stop.BuildMissing?
    decreases |inputs|
  {
    if inputs == [] then Trace(r, [], InputExhausted)
    else
      var o := Next(r, buildSrc, inputs[0]);
      if o.effect.Exited? then Trace(o.results, [o.effect], Exit)
      else if o.effect.Crashed? then Trace(o.results, [o.effect], Crash)
      else
        var rest := Replay(o.results, buildSrc, inputs[1..]);
        Trace(rest.results, [o.effect] + rest.effects, rest.stop)
  }

  /** The loop from input `i` on: one step, then either its end or the rest. */
  lemma ReplayNext(r: Results, buildSrc: string, inputs: seq<Input>, i: nat)
    requires i < |inputs|
    ensures var o, t := Next(r, buildSrc, inputs[i]), Replay(r, buildSrc, inputs[i..]);
      var rest := Replay(o.results, buildSrc, inputs[i + 1..]);
      && (o.effect.Exited? ==> t == Trace(o.results, [o.effect], Exit))
      && (o.effect.Crashed? ==> t == Trace(o.results, [o.effect], Crash))
      && (!o.effect.Exited? && !o.effect.Crashed? ==> t == Trace(rest.results, [o.effect] + rest.effects, rest.stop))
  {
    assert inputs[i..][0] == inputs[i];
    assert inputs[i..][1..] == inputs[i + 1..];
  }

  /** `run`: verify the build once, then process the inputs. */
  function RunSession(r: Results, buildSrc: string, files: set<string>, inputs: seq<Input>): (t: Trace)
    ensures t.stop.BuildMissing? <==> exists f :: f in RequiredFiles && FilePath(buildSrc, f) !in files
    ensures t.stop.BuildMissing? ==> t.results == r && t.effects == []
  {
    var check := VerifyBuild(buildSrc, files);
    if !check.ok then Trace(r, [], BuildMissing(check.missing)) else Replay(r, buildSrc, inputs)
  }

  // ---------------------------------------------------------------------------
  // Properties of one choice

  /** Choices 2 and 3 store the `total(B)` cell of the last row, which is the sum
      of the `total(B)` column over the sample lines, in gigabytes, and touch no
      other field; a report that does not parse leaves every field as it was. */
  lemma HeapStep(r: Results, buildSrc: string, inp: Input)
    requires inp.choice == "2" || inp.choice == "3"
    ensures var output := inp.run(MsPrint(HeapFile(inp.choice))).stdout;
      var o := Next(r, buildSrc, inp);
      && HeapFile(inp.choice) == (if inp.choice == "2" then "assigner_memory_bench" else "proof_memory_bench")
      && o.commands == [if inp.choice == "2" then AssignerHeap else ProofHeap, MsPrint(HeapFile(inp.choice))]
      && (MassifReport(output).Failure? ==> o.results == r && o.effect == Crashed(MassifReport(output).error))
      && (MassifReport(output).Success? ==>
            var rows, samples := MassifReport(output).value, SampleLines(output);
            var gb := Some(GiB(ColumnSum(rows[..|samples|], Total)));
            && (forall i :: 0 <= i < |samples| ==> ReadFrom(rows[i], Fields(samples[i])))
            && o.effect == Measured
            && o.results == (if inp.choice == "2" then r.(assignerTotalGb := gb) else r.(proofTotalGb := gb)))
  {
    var output := inp.run(MsPrint(HeapFile(inp.choice))).stdout;
    StoredMeasurement(inp);
    if MassifReport(output).Success? {
      ReportRows(output);
      var rows, samples := MassifReport(output).value, SampleLines(output);
      assert rows[|rows| - 1].total == Get(rows[|samples|], Total);
    }
  }

  /** Choices 4 and 5 both start only the proof generator's timing run and store
      the time found in its stderr, `None` when there is none. */
  lemma TimeStep(r: Results, buildSrc: string, inp: Input)
    requires inp.choice == "4" || inp.choice == "5"
    ensures var o, t := Next(r, buildSrc, inp), ExtractAndConvertTime(inp.run(ProofTime).stderr);
      && o.commands == [ProofTime] && o.effect == Measured
      && o.results == (if inp.choice == "4" then r.(assignerTime := t) else r.(proofTime := t))
      && (t.Some? <==> exists i, g :: MatchesWith(inp.run(ProofTime).stderr, i, g))
  {
  }

  /** Choice 4 records, under the assigner's name, exactly the time choice 5
      records for the proof generator. */
  lemma AssignerTimeIsProofTime(r: Results, buildSrc: string, inp: Input)
    requires inp.choice == "4"
    ensures Next(r, buildSrc, inp).results.assignerTime
         == Next(r, buildSrc, inp.(choice := "5")).results.proofTime
  {
  }

  /** No choice starts the assigner's timing run. */
  lemma AssignerTimeNeverRun(r: Results, buildSrc: string, inp: Input)
    ensures AssignerTime !in Next(r, buildSrc, inp).commands
  {
  }

  /** Choices other than 2 to 5 start no command and leave the results alone. */
  lemma ReadOnlyChoice(r: Results, buildSrc: string, inp: Input)
    requires inp.choice !in {"2", "3", "4", "5"}
    ensures Next(r, buildSrc, inp).results == r && Next(r, buildSrc, inp).commands == []
    ensures Next(r, buildSrc, inp).effect ==
              if inp.choice == "1" then BuildChecked(VerifyBuild(buildSrc, inp.files))
              else if inp.choice == "6" then Displayed(Show(r))
              else if inp.choice == "7" then Exited
              else NoEffect
  {
  }

  /** Repeating a choice with the same command outputs changes nothing further. */
  lemma NextIdempotent(r: Results, buildSrc: string, inp: Input)
    ensures var once := Next(r, buildSrc, inp).results;
      Next(once, buildSrc, inp).results == once
  {
  }

  /** Two different choices update different fields, so their order does not matter. */
  lemma NextCommutes(r: Results, buildSrc: string, x: Input, y: Input)
    requires x.choice != y.choice
    ensures Next(Next(r, buildSrc, x).results, buildSrc, y).results
         == Next(Next(r, buildSrc, y).results, buildSrc, x).results
  {
    match (Stored(x), Stored(y))
    case (Some(u), Some(v)) => StoreCommutes(r, x.choice, u, y.choice, v);
    case _ =>
  }

  /** Assignments to the fields of two different choices commute. */
  lemma StoreCommutes(r: Results, c: string, u: Option<real>, d: string, v: Option<real>)
    requires c != d
    ensures Store(Store(r, c, u), d, v) == Store(Store(r, d, v), c, u)
  {
  }

  // ---------------------------------------------------------------------------
  // Properties of the loop

  /** Choice 7 and an exception are the two effects that end the loop. */
  predicate Ends(e: Effect) {
    e.Exited? || e.Crashed?
  }

  /** The shape of a loop that has read `n` inputs or fewer: one effect per input
      read, at least one when there was any, only the last one ending the loop,
      and the stop reason agreeing with that last effect. */
  predicate Shaped(t: Trace, n: nat) {
    && |t.effects| <= n
    && (n > 0 <==> t.effects != [])
    && (forall k :: 0 <= k < |t.effects| - 1 ==> !Ends(t.effects[k]))
    && (t.stop == InputExhausted <==> |t.effects| == n && (t.effects == [] || !Ends(t.effects[|t.effects| - 1])))
    && (t.stop == Exit <==> t.effects != [] && t.effects[|t.effects| - 1].Exited?)
    && (t.stop == Crash <==> t.effects != [] && t.effects[|t.effects| - 1].Crashed?)
  }

  /** A step that does not end the loop, in front of a loop of the right shape. */
  lemma ShapedCons(e: Effect, rest: Trace, n: nat)
    requires !Ends(e) && Shaped(rest, n) && !rest.stop.BuildMissing?
    ensures Shaped(Trace(rest.results, [e] + rest.effects, rest.stop), n + 1)
  {
    var es := [e] + rest.effects;
    assert forall k :: 1 <= k < |es| ==> es[k] == rest.effects[k - 1];
  }

  /** The loop records one effect per input it reads; only the last can end it. */
  lemma {:induction false} ReplayShape(r: Results, buildSrc: string, inputs: seq<Input>)
    ensures Shaped(Replay(r, buildSrc, inputs), |inputs|)
    decreases |inputs|
  {
    if inputs != [] {
      var o := Next(r, buildSrc, inputs[0]);
      if !Ends(o.effect) {
        ReplayShape(o.results, buildSrc, inputs[1..]);
        ShapedCons(o.effect, Replay(o.results, buildSrc, inputs[1..]), |inputs| - 1);
      }
    }
  }

  /** Input after the loop has ended is never read. */
  lemma {:induction false} ReplayStops(r: Results, buildSrc: string, first: seq<Input>, later: seq<Input>)
    requires Replay(r, buildSrc, first).stop != InputExhausted
    ensures Replay(r, buildSrc, first + later) == Replay(r, buildSrc, first)
    decreases |first|
  {
    assert first != [];
    assert (first + later)[0] == first[0];
    assert (first + later)[1..] == first[1..] + later;
    var o := Next(r, buildSrc, first[0]);
    if !o.effect.Exited? && !o.effect.Crashed? {
      ReplayStops(o.results, buildSrc, first[1..], later);
    }
  }

  /** Input the loop did not stop on is processed like a fresh loop that starts
      from the results it left. */
  lemma {:induction false} ReplayContinues(r: Results, buildSrc: string, first: seq<Input>, later: seq<Input>)
    requires Replay(r, buildSrc, first).stop == InputExhausted
    ensures var t, rest := Replay(r, buildSrc, first), Replay(Replay(r, buildSrc, first).results, buildSrc, later);
      Replay(r, buildSrc, first + later) == Trace(rest.results, t.effects + rest.effects, rest.stop)
    decreases |first|
  {
    if first == [] {
      assert first + later == later;
    } else {
      assert (first + later)[0] == first[0];
      assert (first + later)[1..] == first[1..] + later;
      var o := Next(r, buildSrc, first[0]);
      ReplayContinues(o.results, buildSrc, first[1..], later);
      var t := Replay(o.results, buildSrc, first[1..]);
      var rest := Replay(t.results, buildSrc, later);
      assert [o.effect] + (t.effects + rest.effects) == ([o.effect] + t.effects) + rest.effects;
    }
  }

  /** A measurement that reaches its assignment: choices 2 and 3 whose report
      parses, and choices 4 and 5. */
  predicate Measures(inp: Input) {
    inp.choice in {"2", "3", "4", "5"} && (inp.choice in {"2", "3"} ==> HeapReport(inp).Success?)
  }

  /** Such a measurement reports `Measured` and stays in the loop. */
  lemma MeasuredEffect(r: Results, buildSrc: string, inp: Input)
    requires Measures(inp)
    ensures EffectOf(r, buildSrc, inp) == Measured
  {
  }

  /** Every input of `xs` is a measurement that reaches its assignment. */
  predicate Measuring(xs: seq<Input>)
    decreases |xs|
  {
    xs == [] || (Measures(xs[0]) && Measuring(xs[1..]))
  }

  /** The results after a sequence of choices, the first one first. */
  function ApplyAll(r: Results, inputs: seq<Input>): Results
    decreases |inputs|
  {
    if inputs == [] then r else ApplyAll(Apply(r, inputs[0]), inputs[1..])
  }

  /** What a measurement stores when it reaches the assignment. */
  lemma StoredMeasurement(inp: Input)
    ensures (inp.choice == "2" || inp.choice == "3") && HeapReport(inp).Success? ==>
              var rows := HeapReport(inp).value;
              Stored(inp) == Some(Some(GiB(rows[|rows| - 1].total)))
    ensures inp.choice == "4" || inp.choice == "5" ==> Stored(inp) == Some(ExtractAndConvertTime(inp.run(ProofTime).stderr))
  {
  }

  /** The four fields filled in the menu's order make a complete summary. */
  lemma ShowFilled(ag: real, pg: real, at: real, pt: real)
    ensures Show(Store(Store(Store(Store(Unset, "2", Some(ag)), "3", Some(pg)), "4", Some(at)), "5", Some(pt)))
         == Summary(ag, at, pg, pt)
  {
  }

  /** The first input is applied first. */
  lemma ApplyAllCons(r: Results, x: Input, xs: seq<Input>)
    ensures ApplyAll(r, [x] + xs) == ApplyAll(Apply(r, x), xs)
  {
    assert ([x] + xs)[0] == x && ([x] + xs)[1..] == xs;
  }

  /** Four inputs, one step at a time. */
  lemma ApplyFour(r: Results, x2: Input, x3: Input, x4: Input, x5: Input)
    ensures ApplyAll(r, [x2, x3, x4, x5]) == Apply(Apply(Apply(Apply(r, x2), x3), x4), x5)
  {
    var r1 := Apply(r, x2);
    var r2 := Apply(r1, x3);
    var r3 := Apply(r2, x4);
    ConsFour(x2, x3, x4, x5);
    ApplyAllCons(r, x2, [x3, x4, x5]);
    ApplyAllCons(r1, x3, [x4, x5]);
    ApplyAllCons(r2, x4, [x5]);
    ApplyAllCons(r3, x5, []);
  }

  /** A four-element list taken apart one head at a time. */
  lemma ConsFour<T>(a: T, b: T, c: T, d: T)
    ensures [a, b, c, d] == [a] + [b, c, d] && [b, c, d] == [b] + [c, d]
    ensures [c, d] == [c] + [d] && [d] == [d] + []
  {
  }

  /** Once the four quantities are measured, in the menu's order, the results
      show exactly the measured values. */
  lemma AllMeasured(x2: Input, x3: Input, x4: Input, x5: Input)
    requires x2.choice == "2" && x3.choice == "3" && x4.choice == "4" && x5.choice == "5"
    requires HeapReport(x2).Success? && HeapReport(x3).Success?
    requires ExtractAndConvertTime(x4.run(ProofTime).stderr).Some?
    requires ExtractAndConvertTime(x5.run(ProofTime).stderr).Some?
    ensures var a, p := HeapReport(x2).value, HeapReport(x3).value;
      Show(ApplyAll(Unset, [x2, x3, x4, x5]))
        == Summary(GiB(a[|a| - 1].total), ExtractAndConvertTime(x4.run(ProofTime).stderr).value,
                   GiB(p[|p| - 1].total), ExtractAndConvertTime(x5.run(ProofTime).stderr).value)
  {
    var a, p := HeapReport(x2).value, HeapReport(x3).value;
    var t4, t5 := ExtractAndConvertTime(x4.run(ProofTime).stderr), ExtractAndConvertTime(x5.run(ProofTime).stderr);
    StoredMeasurement(x2);
    StoredMeasurement(x3);
    StoredMeasurement(x4);
    StoredMeasurement(x5);
    var r1 := Apply(Unset, x2);
    assert r1 == Store(Unset, "2", Some(GiB(a[|a| - 1].total)));
    var r2 := Apply(r1, x3);
    assert r2 == Store(r1, "3", Some(GiB(p[|p| - 1].total)));
    var r3 := Apply(r2, x4);
    assert r3 == Store(r2, "4", t4);
    var r4 := Apply(r3, x5);
    assert r4 == Store(r3, "5", t5);
    ShowFilled(GiB(a[|a| - 1].total), GiB(p[|p| - 1].total), t4.value, t5.value);
    ApplyFour(Unset, x2, x3, x4, x5);
  }

  /** The effects of `n` measurements. */
  function Measureds(n: nat): seq<Effect> {
    if n == 0 then [] else [Measured] + Measureds(n - 1)
  }

  /** A run of measurements that all reach their assignment records one
      `Measured` each and hands the loop on, with their results, to what follows. */
  lemma {:induction false} ReplayMeasurements(r: Results, buildSrc: string, xs: seq<Input>, later: seq<Input>)
    requires Measuring(xs)
    ensures var rest := Replay(ApplyAll(r, xs), buildSrc, later);
      Replay(r, buildSrc, xs + later) == Trace(rest.results, Measureds(|xs|) + rest.effects, rest.stop)
    decreases |xs|
  {
    if xs == [] {
      NoMeasurements(r, buildSrc, later);
    } else {
      var x, more := xs[0], xs[1..];
      ReplayMeasurements(Apply(r, x), buildSrc, more, later);
      assert ApplyAll(Apply(r, x), more) == ApplyAll(r, xs);
      var t := Replay(ApplyAll(r, xs), buildSrc, later);
      MeasuredStep(r, buildSrc, x, more + later, |more|, t);
      SplitFirst(xs, later);
      assert |more| + 1 == |xs|;
      assert Replay(r, buildSrc, xs + later) == Replay(r, buildSrc, [x] + (more + later));
      assert Replay(r, buildSrc, xs + later) == Trace(t.results, Measureds(|more| + 1) + t.effects, t.stop);
    }
  }

  /** The base case: no measurements in front. */
  lemma NoMeasurements(r: Results, buildSrc: string, later: seq<Input>)
    ensures var rest := Replay(ApplyAll(r, []), buildSrc, later);
      Replay(r, buildSrc, [] + later) == Trace(rest.results, Measureds(0) + rest.effects, rest.stop)
  {
    EmptyPrefix(later);
    EmptyPrefix(Replay(r, buildSrc, later).effects);
  }

  /** The first measurement of a run, in front of the rest of the loop. */
  lemma MeasuredStep(r: Results, buildSrc: string, x: Input, inputs: seq<Input>, n: nat, t: Trace)
    requires Measures(x)
    requires Replay(Apply(r, x), buildSrc, inputs) == Trace(t.results, Measureds(n) + t.effects, t.stop)
    ensures Replay(r, buildSrc, [x] + inputs) == Trace(t.results, Measureds(n + 1) + t.effects, t.stop)
  {
    MeasuredEffect(r, buildSrc, x);
    ReplayPrepend(r, buildSrc, x, inputs, Trace(t.results, Measureds(n) + t.effects, t.stop));
    ConsAssoc(Measured, Measureds(n), t.effects);
  }

  lemma EmptyPrefix<T>(ys: seq<T>)
    ensures [] + ys == ys
  {
  }

  lemma SplitFirst<T>(xs: seq<T>, ys: seq<T>)
    requires xs != []
    ensures xs + ys == [xs[0]] + (xs[1..] + ys)
  {
  }

  lemma AppendAssoc<T>(xs: seq<T>, a: T, ys: seq<T>)
    ensures xs + ([a] + ys) == (xs + [a]) + ys
  {
  }

  lemma ConsAssoc<T>(a: T, xs: seq<T>, ys: seq<T>)
    ensures [a] + (xs + ys) == ([a] + xs) + ys
  {
  }

  /** One input in front of a loop that does not end on it. */
  lemma ReplayPrepend(r: Results, buildSrc: string, x: Input, inputs: seq<Input>, t: Trace)
    requires !Ends(EffectOf(r, buildSrc, x))
    requires Replay(Apply(r, x), buildSrc, inputs) == t
    ensures Replay(r, buildSrc, [x] + inputs) == Trace(t.results, [EffectOf(r, buildSrc, x)] + t.effects, t.stop)
  {
    assert ([x] + inputs)[0] == x && ([x] + inputs)[1..] == inputs;
  }

  /** Measuring all four quantities, in the menu's order, and then asking for the
      results shows exactly the measured values. */
  lemma FullBenchmark(buildSrc: string, x2: Input, x3: Input, x4: Input, x5: Input, x6: Input)
    requires x2.choice == "2" && x3.choice == "3" && x4.choice == "4" && x5.choice == "5" && x6.choice == "6"
    requires HeapReport(x2).Success? && HeapReport(x3).Success?
    requires ExtractAndConvertTime(x4.run(ProofTime).stderr).Some?
    requires ExtractAndConvertTime(x5.run(ProofTime).stderr).Some?
    ensures var t := Replay(Unset, buildSrc, [x2, x3, x4, x5, x6]);
      var a, p := HeapReport(x2).value, HeapReport(x3).value;
      && t.stop == InputExhausted
      && t.effects == [Measured, Measured, Measured, Measured,
                       Displayed(Summary(GiB(a[|a| - 1].total), ExtractAndConvertTime(x4.run(ProofTime).stderr).value,
                                         GiB(p[|p| - 1].total), ExtractAndConvertTime(x5.run(ProofTime).stderr).value))]
  {
    var xs := [x2, x3, x4, x5];
    MeasuringFour(x2, x3, x4, x5);
    ReplayMeasurements(Unset, buildSrc, xs, [x6]);
    var r4 := ApplyAll(Unset, xs);
    ReplayDisplay(r4, buildSrc, x6);
    AllMeasured(x2, x3, x4, x5);
    AppendFifth(x2, x3, x4, x5, x6);
    MeasuredsFour();
    var d := Displayed(Show(r4));
    assert Replay(Unset, buildSrc, [x2, x3, x4, x5, x6]) == Trace(r4, Measureds(4) + [d], InputExhausted);
    AppendFifth(Measured, Measured, Measured, Measured, d);
  }

  lemma MeasuringFour(x2: Input, x3: Input, x4: Input, x5: Input)
    requires Measures(x2) && Measures(x3) && Measures(x4) && Measures(x5)
    ensures Measuring([x2, x3, x4, x5])
  {
    assert [x5][1..] == [];
    assert Measuring([x5]);
    assert [x4, x5][1..] == [x5];
    assert Measuring([x4, x5]);
    assert [x3, x4, x5][1..] == [x4, x5];
    assert Measuring([x3, x4, x5]);
    assert [x2, x3, x4, x5][1..] == [x3, x4, x5];
  }

  lemma MeasuredsFour()
    ensures Measureds(4) == [Measured, Measured, Measured, Measured]
  {
  }

  lemma AppendFifth<T>(a: T, b: T, c: T, d: T, e: T)
    ensures [a, b, c, d] + [e] == [a, b, c, d, e]
  {
  }

  /** Choice 6 as the last input shows the results and leaves them as they are. */
  lemma ReplayDisplay(r: Results, buildSrc: string, x: Input)
    requires x.choice == "6"
    ensures Replay(r, buildSrc, [x]) == Trace(r, [Displayed(Show(r))], InputExhausted)
  {
    assert [x][1..] == [];
  }


  // ---------------------------------------------------------------------------
  // The tool object

  class BenchmarkTool {
    const templatePath: string
    const buildSrc: string
    var assignerTotalGb: Option<real>
    var proofTotalGb: Option<real>
    var assignerFormattedTime: Option<real>
    var proofFormattedTime: Option<real>

    /** `__init__`: the paths derived from the template directory, and no results yet. */
    constructor(templatePath: string)
      ensures this.templatePath == templatePath && buildSrc == BuildSrc(templatePath)
      ensures Snapshot() == Unset
    {
      this.templatePath := templatePath;
      buildSrc := BuildSrc(templatePath);
      assignerTotalGb := None;
      proofTotalGb := None;
      assignerFormattedTime := None;
      proofFormattedTime := None;
    }

    /** The four result fields as a value. */
    function Snapshot(): Results
      reads this
    {
      Results(assignerTotalGb, proofTotalGb, assignerFormattedTime, proofFormattedTime)
    }

    /** One pass of the menu loop body. */
    method Step(inp: Input) returns (effect: Effect, commands: seq<Command>)
      modifies this
      ensures Snapshot() == Next(old(Snapshot()), buildSrc, inp).results
      ensures effect == Next(old(Snapshot()), buildSrc, inp).effect
      ensures commands == Next(old(Snapshot()), buildSrc, inp).commands
    {
      var choice := inp.choice;
      if Key(choice) == '1' {
        effect, commands := BuildChecked(VerifyBuild(buildSrc, inp.files)), [];
      } else if Key(choice) == '2' {
        var _ := inp.run(AssignerHeap);
        var output := inp.run(MsPrint("assigner_memory_bench")).stdout;
        var table := ProcessMassifOutput(output);
        commands := [AssignerHeap, MsPrint("assigner_memory_bench")];
        if table.Failure? {
          effect := Crashed(table.error);
          return;
        }
        var rows := table.value;
        assignerTotalGb := Some(GiB(rows[|rows| - 1].total));
        effect := Measured;
      } else if Key(choice) == '3' {
        var _ := inp.run(ProofHeap);
        var output := inp.run(MsPrint("proof_memory_bench")).stdout;
        var table := ProcessMassifOutput(output);
        commands := [ProofHeap, MsPrint("proof_memory_bench")];
        if table.Failure? {
          effect := Crashed(table.error);
          return;
        }
        var rows := table.value;
        proofTotalGb := Some(GiB(rows[|rows| - 1].total));
        effect := Measured;
      } else if Key(choice) == '4' {
        var assignerTime := inp.run(ProofTime).stderr;
        assignerFormattedTime := ExtractAndConvertTime(assignerTime);
        effect, commands := Measured, [ProofTime];
      } else if Key(choice) == '5' {
        var proofTime := inp.run(ProofTime).stderr;
        proofFormattedTime := ExtractAndConvertTime(proofTime);
        effect, commands := Measured, [ProofTime];
      } else if Key(choice) == '6' {
        effect, commands := Displayed(Show(Snapshot())), [];
      } else if Key(choice) == '7' {
        effect, commands := Exited, [];
      } else {
        effect, commands := NoEffect, [];
      }
    }

    /** `run`: refuse to start on a broken build, otherwise loop over the inputs
      until choice 7, an exception, or the end of the input. */
    method Run(files: set<string>, inputs: seq<Input>) returns (effects: seq<Effect>, stop: Stop)
      modifies this
      ensures Trace(Snapshot(), effects, stop) == RunSession(old(Snapshot()), buildSrc, files, inputs)
    {
      var check := VerifyBuild(buildSrc, files);
      if !check.ok {
        return [], BuildMissing(check.missing);
      }
      effects := [];
      var i := 0;
      while i < |inputs|
        invariant 0 <= i <= |inputs|
        invariant var rest := Replay(Snapshot(), buildSrc, inputs[i..]);
          Replay(old(Snapshot()), buildSrc, inputs) == Trace(rest.results, effects + rest.effects, rest.stop)
      {
        ReplayNext(Snapshot(), buildSrc, inputs, i);
        var effect, _ := Step(inputs[i]);
        AppendAssoc(effects, effect, Replay(Snapshot(), buildSrc, inputs[i + 1..]).effects);
        effects := effects + [effect];
        if effect.Exited? {
          return effects, Exit;
        }
        if effect.Crashed? {
          return effects, Crash;
        }
        i := i + 1;
      }
      stop := InputExhausted;
    }
  }
}
