/** The driver of the morph stage (`main` of the morph-validate-SAM
    script): which (scenario, year) jobs it runs, in which order, and the
    results table, log files and morphed CSVs it leaves behind. The
    photovoltaic simulation (PySAM) is an oracle that maps a CSV to its
    outputs or to an error message; so are the text of an exception and
    the JSON dump of a result. */
module Pipeline {
  import opened Wrappers
  import opened Text
  import opened Climatology
  import opened Morph

  const SCENARIOS: seq<string> := ["ssp245", "ssp585"]

  /** The first year of the projections; earlier years are historical. */
  const FUTURE_START := 2015

  /** `range(1994, 2055)`. */
  function Years(): (ys: seq<int>)
    ensures |ys| == 61
    ensures forall i :: 0 <= i < |ys| ==> ys[i] == 1994 + i
  {
    seq(61, i => 1994 + i)
  }

  // ---------------------------------------------------------------
  // The scenario rule
  // ---------------------------------------------------------------

  /** The `ssp` field of a result and the middle of its log name. */
  function Label(ssp: string, year: int): string
  {
    if year < FUTURE_START then "historical" else ssp
  }

  /** The scenario used to look up NEX files, the output subdirectory and
      the result label agree: "historical" exactly before 2015, the given
      scenario from 2015 on. */
  lemma ScenarioRule(ssp: string, year: int)
    requires ssp != "historical"
    ensures LookupScenario(ssp, year) == OutputSubdir(ssp, year) == Label(ssp, year)
    ensures Label(ssp, year) == "historical" <==> year < 2015
    ensures year >= 2015 ==> Label(ssp, year) == ssp
  {
  }

  /** Historical years are run for the first scenario only. */
  predicate Skipped(first: string, ssp: string, year: int)
  {
    year < FUTURE_START && ssp != first
  }

  /** The jobs of one scenario, in year order. */
  function YearJobs(first: string, ssp: string, years: seq<int>): (js: seq<(string, int)>)
    ensures |js| <= |years|
    ensures forall j :: j in js <==> j.0 == ssp && j.1 in years && !Skipped(first, ssp, j.1)
  {
    if years == [] then []
    else
      var y := years[|years| - 1];
      assert years == years[..|years| - 1] + [y];
      YearJobs(first, ssp, years[..|years| - 1]) + (if Skipped(first, ssp, y) then [] else [(ssp, y)])
  }

  /** The jobs of the scenarios `scens`, scenario by scenario. */
  function JobsOf(first: string, scens: seq<string>, years: seq<int>): (js: seq<(string, int)>)
    ensures forall j :: j in js <==> j.0 in scens && j.1 in years && !Skipped(first, j.0, j.1)
  {
    if scens == [] then []
    else
      var s := scens[|scens| - 1];
      assert scens == scens[..|scens| - 1] + [s];
      JobsOf(first, scens[..|scens| - 1], years) + YearJobs(first, s, years)
  }

  /** Every (scenario, year) pair `main` runs, in the order it runs them. */
  function Jobs(scenarios: seq<string>, years: seq<int>): seq<(string, int)>
  {
    if scenarios == [] then [] else JobsOf(scenarios[0], scenarios, years)
  }

  /** A pair is run exactly when its scenario and year are listed and the
      year is not historical under a later scenario. */
  lemma JobsMembership(scenarios: seq<string>, years: seq<int>, ssp: string, year: int)
    ensures (ssp, year) in Jobs(scenarios, years) <==>
      && ssp in scenarios && year in years
      && (year >= 2015 || ssp == scenarios[0])
  {
  }

  predicate NoDuplicates<T(==)>(s: seq<T>)
  {
    forall i, j :: 0 <= i < j < |s| ==> s[i] != s[j]
  }

  lemma {:induction false} YearJobsNoDuplicates(first: string, ssp: string, years: seq<int>)
    requires NoDuplicates(years)
    ensures NoDuplicates(YearJobs(first, ssp, years))
  {
    if years != [] {
      var init := years[..|years| - 1];
      var y := years[|years| - 1];
      YearJobsNoDuplicates(first, ssp, init);
      forall k | 0 <= k < |init| ensures init[k] != y {
        assert init[k] == years[k];
      }
    }
  }

  lemma {:induction false} JobsOfNoDuplicates(first: string, scens: seq<string>, years: seq<int>)
    requires NoDuplicates(scens) && NoDuplicates(years)
    ensures NoDuplicates(JobsOf(first, scens, years))
  {
    if scens != [] {
      var init := scens[..|scens| - 1];
      var s := scens[|scens| - 1];
      JobsOfNoDuplicates(first, init, years);
      YearJobsNoDuplicates(first, s, years);
      forall k | 0 <= k < |init| ensures init[k] != s {
        assert init[k] == scens[k];
      }
      var a := JobsOf(first, init, years);
      var b := YearJobs(first, s, years);
      forall i, j | 0 <= i < j < |a + b| ensures (a + b)[i] != (a + b)[j] {
        if i < |a| && j >= |a| {
          assert (a + b)[i] in a && (a + b)[j] in b;
        }
      }
    }
  }

  /** With distinct scenarios and years, no pair is run twice. */
  lemma JobsNoDuplicates(scenarios: seq<string>, years: seq<int>)
    requires NoDuplicates(scenarios) && NoDuplicates(years)
    ensures NoDuplicates(Jobs(scenarios, years))
  {
    if scenarios != [] {
      JobsOfNoDuplicates(scenarios[0], scenarios, years);
    }
  }

  // ---------------------------------------------------------------
  // One job
  // ---------------------------------------------------------------

  /** What PySAM reports for one CSV. */
  datatype SamOutput = SamOutput(arquivo: string, annualMwh: real, capacityFactor: real,
                                 acMonthlyKwh: seq<real>, tempoS: real)

  /** One entry of `results`: the SAM outputs on success, the error
      message otherwise. */
  datatype Record = Record(modelo: string, ssp: string, ano: int, sam: Option<SamOutput>, erro: Option<string>)

  /** What `main` cannot see: the inputs of every morph, PySAM, the text
      of an exception and the JSON dump of a result. */
  datatype Env = Env(inputs: Inputs, sam: (string, Table) -> Result<SamOutput, string>,
                     describe: MorphError -> string, dumps: Record -> string)

  /** The CSV a job wrote (path and contents), its result and its log. */
  datatype Attempt = Attempt(written: Option<(string, Table)>, record: Record, logName: string, logText: string)

  /** `log_{label}_{year}.txt`. */
  function LogName(ssp: string, year: int): string
  {
    "log_" + Label(ssp, year) + "_" + IntToString(year) + ".txt"
  }

  /** The whole log of a failed job. */
  function ErrorLog(msg: string): string
  {
    "ERRO: " + msg + "\n"
  }

  /** The label and the year can be read back from a log name whose year
      has four digits. */
  lemma FramedEqual(a1: string, y1: string, a2: string, y2: string)
    requires |y1| == 4 && |y2| == 4
    requires "log_" + a1 + "_" + y1 + ".txt" == "log_" + a2 + "_" + y2 + ".txt"
    ensures a1 == a2 && y1 == y2
  {
    var s := "log_" + a1 + "_" + y1 + ".txt";
    var t := "log_" + a2 + "_" + y2 + ".txt";
    assert |a1| == |a2|;
    assert s[4..4 + |a1|] == a1;
    assert t[4..4 + |a2|] == a2;
    assert s[5 + |a1|..9 + |a1|] == y1;
    assert t[5 + |a2|..9 + |a2|] == y2;
  }

  /** Two jobs of four-digit years share a log name only when they share
      the label and the year. */
  lemma LogNameInjective(ssp1: string, year1: int, ssp2: string, year2: int)
    requires 1000 <= year1 < 10000 && 1000 <= year2 < 10000
    ensures LogName(ssp1, year1) == LogName(ssp2, year2) ==>
              Label(ssp1, year1) == Label(ssp2, year2) && year1 == year2
  {
    if LogName(ssp1, year1) == LogName(ssp2, year2) {
      Pad4Equals(year1);
      Pad4Equals(year2);
      FramedEqual(Label(ssp1, year1), IntToString(year1), Label(ssp2, year2), IntToString(year2));
      IntToStringRoundTrip(year1);
      IntToStringRoundTrip(year2);
    }
  }

  /** A failed job: the result with its message and the `ERRO` log. */
  function Failed(written: Option<(string, Table)>, ssp: string, year: int, msg: string): (a: Attempt)
    ensures a.record.erro == Some(msg) && a.record.sam.None?
    ensures a.logText == ErrorLog(msg)
  {
    Attempt(written, Record(MODEL, Label(ssp, year), year, None, Some(msg)), LogName(ssp, year), ErrorLog(msg))
  }

  /** The year loop's body once `morph_one_year` has returned `m`:
      validate what was written, run PySAM; the first failure is logged
      as `ERRO: <message>`, a success as the JSON dump of its result. */
  function AfterMorph(ssp: string, year: int, m: Result<(string, seq<Hour>), MorphError>, env: Env): (a: Attempt)
    requires m.Ok? ==> RealDates(m.value.1)
    ensures a.record.modelo == MODEL && a.record.ssp == Label(ssp, year) && a.record.ano == year
    ensures a.logName == LogName(ssp, year)
  {
    if m.Err? then Failed(None, ssp, year, env.describe(m.error))
    else
      var t := ToTable(m.value.1);
      var w := Some((m.value.0, t));
      var v := Validate(t);
      if v.Err? then Failed(w, ssp, year, env.describe(v.error))
      else
        var s := env.sam(m.value.0, t);
        if s.Err? then Failed(w, ssp, year, "SAM falhou: " + s.error)
        else
          var rec := Record(MODEL, Label(ssp, year), year, Some(s.value), None);
          Attempt(w, rec, LogName(ssp, year), env.dumps(rec))
  }

  /** One pass of the year loop's body. */
  function AttemptOf(ssp: string, year: int, env: Env): (a: Attempt)
    ensures a.record.modelo == MODEL && a.record.ssp == Label(ssp, year) && a.record.ano == year
    ensures a.logName == LogName(ssp, year)
  {
    MorphOneYearSpec(ssp, year, env.inputs);
    AfterMorph(ssp, year, MorphOneYear(ssp, year, env.inputs), env)
  }

  /** The attempt of a job is what follows the morph it returned. */
  lemma AttemptOfMorph(ssp: string, year: int, env: Env, m: Result<(string, seq<Hour>), MorphError>)
    requires m == MorphOneYear(ssp, year, env.inputs)
    ensures m.Ok? ==> RealDates(m.value.1)
    ensures AttemptOf(ssp, year, env) == AfterMorph(ssp, year, m, env)
  {
    MorphOneYearSpec(ssp, year, env.inputs);
  }

  /** A job's result has no error exactly when the morph, the validation
      of the written CSV and PySAM all succeed, and then it carries the
      SAM outputs; the log of a failure is `ERRO: <message>` with the
      message of the result, that of a success the dump of the result. */
  lemma AfterMorphOutcome(ssp: string, year: int, m: Result<(string, seq<Hour>), MorphError>, env: Env)
    requires m.Ok? ==> RealDates(m.value.1)
    ensures var a := AfterMorph(ssp, year, m, env);
      && (a.record.erro.None? <==> a.record.sam.Some?)
      && (a.record.erro.None? <==>
            m.Ok? && Validate(ToTable(m.value.1)).Ok? && env.sam(m.value.0, ToTable(m.value.1)).Ok?)
      && (a.record.erro.Some? ==> a.logText == ErrorLog(a.record.erro.value))
      && (a.record.erro.None? ==> a.logText == env.dumps(a.record))
  {
  }

  /** The morphed CSV is written exactly when the morph succeeds, at the
      path it returns, with the profile it returns; a failed morph reports
      its own error, a failed validation its own. */
  lemma AfterMorphWrites(ssp: string, year: int, m: Result<(string, seq<Hour>), MorphError>, env: Env)
    requires m.Ok? ==> RealDates(m.value.1)
    ensures var a := AfterMorph(ssp, year, m, env);
      && (a.written.Some? <==> m.Ok?)
      && (m.Ok? ==> a.written == Some((m.value.0, ToTable(m.value.1))))
      && (m.Err? ==> a.record.erro == Some(env.describe(m.error)))
      && (m.Ok? && Validate(ToTable(m.value.1)).Err? ==>
            a.record.erro == Some(env.describe(Validate(ToTable(m.value.1)).error)))
  {
  }

  /** The CSV of a successful morph lands at the output path of its
      scenario and year. */
  lemma AttemptWritesOutputPath(ssp: string, year: int, env: Env)
    ensures var a := AttemptOf(ssp, year, env);
      a.written.Some? ==> a.written.value.0 == OutputPath(ssp, year)
  {
    MorphOneYearSpec(ssp, year, env.inputs);
    AfterMorphWrites(ssp, year, MorphOneYear(ssp, year, env.inputs), env);
  }

  /** When the morph yields 8760 hours and no NaN, validation passes and
      PySAM alone decides the outcome. */
  lemma CleanMorphReachesSam(ssp: string, year: int, m: Result<(string, seq<Hour>), MorphError>, env: Env)
    requires m.Ok? && RealDates(m.value.1) && |m.value.1| == 8760
    requires forall i :: 0 <= i < |m.value.1| ==> NoNaN(m.value.1[i])
    ensures AfterMorph(ssp, year, m, env).record.erro.None? <==> env.sam(m.value.0, ToTable(m.value.1)).Ok?
  {
    ValidateWritten(m.value.1);
    AfterMorphOutcome(ssp, year, m, env);
  }

  // ---------------------------------------------------------------
  // The whole run
  // ---------------------------------------------------------------

  /** The results so far, the log directory and the morphed CSVs. */
  datatype State = State(results: seq<Record>, logs: map<string, string>, csvs: map<string, Table>)

  /** One job appends its result, (over)writes its log and writes its CSV
      when the morph got that far. */
  function Step(s: State, a: Attempt): State
  {
    State(s.results + [a.record], s.logs[a.logName := a.logText],
          if a.written.Some? then s.csvs[a.written.value.0 := a.written.value.1] else s.csvs)
  }

  /** The state after the attempts `atts`, in order, from `s`. */
  function Apply(s: State, atts: seq<Attempt>): State
  {
    if atts == [] then s else Step(Apply(s, atts[..|atts| - 1]), atts[|atts| - 1])
  }

  function Attempts(jobs: seq<(string, int)>, env: Env): (atts: seq<Attempt>)
    ensures |atts| == |jobs|
    ensures forall i :: 0 <= i < |jobs| ==> atts[i] == AttemptOf(jobs[i].0, jobs[i].1, env)
  {
    seq(|jobs|, i requires 0 <= i < |jobs| => AttemptOf(jobs[i].0, jobs[i].1, env))
  }

  /** The state after running `jobs` in order from `s`. */
  function RunJobs(s: State, jobs: seq<(string, int)>, env: Env): State
  {
    Apply(s, Attempts(jobs, env))
  }

  /** One result per attempt, in order, after the results already there. */
  lemma {:induction false} ApplyResults(s: State, atts: seq<Attempt>)
    ensures var r := Apply(s, atts).results;
      && |r| == |s.results| + |atts|
      && r[..|s.results|] == s.results
      && forall i :: 0 <= i < |atts| ==> r[|s.results| + i] == atts[i].record
  {
    if atts != [] {
      ApplyResults(s, atts[..|atts| - 1]);
    }
  }

  /** The log directory gains exactly the attempts' log names. */
  lemma {:induction false} ApplyLogNames(s: State, atts: seq<Attempt>)
    ensures forall n :: n in Apply(s, atts).logs <==> n in s.logs || n in LogNames(atts)
  {
    if atts != [] {
      ApplyLogNames(s, atts[..|atts| - 1]);
      assert LogNames(atts) == LogNames(atts[..|atts| - 1]) + [atts[|atts| - 1].logName];
    }
  }

  function LogNames(atts: seq<Attempt>): (ns: seq<string>)
    ensures |ns| == |atts| && forall i :: 0 <= i < |atts| ==> ns[i] == atts[i].logName
  {
    seq(|atts|, i requires 0 <= i < |atts| => atts[i].logName)
  }

  /** When no two attempts share a log name, each log holds exactly what
      its attempt wrote. */
  lemma {:induction false} ApplyLogs(s: State, atts: seq<Attempt>)
    requires NoDuplicates(LogNames(atts))
    ensures forall i :: 0 <= i < |atts| ==>
      atts[i].logName in Apply(s, atts).logs && Apply(s, atts).logs[atts[i].logName] == atts[i].logText
  {
    ApplyLogNames(s, atts);
    assert forall i :: 0 <= i < |atts| ==> LogNames(atts)[i] == atts[i].logName;
    if atts != [] {
      var init := atts[..|atts| - 1];
      assert NoDuplicates(LogNames(init)) by {
        forall i, j | 0 <= i < j < |init| ensures LogNames(init)[i] != LogNames(init)[j] {
          assert LogNames(atts)[i] != LogNames(atts)[j];
        }
      }
      ApplyLogs(s, init);
      forall i | 0 <= i < |init| ensures atts[i].logName != atts[|atts| - 1].logName {
        assert LogNames(atts)[i] != LogNames(atts)[|atts| - 1];
      }
    }
  }

  /** Running one more job is one more step. */
  lemma RunJobsSnoc(s: State, jobs: seq<(string, int)>, x: (string, int), env: Env)
    ensures RunJobs(s, jobs + [x], env) == Step(RunJobs(s, jobs, env), AttemptOf(x.0, x.1, env))
  {
    var atts := Attempts(jobs + [x], env);
    assert atts[..|atts| - 1] == Attempts(jobs, env);
  }

  /** One more year of a scenario's loop runs its job, unless the year
      is skipped. */
  lemma RunYearJobsSnoc(s: State, first: string, ssp: string, years: seq<int>, j: nat, env: Env)
    requires j < |years|
    ensures RunJobs(s, YearJobs(first, ssp, years[..j + 1]), env) ==
      if Skipped(first, ssp, years[j]) then RunJobs(s, YearJobs(first, ssp, years[..j]), env)
      else Step(RunJobs(s, YearJobs(first, ssp, years[..j]), env), AttemptOf(ssp, years[j], env))
  {
    assert years[..j + 1][..j] == years[..j];
    var prev := YearJobs(first, ssp, years[..j]);
    if Skipped(first, ssp, years[j]) {
      assert YearJobs(first, ssp, years[..j + 1]) == prev;
    } else {
      assert YearJobs(first, ssp, years[..j + 1]) == prev + [(ssp, years[j])];
      RunJobsSnoc(s, prev, (ssp, years[j]), env);
    }
  }

  lemma {:induction false} ApplyAppend(s: State, x: seq<Attempt>, y: seq<Attempt>)
    ensures Apply(s, x + y) == Apply(Apply(s, x), y)
  {
    if y == [] {
      assert x + y == x;
    } else {
      var init := y[..|y| - 1];
      ApplyAppend(s, x, init);
      assert (x + y)[..|x + y| - 1] == x + init;
    }
  }

  /** Running two lists of jobs one after the other is running their
      concatenation. */
  lemma RunJobsAppend(s: State, a: seq<(string, int)>, b: seq<(string, int)>, env: Env)
    ensures RunJobs(s, a + b, env) == RunJobs(RunJobs(s, a, env), b, env)
  {
    assert Attempts(a + b, env) == Attempts(a, env) + Attempts(b, env);
    ApplyAppend(s, Attempts(a, env), Attempts(b, env));
  }

  /** `results` holds one entry per job, in job order. */
  lemma RunJobsResults(s: State, jobs: seq<(string, int)>, env: Env)
    ensures var r := RunJobs(s, jobs, env).results;
      && |r| == |s.results| + |jobs|
      && forall i :: 0 <= i < |jobs| ==> r[|s.results| + i] == AttemptOf(jobs[i].0, jobs[i].1, env).record
  {
    ApplyResults(s, Attempts(jobs, env));
  }

  /** When no two jobs share a log name, each job's log holds exactly
      what that job wrote. */
  lemma RunJobsLogs(s: State, jobs: seq<(string, int)>, env: Env)
    requires forall i, j :: 0 <= i < j < |jobs| ==> LogName(jobs[i].0, jobs[i].1) != LogName(jobs[j].0, jobs[j].1)
    ensures forall i :: 0 <= i < |jobs| ==>
      LogName(jobs[i].0, jobs[i].1) in RunJobs(s, jobs, env).logs &&
      RunJobs(s, jobs, env).logs[LogName(jobs[i].0, jobs[i].1)] == AttemptOf(jobs[i].0, jobs[i].1, env).logText
  {
    var atts := Attempts(jobs, env);
    ApplyLogNames(s, atts);
    ApplyLogs(s, atts);
    forall i | 0 <= i < |jobs| ensures LogName(jobs[i].0, jobs[i].1) in LogNames(atts) {
      assert LogNames(atts)[i] == LogName(jobs[i].0, jobs[i].1);
    }
  }

  /** With distinct scenarios, none named "historical", and distinct
      four-digit years, no two jobs share a log name, so every job's log
      survives the run. */
  lemma JobsLogNamesDistinct(scenarios: seq<string>, years: seq<int>)
    requires NoDuplicates(scenarios) && NoDuplicates(years)
    requires "historical" !in scenarios
    requires forall i :: 0 <= i < |years| ==> 1000 <= years[i] < 10000
    ensures var jobs := Jobs(scenarios, years);
      forall i, j :: 0 <= i < j < |jobs| ==> LogName(jobs[i].0, jobs[i].1) != LogName(jobs[j].0, jobs[j].1)
  {
    var jobs := Jobs(scenarios, years);
    JobsNoDuplicates(scenarios, years);
    forall i, j | 0 <= i < j < |jobs| ensures LogName(jobs[i].0, jobs[i].1) != LogName(jobs[j].0, jobs[j].1) {
      var a, b := jobs[i], jobs[j];
      assert a in jobs && b in jobs;
      JobsMembership(scenarios, years, a.0, a.1);
      JobsMembership(scenarios, years, b.0, b.1);
      LogNameInjective(a.0, a.1, b.0, b.1);
    }
  }

  /** Under the configured scenarios and years every job's log survives
      the run with what that job wrote. */
  lemma ConfiguredRunKeepsEveryLog(scenarios: seq<string>, years: seq<int>, s: State, env: Env)
    requires scenarios == SCENARIOS && years == Years()
    ensures var jobs := Jobs(scenarios, years);
      forall i :: 0 <= i < |jobs| ==>
        LogName(jobs[i].0, jobs[i].1) in RunJobs(s, jobs, env).logs &&
        RunJobs(s, jobs, env).logs[LogName(jobs[i].0, jobs[i].1)] == AttemptOf(jobs[i].0, jobs[i].1, env).logText
  {
    assert NoDuplicates(years);
    assert NoDuplicates(scenarios);
    JobsLogNamesDistinct(scenarios, years);
    RunJobsLogs(s, Jobs(scenarios, years), env);
  }

  /** The driver. `results` starts empty; the log directory and the
      morphed CSVs persist between runs. */
  class Runner {
    var results: seq<Record>
    var logs: map<string, string>
    var csvs: map<string, Table>

    constructor(logs0: map<string, string>, csvs0: map<string, Table>)
      ensures results == [] && logs == logs0 && csvs == csvs0
    {
      results := [];
      logs := logs0;
      csvs := csvs0;
    }

    function Snapshot(): State
      reads this
    {
      State(results, logs, csvs)
    }

    /** Records a failure: the result with its message and the `ERRO` log. */
    method Fail(ssp: string, year: int, msg: string)
      modifies this
      ensures results == old(results) + [Record(MODEL, Label(ssp, year), year, None, Some(msg))]
      ensures logs == old(logs)[LogName(ssp, year) := ErrorLog(msg)]
      ensures csvs == old(csvs)
    {
      results := results + [Record(MODEL, Label(ssp, year), year, None, Some(msg))];
      logs := logs[LogName(ssp, year) := ErrorLog(msg)];
    }

    /** One pass of the year loop's body. */
    method RunYear(ssp: string, year: int, env: Env)
      modifies this
      ensures Snapshot() == Step(old(Snapshot()), AttemptOf(ssp, year, env))
    {
      var m := RunMorphOneYear(ssp, year, env.inputs);
      AttemptOfMorph(ssp, year, env, m);
      Finish(ssp, year, m, env);
    }

    /** The year loop's body once `morph_one_year` has returned `m`. */
    method Finish(ssp: string, year: int, m: Result<(string, seq<Hour>), MorphError>, env: Env)
      requires m.Ok? ==> RealDates(m.value.1)
      modifies this
      ensures Snapshot() == Step(old(Snapshot()), AfterMorph(ssp, year, m, env))
    {
      if m.Err? {
        Fail(ssp, year, env.describe(m.error));
        return;
      }
      var path := m.value.0;
      var table := ToTable(m.value.1);
      csvs := csvs[path := table];
      var v := Validate(table);
      if v.Err? {
        Fail(ssp, year, env.describe(v.error));
        return;
      }
      var s := env.sam(path, table);
      if s.Err? {
        Fail(ssp, year, "SAM falhou: " + s.error);
        return;
      }
      var rec := Record(MODEL, Label(ssp, year), year, Some(s.value), None);
      results := results + [rec];
      logs := logs[LogName(ssp, year) := env.dumps(rec)];
    }

    /** The year loop of one scenario. */
    method RunScenario(first: string, ssp: string, years: seq<int>, env: Env)
      modifies this
      ensures Snapshot() == RunJobs(old(Snapshot()), YearJobs(first, ssp, years), env)
    {
      ghost var start := Snapshot();
      assert years[..0] == [];
      var j := 0;
      while j < |years|
        invariant 0 <= j <= |years|
        invariant Snapshot() == RunJobs(start, YearJobs(first, ssp, years[..j]), env)
      {
        var year := years[j];
        RunYearJobsSnoc(start, first, ssp, years, j, env);
        if !Skipped(first, ssp, year) {
          RunYear(ssp, year, env);
        }
        j := j + 1;
      }
      assert years[..|years|] == years;
    }

    /** The nested scenario and year loops of `main`. */
    method RunAll(scenarios: seq<string>, years: seq<int>, env: Env)
      modifies this
      ensures Snapshot() == RunJobs(State([], old(logs), old(csvs)), Jobs(scenarios, years), env)
    {
      results := [];
      if scenarios == [] {
        return;
      }
      ghost var init := Snapshot();
      var first := scenarios[0];
      assert scenarios[..0] == [];
      var k := 0;
      while k < |scenarios|
        invariant 0 <= k <= |scenarios|
        invariant Snapshot() == RunJobs(init, JobsOf(first, scenarios[..k], years), env)
      {
        RunJobsAppend(init, JobsOf(first, scenarios[..k], years), YearJobs(first, scenarios[k], years), env);
        RunScenario(first, scenarios[k], years, env);
        assert scenarios[..k + 1][..k] == scenarios[..k];
        k := k + 1;
      }
      assert scenarios[..|scenarios|] == scenarios;
    }
  }
}
