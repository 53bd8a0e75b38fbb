/**
 The resumable benchmark run (crates/execution/src/benchmark.rs): after every stage the whole run state
 replaces one file atomically, and an attempt starts from what a compatible file already holds. An attempt
 may fail, or the process may die, at any stage and on either side of a replacement. What a
 measurement is does not matter here, and reading a written state back returns it.
 */
module BenchmarkRun {
  import opened AtomicFile
  import opened Wire

  /** The samples and statistics of one measured stage. */
  type Measurement(==, !new)

  const ARTIFACT_VERSION := 5
  const PAYLOAD_BYTES := [32, 4096, 65536]

  datatype Config = Config(iterations: nat, warmupIterations: nat)
  datatype Host = Host(nodeBinary: string, nodeVersion: string, os: string, arch: string, logicalCpus: nat)

  /** What an attempt is started with. */
  datatype Key = Key(config: Config, host: Host, root: string)

  datatype Definition = Definition(id: string, workload: string, runtime: string, mode: string)
  datatype Rtt = Rtt(payloadBytes: nat, measured: Measurement)
  datatype Stored = Stored(id: string, measured: Measurement)

  /** `StoredBenchmarkRunState`. */
  datatype RunState = RunState(version: nat, key: Key, transport: Option<seq<Rtt>>, scenarios: seq<Stored>)

  datatype File = Absent | Unreadable | Garbage | Holds(state: RunState)

  datatype ScenarioReport = ScenarioReport(definition: Definition, measured: Measurement)
  datatype Report = Report(key: Key, transport: seq<Rtt>, scenarios: seq<ScenarioReport>)

  datatype Stage = Transport | Scenario(id: string)

  predicate DistinctIds(defs: seq<Definition>) {
    forall i, j :: 0 <= i < j < |defs| ==> defs[i].id != defs[j].id
  }

  // ---------------------------------------------------------------------
  // The run state
  // ---------------------------------------------------------------------

  function NewState(key: Key): (st: RunState) {
    RunState(ARTIFACT_VERSION, key, None, [])
  }

  predicate IsCompatible(st: RunState, key: Key) {
    st.version == ARTIFACT_VERSION && st.key == key
  }

  function Payloads(reports: seq<Rtt>): (p: seq<nat>)
    ensures |p| == |reports|
  {
    seq(|reports|, i requires 0 <= i < |reports| => reports[i].payloadBytes)
  }

  /** What an ordered map collected from the scenarios holds for an id: the last entry. */
  function Last(scenarios: seq<Stored>, id: string): (m: Option<Measurement>) {
    if scenarios == [] then None
    else if scenarios[|scenarios| - 1].id == id then Some(scenarios[|scenarios| - 1].measured)
    else Last(scenarios[..|scenarios| - 1], id)
  }

  predicate HasScenario(st: RunState, id: string) {
    exists i :: 0 <= i < |st.scenarios| && st.scenarios[i].id == id
  }

  /** The stored scenarios that are still defined, in definition order; each id is taken once. */
  function Pick(scenarios: seq<Stored>, defs: seq<Definition>, taken: set<string>): (picked: seq<Stored>) {
    if defs == [] then []
    else
      var id := defs[0].id;
      var m := Last(scenarios, id);
      if m.Some? && id !in taken then [Stored(id, m.value)] + Pick(scenarios, defs[1..], taken + {id})
      else Pick(scenarios, defs[1..], taken)
  }

  function Sanitized(st: RunState, defs: seq<Definition>): (st': RunState) {
    var transport := if st.transport.Some? && Payloads(st.transport.value) != PAYLOAD_BYTES then None else st.transport;
    st.(transport := transport, scenarios := Pick(st.scenarios, defs, {}))
  }

  function Without(scenarios: seq<Stored>, id: string): (rest: seq<Stored>) {
    if scenarios == [] then []
    else
      var rest := Without(scenarios[..|scenarios| - 1], id);
      if scenarios[|scenarios| - 1].id == id then rest else rest + [scenarios[|scenarios| - 1]]
  }

  function RecordScenario(st: RunState, id: string, m: Measurement): (st': RunState) {
    st.(scenarios := Without(st.scenarios, id) + [Stored(id, m)])
  }

  function RecordTransport(st: RunState, reports: seq<Rtt>): (st': RunState) {
    st.(transport := Some(reports))
  }

  function CountStored(st: RunState, defs: seq<Definition>): (n: nat) {
    if defs == [] then 0
    else (if HasScenario(st, defs[0].id) then 1 else 0) + CountStored(st, defs[1..])
  }

  function ResumedStageCount(st: RunState, defs: seq<Definition>): (n: nat) {
    (if st.transport.Some? then 1 else 0) + CountStored(st, defs)
  }

  function ReportScenarios(st: RunState, defs: seq<Definition>): (rs: seq<ScenarioReport>) {
    if defs == [] then []
    else
      var m := Last(st.scenarios, defs[0].id);
      (if m.Some? then [ScenarioReport(defs[0], m.value)] else []) + ReportScenarios(st, defs[1..])
  }

  function ToReport(st: RunState, defs: seq<Definition>): (r: Report) {
    Report(st.key, if st.transport.Some? then st.transport.value else [], ReportScenarios(st, defs))
  }

  /** `load_benchmark_run_state`: any read error but a missing file ends the attempt. */
  function Load(file: File, key: Key, defs: seq<Definition>): (st: Option<RunState>) {
    match file
    case Absent => Some(NewState(key))
    case Garbage => Some(NewState(key))
    case Unreadable => None
    case Holds(st) => Some(if IsCompatible(st, key) then Sanitized(st, defs) else NewState(key))
  }

  // ---------------------------------------------------------------------
  // One attempt
  // ---------------------------------------------------------------------

  datatype Outcome<+T> = Returns(value: T) | Fails

  /**
   Everything that is not up to the program during one attempt: whether the artifact directory is there or can be
   made, what the stages measure by payload size and by id, the fate of every replacement of the file, and whether
   a finished attempt gets as far as removing the file.
   */
  datatype World = World(
    hasArtifactDir: bool,
    transport: Outcome<nat -> Measurement>,
    transportSave: Disk,
    scenario: string -> Outcome<Measurement>,
    scenarioSave: string -> Disk,
    cleanedUp: bool)

  /** `measure_transport_rtt`: one report for each payload size. */
  function TransportReports(measured: nat -> Measurement): (reports: seq<Rtt>)
    ensures Payloads(reports) == PAYLOAD_BYTES
    ensures reports == [Rtt(32, measured(32)), Rtt(4096, measured(4096)), Rtt(65536, measured(65536))]
  {
    seq(|PAYLOAD_BYTES|, i requires 0 <= i < |PAYLOAD_BYTES| => Rtt(PAYLOAD_BYTES[i], measured(PAYLOAD_BYTES[i])))
  }

  datatype Progress = Progress(file: File, state: RunState, ran: seq<Stage>, completed: bool)

  /** A stage whose result is `st`: what the file is then and whether the attempt goes on. */
  function Persist(file: File, st: RunState, disk: Disk, stage: Stage): (p: Progress) {
    Progress(if Renames(disk) then Holds(st) else file, st, [stage], Renames(disk) && !disk.diesAfter)
  }

  function RunScenarios(file: File, st: RunState, defs: seq<Definition>, world: World): (p: Progress)
    decreases |defs|
  {
    if defs == [] then Progress(file, st, [], true)
    else
      var id := defs[0].id;
      if HasScenario(st, id) then RunScenarios(file, st, defs[1..], world)
      else
        var outcome := world.scenario(id);
        if outcome.Fails? then Progress(file, st, [Scenario(id)], false)
        else
          var p := Persist(file, RecordScenario(st, id, outcome.value), world.scenarioSave(id), Scenario(id));
          if !p.completed then p
          else
            var q := RunScenarios(p.file, p.state, defs[1..], world);
            q.(ran := p.ran + q.ran)
  }

  function RunTransport(file: File, st: RunState, world: World): (p: Progress) {
    if st.transport.Some? then Progress(file, st, [], true)
    else if world.transport.Fails? then Progress(file, st, [Transport], false)
    else Persist(file, RecordTransport(st, TransportReports(world.transport.value)), world.transportSave, Transport)
  }

  function RunStages(file: File, st: RunState, defs: seq<Definition>, world: World): (p: Progress) {
    var p := RunTransport(file, st, world);
    if !p.completed then p
    else
      var q := RunScenarios(p.file, p.state, defs, world);
      q.(ran := p.ran + q.ran)
  }

  /** What is left of an attempt: the file, the stages it ran, and the report if it got that far. */
  datatype Attempt = Attempt(file: File, ran: seq<Stage>, finished: Option<(Report, nat)>)

  function RunAttempt(file: File, key: Key, defs: seq<Definition>, world: World): (a: Attempt) {
    if key.config.iterations == 0 || !world.hasArtifactDir then Attempt(file, [], None)
    else
      var loaded := Load(file, key, defs);
      if loaded.None? then Attempt(file, [], None)
      else
        var p := RunStages(file, loaded.value, defs, world);
        Attempt(p.file, p.ran,
                if p.completed then Some((ToReport(p.state, defs), ResumedStageCount(loaded.value, defs))) else None)
  }

  // ---------------------------------------------------------------------
  // What a state holds
  // ---------------------------------------------------------------------

  lemma {:induction false} LastIffHas(st: RunState, id: string)
    ensures Last(st.scenarios, id).Some? <==> HasScenario(st, id)
    decreases |st.scenarios|
  {
    var s := st.scenarios;
    if s != [] {
      var shorter := st.(scenarios := s[..|s| - 1]);
      LastIffHas(shorter, id);
      if HasScenario(shorter, id) {
        var i :| 0 <= i < |s| - 1 && s[..|s| - 1][i].id == id;
        assert s[i].id == id;
      }
      if HasScenario(st, id) && s[|s| - 1].id != id {
        var i :| 0 <= i < |s| && s[i].id == id;
        assert s[..|s| - 1][i].id == id;
      }
    }
  }

  lemma LastOfAppend(s: seq<Stored>, x: Stored, id: string)
    ensures Last(s + [x], id) == if x.id == id then Some(x.measured) else Last(s, id)
  {
    assert (s + [x])[..|s|] == s;
  }

  lemma {:induction false} LastOfPrepend(x: Stored, s: seq<Stored>, id: string)
    ensures Last([x] + s, id) ==
      if Last(s, id).Some? then Last(s, id) else if x.id == id then Some(x.measured) else None
    decreases |s|
  {
    if s == [] {
      assert [x] + s == [] + [x];
      LastOfAppend([], x, id);
    } else {
      var front := s[..|s| - 1];
      assert [x] + s == ([x] + front) + [s[|s| - 1]];
      LastOfAppend([x] + front, s[|s| - 1], id);
      LastOfPrepend(x, front, id);
    }
  }

  lemma {:induction false} LastOfWithout(s: seq<Stored>, gone: string, id: string)
    ensures Last(Without(s, gone), id) == if id == gone then None else Last(s, id)
    decreases |s|
  {
    if s != [] {
      LastOfWithout(s[..|s| - 1], gone, id);
      if s[|s| - 1].id != gone {
        LastOfAppend(Without(s[..|s| - 1], gone), s[|s| - 1], id);
      }
    }
  }

  /** Recording replaces one measurement and touches no other. */
  lemma LastOfRecord(st: RunState, id: string, m: Measurement, other: string)
    ensures Last(RecordScenario(st, id, m).scenarios, other) ==
      if other == id then Some(m) else Last(st.scenarios, other)
  {
    LastOfWithout(st.scenarios, id, other);
    LastOfAppend(Without(st.scenarios, id), Stored(id, m), other);
  }

  predicate Defined(defs: seq<Definition>, id: string) {
    exists i :: 0 <= i < |defs| && defs[i].id == id
  }

  lemma DefinedRest(defs: seq<Definition>, id: string)
    requires defs != []
    ensures Defined(defs, id) <==> defs[0].id == id || Defined(defs[1..], id)
  {
    if Defined(defs, id) && defs[0].id != id {
      var i :| 0 <= i < |defs| && defs[i].id == id;
      assert defs[1..][i - 1].id == id;
    }
    if Defined(defs[1..], id) {
      var i :| 0 <= i < |defs[1..]| && defs[1..][i].id == id;
      assert defs[i + 1].id == id;
    }
  }

  lemma {:induction false} LastOfPick(s: seq<Stored>, defs: seq<Definition>, taken: set<string>, id: string)
    ensures Last(Pick(s, defs, taken), id) == if Defined(defs, id) && id !in taken then Last(s, id) else None
    decreases |defs|
  {
    hide Defined;
    if defs == [] {
      assert !Defined(defs, id) by { NothingDefined(id); }
    } else {
      DefinedRest(defs, id);
      var first := defs[0].id;
      var m := Last(s, first);
      if m.Some? && first !in taken {
        LastOfPick(s, defs[1..], taken + {first}, id);
        LastOfPrepend(Stored(first, m.value), Pick(s, defs[1..], taken + {first}), id);
      } else {
        LastOfPick(s, defs[1..], taken, id);
      }
    }
  }

  lemma NothingDefined(id: string)
    ensures !Defined([], id)
  {
  }

  // ---------------------------------------------------------------------
  // What a file is good for
  // ---------------------------------------------------------------------

  datatype Value = Rtts(reports: seq<Rtt>) | Measured(m: Measurement)

  /** The result of a stage a state holds. */
  function Result(st: RunState, defs: seq<Definition>, stage: Stage): (v: Option<Value>) {
    match stage
    case Transport => if st.transport.Some? then Some(Rtts(st.transport.value)) else None
    case Scenario(id) =>
      if Defined(defs, id) && Last(st.scenarios, id).Some? then Some(Measured(Last(st.scenarios, id).value)) else None
  }

  /** The result of a stage that a new attempt takes from the file. */
  function Persisted(file: File, key: Key, defs: seq<Definition>, stage: Stage): (v: Option<Value>) {
    var st := Load(file, key, defs);
    if st.Some? then Result(st.value, defs, stage) else None
  }

  /**
   From a compatible file a stage is taken exactly if it is stored, and the transport only with the expected
   payloads.
   */
  lemma PersistedIs(st: RunState, key: Key, defs: seq<Definition>, stage: Stage)
    requires IsCompatible(st, key)
    ensures Persisted(Holds(st), key, defs, stage) ==
            if stage.Transport? && st.transport.Some? && Payloads(st.transport.value) != PAYLOAD_BYTES then None
            else Result(st, defs, stage)
  {
    hide Defined, Last, Pick;
    if stage.Scenario? {
      LastOfPick(st.scenarios, defs, {}, stage.id);
    }
  }

  /** A file that is missing, unreadable, no run state, or of another run is good for nothing. */
  lemma PersistedNeedsCompatibleFile(file: File, key: Key, defs: seq<Definition>, stage: Stage)
    requires Persisted(file, key, defs, stage).Some?
    ensures file.Holds? && IsCompatible(file.state, key)
  {
  }

  /** `b` holds every result that `a` holds. */
  ghost predicate Extends(a: RunState, b: RunState) {
    && a.version == b.version && a.key == b.key
    && (a.transport.Some? ==> b.transport == a.transport)
    && (forall id :: Last(a.scenarios, id).Some? ==> Last(b.scenarios, id) == Last(a.scenarios, id))
  }

  lemma RecordExtends(st: RunState, id: string, m: Measurement)
    requires !HasScenario(st, id)
    ensures Extends(st, RecordScenario(st, id, m))
  {
    hide Last, RecordScenario, HasScenario;
    var st' := RecordScenario(st, id, m);
    RecordOnlyScenarios(st, id, m);
    assert st'.version == st.version && st'.key == st.key && st'.transport == st.transport;
    forall other | Last(st.scenarios, other).Some?
      ensures Last(st'.scenarios, other) == Last(st.scenarios, other)
    {
      LastIffHas(st, other);
      LastOfRecord(st, id, m, other);
    }
  }

  lemma RecordOnlyScenarios(st: RunState, id: string, m: Measurement)
    ensures RecordScenario(st, id, m).(scenarios := st.scenarios) == st
  {
  }

  /** The file after some stages is the file before them or a state that extends the one they began with. */
  ghost predicate FileFollows(file: File, st: RunState, p: Progress) {
    && Extends(st, p.state)
    && (p.file == file || (p.file.Holds? && Extends(st, p.file.state)))
  }

  lemma {:induction false} ScenariosFollow(file: File, st: RunState, defs: seq<Definition>, world: World)
    ensures FileFollows(file, st, RunScenarios(file, st, defs, world))
    decreases |defs|
  {
    hide Last, RecordScenario, HasScenario;
    if defs != [] {
      var id := defs[0].id;
      if HasScenario(st, id) {
        ScenariosFollow(file, st, defs[1..], world);
      } else if world.scenario(id).Returns? {
        var m := world.scenario(id).value;
        var st' := RecordScenario(st, id, m);
        RecordExtends(st, id, m);
        var p := Persist(file, st', world.scenarioSave(id), Scenario(id));
        if p.completed {
          ScenariosFollow(p.file, st', defs[1..], world);
        }
      }
    }
  }

  lemma StagesFollow(file: File, st: RunState, defs: seq<Definition>, world: World)
    ensures FileFollows(file, st, RunStages(file, st, defs, world))
  {
    hide Last, RunScenarios;
    var p := RunTransport(file, st, world);
    assert FileFollows(file, st, p);
    if p.completed {
      ScenariosFollow(p.file, p.state, defs, world);
    }
  }

  // ---------------------------------------------------------------------
  // Which stages are run
  // ---------------------------------------------------------------------

  function MissingScenarios(st: RunState, defs: seq<Definition>): (stages: seq<Stage>) {
    if defs == [] then []
    else if HasScenario(st, defs[0].id) then MissingScenarios(st, defs[1..])
    else [Scenario(defs[0].id)] + MissingScenarios(st, defs[1..])
  }

  /** The stages a state does not hold, in the order they are run. */
  function Missing(st: RunState, defs: seq<Definition>): (stages: seq<Stage>) {
    (if st.transport.Some? then [] else [Transport]) + MissingScenarios(st, defs)
  }

  lemma DistinctRest(defs: seq<Definition>)
    requires DistinctIds(defs) && defs != []
    ensures DistinctIds(defs[1..]) && !Defined(defs[1..], defs[0].id)
  {
    forall i, j | 0 <= i < j < |defs[1..]|
      ensures defs[1..][i].id != defs[1..][j].id
    {
      assert defs[i + 1].id != defs[j + 1].id;
    }
  }

  /** Recording a scenario that is not defined later leaves the later ones missing or not as they were. */
  lemma {:induction false} MissingAfterRecord(st: RunState, id: string, m: Measurement, defs: seq<Definition>)
    requires !Defined(defs, id)
    ensures MissingScenarios(RecordScenario(st, id, m), defs) == MissingScenarios(st, defs)
    decreases |defs|
  {
    hide Last, RecordScenario, HasScenario;
    if defs != [] {
      DefinedRest(defs, id);
      MissingAfterRecord(st, id, m, defs[1..]);
      var other := defs[0].id;
      LastIffHas(st, other);
      LastIffHas(RecordScenario(st, id, m), other);
      LastOfRecord(st, id, m, other);
    }
  }

  /** The scenarios that are run are a prefix of the missing ones, and all of them if the attempt completes. */
  lemma {:induction false} ScenariosRun(file: File, st: RunState, defs: seq<Definition>, world: World)
    requires DistinctIds(defs)
    ensures var p := RunScenarios(file, st, defs, world);
            p.ran <= MissingScenarios(st, defs) && (p.completed ==> p.ran == MissingScenarios(st, defs))
    decreases |defs|
  {
    hide Last, RecordScenario, HasScenario, DistinctIds, Defined;
    if defs != [] {
      DistinctRest(defs);
      var id := defs[0].id;
      if HasScenario(st, id) {
        ScenariosRun(file, st, defs[1..], world);
      } else if world.scenario(id).Returns? {
        var m := world.scenario(id).value;
        var st' := RecordScenario(st, id, m);
        var p := Persist(file, st', world.scenarioSave(id), Scenario(id));
        if p.completed {
          MissingAfterRecord(st, id, m, defs[1..]);
          ScenariosRun(p.file, st', defs[1..], world);
        }
      }
    }
  }

  lemma StagesRun(file: File, st: RunState, defs: seq<Definition>, world: World)
    requires DistinctIds(defs)
    ensures var p := RunStages(file, st, defs, world);
            p.ran <= Missing(st, defs) && (p.completed ==> p.ran == Missing(st, defs))
  {
    hide RunScenarios, DistinctIds, HasScenario;
    var p := RunTransport(file, st, world);
    if p.completed {
      assert MissingScenarios(p.state, defs) == MissingScenarios(st, defs) by { MissingSame(p.state, st, defs); }
      ScenariosRun(p.file, p.state, defs, world);
    }
  }

  lemma {:induction false} MissingSame(a: RunState, b: RunState, defs: seq<Definition>)
    requires a.scenarios == b.scenarios
    ensures MissingScenarios(a, defs) == MissingScenarios(b, defs)
    decreases |defs|
  {
    if defs != [] {
      assert HasScenario(a, defs[0].id) == HasScenario(b, defs[0].id);
      MissingSame(a, b, defs[1..]);
    }
  }

  lemma {:induction false} MissingIsMissing(st: RunState, defs: seq<Definition>, stage: Stage)
    requires stage in MissingScenarios(st, defs)
    ensures stage.Scenario? && !HasScenario(st, stage.id)
    decreases |defs|
  {
    if HasScenario(st, defs[0].id) || stage != Scenario(defs[0].id) {
      MissingIsMissing(st, defs[1..], stage);
    }
  }

  lemma {:induction false} MissingCounts(st: RunState, defs: seq<Definition>)
    ensures |MissingScenarios(st, defs)| + CountStored(st, defs) == |defs|
    decreases |defs|
  {
    if defs != [] {
      MissingCounts(st, defs[1..]);
    }
  }

  // ---------------------------------------------------------------------
  // Over attempts
  // ---------------------------------------------------------------------

  lemma LoadedIsCompatible(file: File, key: Key, defs: seq<Definition>)
    requires Load(file, key, defs).Some?
    ensures IsCompatible(Load(file, key, defs).value, key)
  {
  }

  lemma ResultExtends(a: RunState, b: RunState, defs: seq<Definition>, stage: Stage)
    requires Extends(a, b) && Result(a, defs, stage).Some?
    ensures Result(b, defs, stage) == Result(a, defs, stage)
  {
  }

  /** A persisted transport has the expected payloads. */
  lemma PersistedTransport(file: File, key: Key, defs: seq<Definition>)
    requires Persisted(file, key, defs, Transport).Some?
    ensures Payloads(Persisted(file, key, defs, Transport).value.reports) == PAYLOAD_BYTES
  {
  }

  /** An attempt keeps every persisted result, and runs no stage that has one. */
  lemma AttemptKeeps(file: File, key: Key, defs: seq<Definition>, world: World, stage: Stage)
    requires DistinctIds(defs) && Persisted(file, key, defs, stage).Some?
    ensures var a := RunAttempt(file, key, defs, world);
            Persisted(a.file, key, defs, stage) == Persisted(file, key, defs, stage) && stage !in a.ran
  {
    hide RunStages, Extends, Missing, DistinctIds, Load, Result;
    if key.config.iterations != 0 {
      var st := Load(file, key, defs).value;
      var p := RunStages(file, st, defs, world);
      StagesFollow(file, st, defs, world);
      StagesRun(file, st, defs, world);
      NotMissing(st, defs, stage);
      assert stage !in p.ran;
      if p.file != file {
        ResultExtends(st, p.file.state, defs, stage);
        StillPersisted(file, key, defs, p.file.state, stage);
      }
    }
  }

  lemma NotMissing(st: RunState, defs: seq<Definition>, stage: Stage)
    requires Result(st, defs, stage).Some?
    ensures stage !in Missing(st, defs)
  {
    if stage in MissingScenarios(st, defs) {
      MissingIsMissing(st, defs, stage);
      LastIffHas(st, stage.id);
    }
  }

  lemma StillPersisted(file: File, key: Key, defs: seq<Definition>, st: RunState, stage: Stage)
    requires Persisted(file, key, defs, stage).Some?
    requires Extends(Load(file, key, defs).value, st)
    requires Result(st, defs, stage) == Persisted(file, key, defs, stage)
    ensures Persisted(Holds(st), key, defs, stage) == Persisted(file, key, defs, stage)
  {
    hide Last, Defined, Pick;
    LoadedIsCompatible(file, key, defs);
    PersistedIs(st, key, defs, stage);
    if stage.Transport? {
      PersistedTransport(file, key, defs);
    }
  }

  /** What the next attempt finds: nothing, if this one finished and its artifacts were written. */
  function Left(a: Attempt, world: World): (file: File) {
    if a.finished.Some? && world.cleanedUp then Absent else a.file
  }

  /** The attempts of a benchmark, one after the other. */
  function History(file: File, key: Key, defs: seq<Definition>, worlds: seq<World>): (attempts: seq<Attempt>)
    ensures |attempts| == |worlds|
    decreases |worlds|
  {
    if worlds == [] then []
    else
      var a := RunAttempt(file, key, defs, worlds[0]);
      [a] + History(Left(a, worlds[0]), key, defs, worlds[1..])
  }

  /** The file before attempt `n`. */
  function FileBefore(file: File, key: Key, defs: seq<Definition>, worlds: seq<World>, n: nat): (f: File)
    requires n <= |worlds|
  {
    if n == 0 then file else Left(History(file, key, defs, worlds)[n - 1], worlds[n - 1])
  }

  /** None of the first `n` attempts finished and removed the file. */
  predicate NotCleanedUp(attempts: seq<Attempt>, worlds: seq<World>, n: nat)
    requires n <= |attempts| == |worlds|
  {
    forall k :: 0 <= k < n ==> !(attempts[k].finished.Some? && worlds[k].cleanedUp)
  }

  lemma HistoryRest(file: File, key: Key, defs: seq<Definition>, worlds: seq<World>, n: nat)
    requires n < |worlds|
    ensures History(file, key, defs, worlds)[n] ==
      RunAttempt(FileBefore(file, key, defs, worlds, n), key, defs, worlds[n])
    decreases n
  {
    hide RunAttempt, Left;
    if n > 0 {
      var next := Left(RunAttempt(file, key, defs, worlds[0]), worlds[0]);
      HistoryRest(next, key, defs, worlds[1..], n - 1);
      var h, rest := History(file, key, defs, worlds), History(next, key, defs, worlds[1..]);
      assert h[n] == rest[n - 1];
      assert n > 1 ==> h[n - 1] == rest[n - 2] && worlds[n - 1] == worlds[1..][n - 2];
    }
  }

  /**
   However many attempts fail or die: once the result of a stage is in the file, it stays there unchanged
   and no later attempt runs the stage again, until an attempt has finished and removed the file.
   */
  lemma {:induction false} NeverRunAgain(file: File, key: Key, defs: seq<Definition>, worlds: seq<World>, n: nat,
                                         stage: Stage)
    requires DistinctIds(defs) && Persisted(file, key, defs, stage).Some? && n < |worlds|
    requires NotCleanedUp(History(file, key, defs, worlds), worlds, n)
    ensures var a := History(file, key, defs, worlds)[n];
            stage !in a.ran && Persisted(a.file, key, defs, stage) == Persisted(file, key, defs, stage)
    decreases n
  {
    hide RunAttempt, Persisted, DistinctIds;
    AttemptKeeps(file, key, defs, worlds[0], stage);
    if n > 0 {
      var h := History(file, key, defs, worlds);
      var a := RunAttempt(file, key, defs, worlds[0]);
      assert h[0] == a;
      assert forall k :: 0 <= k < n - 1 ==> h[1..][k] == h[k + 1] && worlds[1..][k] == worlds[k + 1];
      assert h[1..] == History(a.file, key, defs, worlds[1..]);
      NeverRunAgain(a.file, key, defs, worlds[1..], n - 1, stage);
    }
  }

  /** After that a benchmark starts over: nothing is taken from the file, so every stage is run again. */
  lemma CleanUpStartsOver(file: File, key: Key, defs: seq<Definition>, worlds: seq<World>, n: nat)
    requires DistinctIds(defs) && 0 < n < |worlds|
    requires var h := History(file, key, defs, worlds); h[n - 1].finished.Some? && worlds[n - 1].cleanedUp
    ensures forall stage :: Persisted(FileBefore(file, key, defs, worlds, n), key, defs, stage).None?
    ensures var a := History(file, key, defs, worlds)[n];
            a.finished.Some? ==> |a.ran| == 1 + |defs|
  {
    hide RunAttempt, Persisted, DistinctIds;
    HistoryRest(file, key, defs, worlds, n);
    var a := History(file, key, defs, worlds)[n];
    forall stage
      ensures Persisted(Absent, key, defs, stage).None?
    {
      if Persisted(Absent, key, defs, stage).Some? {
        PersistedNeedsCompatibleFile(Absent, key, defs, stage);
      }
    }
    if a.finished.Some? {
      FreshAttemptRunsAll(key, defs, worlds[n]);
    }
  }

  lemma FreshAttemptRunsAll(key: Key, defs: seq<Definition>, world: World)
    requires DistinctIds(defs) && RunAttempt(Absent, key, defs, world).finished.Some?
    ensures |RunAttempt(Absent, key, defs, world).ran| == 1 + |defs|
  {
    hide RunStages, Missing, DistinctIds;
    var st := NewState(key);
    StagesRun(Absent, st, defs, world);
    MissingAndStored(st, defs);
    NothingStored(st, defs);
  }

  lemma {:induction false} NothingStored(st: RunState, defs: seq<Definition>)
    requires st.scenarios == []
    ensures CountStored(st, defs) == 0
    decreases |defs|
  {
    if defs != [] {
      NothingStored(st, defs[1..]);
    }
  }

  // ---------------------------------------------------------------------
  // What a stage leaves behind
  // ---------------------------------------------------------------------

  /** The result of a stage that got into the file: it was measured, and the file was replaced. */
  function Delivered(world: World, stage: Stage): (v: Option<Value>) {
    match stage
    case Transport =>
      if world.transport.Returns? && Renames(world.transportSave)
      then Some(Rtts(TransportReports(world.transport.value))) else None
    case Scenario(id) =>
      if world.scenario(id).Returns? && Renames(world.scenarioSave(id))
      then Some(Measured(world.scenario(id).value)) else None
  }

  lemma {:induction false} ScenariosDeliver(file: File, st: RunState, defs: seq<Definition>, world: World, id: string)
    requires Scenario(id) in RunScenarios(file, st, defs, world).ran && Delivered(world, Scenario(id)).Some?
    ensures var p := RunScenarios(file, st, defs, world);
            && p.file.Holds? && Extends(st, p.file.state) && Defined(defs, id)
            && Last(p.file.state.scenarios, id) == Some(world.scenario(id).value)
    decreases |defs|
  {
    hide Last, RecordScenario, HasScenario, Defined;
    var first := defs[0].id;
    DefinedRest(defs, id);
    if HasScenario(st, first) {
      ScenariosDeliver(file, st, defs[1..], world, id);
    } else if world.scenario(first).Returns? {
      var m := world.scenario(first).value;
      var st' := RecordScenario(st, first, m);
      RecordExtends(st, first, m);
      LastOfRecord(st, first, m, first);
      var p := Persist(file, st', world.scenarioSave(first), Scenario(first));
      if p.completed {
        ScenariosFollow(p.file, st', defs[1..], world);
        if id != first {
          ScenariosDeliver(p.file, st', defs[1..], world, id);
        }
      }
    }
  }

  lemma StagesDeliver(file: File, st: RunState, defs: seq<Definition>, world: World, stage: Stage)
    requires stage in RunStages(file, st, defs, world).ran && Delivered(world, stage).Some?
    ensures var p := RunStages(file, st, defs, world);
            p.file.Holds? && Extends(st, p.file.state) && Result(p.file.state, defs, stage) == Delivered(world, stage)
  {
    hide Last, RunScenarios, Defined;
    var p := RunTransport(file, st, world);
    if p.completed {
      var q := RunScenarios(p.file, p.state, defs, world);
      ScenariosFollow(p.file, p.state, defs, world);
      if stage.Scenario? {
        assert stage in q.ran;
        ScenariosDeliver(p.file, p.state, defs, world, stage.id);
      } else {
        assert stage in p.ran by { NoTransportAmongScenarios(p.file, p.state, defs, world); }
      }
    }
  }

  lemma {:induction false} NoTransportAmongScenarios(file: File, st: RunState, defs: seq<Definition>, world: World)
    ensures Transport !in RunScenarios(file, st, defs, world).ran
    decreases |defs|
  {
    hide HasScenario, RecordScenario;
    if defs != [] {
      var id := defs[0].id;
      if HasScenario(st, id) {
        NoTransportAmongScenarios(file, st, defs[1..], world);
      } else if world.scenario(id).Returns? {
        var p := Persist(file, RecordScenario(st, id, world.scenario(id).value), world.scenarioSave(id), Scenario(id));
        if p.completed {
          NoTransportAmongScenarios(p.file, p.state, defs[1..], world);
        }
      }
    }
  }

  /** Whatever becomes of an attempt, a stage it ran whose result was saved is persisted with that result. */
  lemma AttemptPersists(file: File, key: Key, defs: seq<Definition>, world: World, stage: Stage)
    requires stage in RunAttempt(file, key, defs, world).ran && Delivered(world, stage).Some?
    ensures Persisted(RunAttempt(file, key, defs, world).file, key, defs, stage) == Delivered(world, stage)
  {
    hide RunStages, Load, Last, Defined;
    var st := Load(file, key, defs).value;
    var p := RunStages(file, st, defs, world);
    StagesDeliver(file, st, defs, world, stage);
    LoadedIsCompatible(file, key, defs);
    PersistedIs(p.file.state, key, defs, stage);
  }

  // ---------------------------------------------------------------------
  // The finishing attempt
  // ---------------------------------------------------------------------

  /** A completed pass leaves a result for every definition. */
  lemma {:induction false} CompletedHasAll(file: File, st: RunState, defs: seq<Definition>, world: World, i: nat)
    requires DistinctIds(defs) && i < |defs| && RunScenarios(file, st, defs, world).completed
    ensures Last(RunScenarios(file, st, defs, world).state.scenarios, defs[i].id).Some?
    decreases |defs|
  {
    hide Last, RecordScenario, HasScenario, DistinctIds, Extends;
    DistinctRest(defs);
    var id := defs[0].id;
    ScenariosFollow(file, st, defs, world);
    if HasScenario(st, id) {
      if i > 0 {
        CompletedHasAll(file, st, defs[1..], world, i - 1);
      } else {
        LastIffHas(st, id);
        StaysStored(st, RunScenarios(file, st, defs, world).state, id);
      }
    } else {
      var m := world.scenario(id).value;
      var st' := RecordScenario(st, id, m);
      var p := Persist(file, st', world.scenarioSave(id), Scenario(id));
      if i > 0 {
        CompletedHasAll(p.file, st', defs[1..], world, i - 1);
      } else {
        LastOfRecord(st, id, m, id);
        ScenariosFollow(p.file, st', defs[1..], world);
        StaysStored(st', RunScenarios(p.file, st', defs[1..], world).state, id);
      }
    }
  }

  lemma StaysStored(a: RunState, b: RunState, id: string)
    requires Extends(a, b) && Last(a.scenarios, id).Some?
    ensures Last(b.scenarios, id) == Last(a.scenarios, id)
  {
  }

  lemma {:induction false} ReportInOrder(st: RunState, defs: seq<Definition>)
    requires forall i :: 0 <= i < |defs| ==> Last(st.scenarios, defs[i].id).Some?
    ensures var rs := ReportScenarios(st, defs);
            |rs| == |defs| && forall i :: 0 <= i < |defs| ==>
              rs[i] == ScenarioReport(defs[i], Last(st.scenarios, defs[i].id).value)
    decreases |defs|
  {
    hide Last;
    if defs != [] {
      assert forall i :: 0 <= i < |defs| - 1 ==> defs[1..][i] == defs[i + 1];
      ReportInOrder(st, defs[1..]);
    }
  }

  /** A completed attempt's last state is what the file holds, as far as results go. */
  lemma {:induction false} FileHoldsState(file: File, st: RunState, defs: seq<Definition>, world: World)
    ensures var p := RunScenarios(file, st, defs, world);
            p.completed ==> (p.file == file && p.state == st) || p.file == Holds(p.state)
    decreases |defs|
  {
    hide RecordScenario, HasScenario;
    if defs != [] {
      var id := defs[0].id;
      if HasScenario(st, id) {
        FileHoldsState(file, st, defs[1..], world);
      } else if world.scenario(id).Returns? {
        var p := Persist(file, RecordScenario(st, id, world.scenario(id).value), world.scenarioSave(id), Scenario(id));
        if p.completed {
          FileHoldsState(p.file, p.state, defs[1..], world);
        }
      }
    }
  }

  lemma StagesFileHoldsState(file: File, st: RunState, defs: seq<Definition>, world: World)
    ensures var p := RunStages(file, st, defs, world);
            p.completed ==> (p.file == file && p.state == st) || p.file == Holds(p.state)
  {
    hide RunScenarios;
    var p := RunTransport(file, st, world);
    if p.completed {
      FileHoldsState(p.file, p.state, defs, world);
    }
  }

  /**
   The attempt that finishes reports one scenario for each definition, in definition order, each with
   the measurement that is in the file; it ran exactly the stages the file did not hold before; and
   the stages it resumed and the stages it ran are all stages there are.
   */
  lemma FinishedAttempt(file: File, key: Key, defs: seq<Definition>, world: World)
    requires DistinctIds(defs) && RunAttempt(file, key, defs, world).finished.Some?
    ensures var a := RunAttempt(file, key, defs, world);
            var (report, resumed) := a.finished.value;
            && report.key == key && |report.scenarios| == |defs|
            && (forall i :: 0 <= i < |defs| ==>
                  && report.scenarios[i].definition == defs[i]
                  && Persisted(a.file, key, defs, Scenario(defs[i].id)) == Some(Measured(report.scenarios[i].measured)))
            && Persisted(a.file, key, defs, Transport) == Some(Rtts(report.transport))
            && (forall stage :: stage in a.ran ==> Persisted(file, key, defs, stage).None?)
            && resumed + |a.ran| == 1 + |defs|
  {
    hide RunStages, Missing, DistinctIds, Load, Last, ReportScenarios, Result, CountStored;
    var st := Load(file, key, defs).value;
    var p := RunStages(file, st, defs, world);
    StagesRun(file, st, defs, world);
    CompletedStages(file, st, defs, world);
    ReportInOrder(p.state, defs);
    forall i | 0 <= i < |defs|
      ensures Persisted(p.file, key, defs, Scenario(defs[i].id)) ==
        Some(Measured(Last(p.state.scenarios, defs[i].id).value))
    {
      StatePersisted(file, key, defs, world, i);
    }
    forall stage | stage in p.ran
      ensures Persisted(file, key, defs, stage).None?
    {
      if Result(st, defs, stage).Some? {
        NotMissing(st, defs, stage);
      }
    }
    MissingAndStored(st, defs);
    TransportPersisted(file, key, defs, world);
  }

  lemma TransportPersisted(file: File, key: Key, defs: seq<Definition>, world: World)
    requires Load(file, key, defs).Some? && RunStages(file, Load(file, key, defs).value, defs, world).completed
    ensures var p := RunStages(file, Load(file, key, defs).value, defs, world);
            && p.state.key == key && p.state.transport.Some?
            && Persisted(p.file, key, defs, Transport) == Some(Rtts(p.state.transport.value))
  {
    hide RunScenarios, Load, Last;
    var st := Load(file, key, defs).value;
    LoadedIsCompatible(file, key, defs);
    StagesFileHoldsState(file, st, defs, world);
    StagesFollow(file, st, defs, world);
    var t := RunTransport(file, st, world);
    ScenariosFollow(t.file, t.state, defs, world);
    var p := RunStages(file, st, defs, world);
    if st.transport.Some? {
      PersistedTransport(file, key, defs);
    }
    if p.file == Holds(p.state) {
      PersistedIs(p.state, key, defs, Transport);
    }
  }

  lemma MissingAndStored(st: RunState, defs: seq<Definition>)
    ensures |Missing(st, defs)| + ResumedStageCount(st, defs) == 1 + |defs|
  {
    MissingCounts(st, defs);
  }

  lemma CompletedStages(file: File, st: RunState, defs: seq<Definition>, world: World)
    requires DistinctIds(defs) && RunStages(file, st, defs, world).completed
    ensures forall i :: 0 <= i < |defs| ==> Last(RunStages(file, st, defs, world).state.scenarios, defs[i].id).Some?
  {
    hide Last, DistinctIds, RunScenarios;
    var p := RunTransport(file, st, world);
    forall i | 0 <= i < |defs|
      ensures Last(RunScenarios(p.file, p.state, defs, world).state.scenarios, defs[i].id).Some?
    {
      CompletedHasAll(p.file, p.state, defs, world, i);
    }
  }

  /**
   So whichever attempt finishes, a measurement that was in the file before reaches its report
   unchanged.
   */
  lemma ReportKeepsEarlierResults(file: File, key: Key, defs: seq<Definition>, worlds: seq<World>, n: nat, i: nat,
                                  m: Measurement)
    requires DistinctIds(defs) && n < |worlds| && i < |defs|
    requires Persisted(file, key, defs, Scenario(defs[i].id)) == Some(Measured(m))
    requires History(file, key, defs, worlds)[n].finished.Some?
    requires NotCleanedUp(History(file, key, defs, worlds), worlds, n)
    ensures var report := History(file, key, defs, worlds)[n].finished.value.0;
            i < |report.scenarios| && report.scenarios[i] == ScenarioReport(defs[i], m)
  {
    hide RunAttempt, Persisted, DistinctIds;
    NeverRunAgain(file, key, defs, worlds, n, Scenario(defs[i].id));
    HistoryRest(file, key, defs, worlds, n);
    FinishedAttempt(FileBefore(file, key, defs, worlds, n), key, defs, worlds[n]);
  }

  lemma StatePersisted(file: File, key: Key, defs: seq<Definition>, world: World, i: nat)
    requires Load(file, key, defs).Some? && i < |defs|
    requires var p := RunStages(file, Load(file, key, defs).value, defs, world);
             p.completed && Last(p.state.scenarios, defs[i].id).Some?
    ensures var p := RunStages(file, Load(file, key, defs).value, defs, world);
            Persisted(p.file, key, defs, Scenario(defs[i].id)) ==
              Some(Measured(Last(p.state.scenarios, defs[i].id).value))
  {
    hide RunStages, Load, Last;
    var st := Load(file, key, defs).value;
    var p := RunStages(file, st, defs, world);
    StagesFileHoldsState(file, st, defs, world);
    assert Defined(defs, defs[i].id);
    if p.file == Holds(p.state) {
      LoadedIsCompatible(file, key, defs);
      StagesFollow(file, st, defs, world);
      PersistedIs(p.state, key, defs, Scenario(defs[i].id));
    }
  }

  // ---------------------------------------------------------------------
  // When an attempt finishes
  // ---------------------------------------------------------------------

  /** The file was replaced and the process lived on. */
  predicate Works(disk: Disk) {
    disk.mkdir.Works? && disk.write.Works? && disk.rename.Works? && !disk.diesAfter
  }

  predicate ScenarioWorks(world: World, id: string) {
    world.scenario(id).Returns? && Works(world.scenarioSave(id))
  }

  lemma HasAfterRecord(st: RunState, id: string, m: Measurement, other: string)
    requires other != id
    ensures HasScenario(RecordScenario(st, id, m), other) <==> HasScenario(st, other)
  {
    hide Last, HasScenario, RecordScenario;
    LastOfRecord(st, id, m, other);
    LastIffHas(st, other);
    LastIffHas(RecordScenario(st, id, m), other);
  }

  /** A pass completes exactly if every scenario that is not stored works. */
  lemma {:induction false} CompletesIff(file: File, st: RunState, defs: seq<Definition>, world: World)
    requires DistinctIds(defs)
    ensures RunScenarios(file, st, defs, world).completed <==>
      forall i :: 0 <= i < |defs| && !HasScenario(st, defs[i].id) ==> ScenarioWorks(world, defs[i].id)
    decreases |defs|
  {
    hide HasScenario, RecordScenario;
    if defs != [] {
      var id, rest := defs[0].id, defs[1..];
      DistinctRest(defs);
      assert forall i :: 0 <= i < |rest| ==> rest[i] == defs[i + 1];
      assert forall i :: 1 <= i < |defs| ==> defs[i] == rest[i - 1] && defs[i].id != id;
      if HasScenario(st, id) {
        CompletesIff(file, st, rest, world);
      } else if ScenarioWorks(world, id) {
        var m := world.scenario(id).value;
        var st' := RecordScenario(st, id, m);
        CompletesIff(Holds(st'), st', rest, world);
        forall i | 0 <= i < |rest|
          ensures HasScenario(st', rest[i].id) <==> HasScenario(st, rest[i].id)
        {
          HasAfterRecord(st, id, m, rest[i].id);
        }
      }
    }
  }

  lemma StoredIff(file: File, key: Key, defs: seq<Definition>, i: nat)
    requires Load(file, key, defs).Some? && i < |defs|
    ensures Persisted(file, key, defs, Scenario(defs[i].id)).Some? <==>
      HasScenario(Load(file, key, defs).value, defs[i].id)
  {
    hide Last, HasScenario, Load;
    LastIffHas(Load(file, key, defs).value, defs[i].id);
    assert Defined(defs, defs[i].id);
  }

  /**
   An attempt finishes if and only if there is something to iterate, the artifact directory is there, the file is not
   one that exists and cannot be read, and every stage that is not persisted returns a result and gets it saved.
   */
  lemma FinishesIff(file: File, key: Key, defs: seq<Definition>, world: World)
    requires DistinctIds(defs)
    ensures RunAttempt(file, key, defs, world).finished.Some? <==>
      && key.config.iterations != 0 && world.hasArtifactDir && !file.Unreadable?
      && (Persisted(file, key, defs, Transport).None? ==> world.transport.Returns? && Works(world.transportSave))
      && forall i :: 0 <= i < |defs| && Persisted(file, key, defs, Scenario(defs[i].id)).None? ==>
           ScenarioWorks(world, defs[i].id)
  {
    hide Sanitized, RunScenarios, HasScenario, Last, ScenarioWorks, IsCompatible, DistinctIds;
    var loaded := Load(file, key, defs);
    if loaded.Some? {
      var p := RunTransport(file, loaded.value, world);
      CompletesIff(p.file, p.state, defs, world);
      forall i | 0 <= i < |defs|
        ensures Persisted(file, key, defs, Scenario(defs[i].id)).None? <==> !HasScenario(p.state, defs[i].id)
      {
        StoredIff(file, key, defs, i);
        SameScenarios(loaded.value, p.state, defs[i].id);
      }
    }
  }

  lemma SameScenarios(a: RunState, b: RunState, id: string)
    requires a.scenarios == b.scenarios
    ensures HasScenario(a, id) <==> HasScenario(b, id)
  {
  }

  predicate StageWorks(world: World, stage: Stage) {
    match stage
    case Transport => world.transport.Returns? && Works(world.transportSave)
    case Scenario(id) => ScenarioWorks(world, id)
  }

  /** The stages that were run all worked, except possibly the last one if the pass did not complete. */
  ghost predicate RunsUntilFailure(world: World, ran: seq<Stage>, completed: bool) {
    && (forall i :: 0 <= i < |ran| - 1 ==> StageWorks(world, ran[i]))
    && (completed <==> ran == [] || StageWorks(world, ran[|ran| - 1]))
  }

  lemma UntilFailureNext(world: World, stage: Stage, ran: seq<Stage>, completed: bool)
    requires RunsUntilFailure(world, ran, completed) && StageWorks(world, stage)
    ensures RunsUntilFailure(world, [stage] + ran, completed)
  {
    hide StageWorks;
    var all := [stage] + ran;
    assert forall i :: 1 <= i < |all| ==> all[i] == ran[i - 1];
  }

  lemma {:induction false} ScenariosUntilFailure(file: File, st: RunState, defs: seq<Definition>, world: World)
    ensures var p := RunScenarios(file, st, defs, world); RunsUntilFailure(world, p.ran, p.completed)
    decreases |defs|
  {
    hide HasScenario, RecordScenario;
    if defs != [] {
      var id := defs[0].id;
      if HasScenario(st, id) {
        ScenariosUntilFailure(file, st, defs[1..], world);
      } else if ScenarioWorks(world, id) {
        var st' := RecordScenario(st, id, world.scenario(id).value);
        ScenariosUntilFailure(Holds(st'), st', defs[1..], world);
        var q := RunScenarios(Holds(st'), st', defs[1..], world);
        UntilFailureNext(world, Scenario(id), q.ran, q.completed);
      }
    }
  }

  /** The transport comes first, and the scenarios follow in the order of their definitions. */
  ghost predicate InOrder(ran: seq<Stage>, defs: seq<Definition>) {
    && (forall i :: 0 < i < |ran| ==> ran[i].Scenario?)
    && (forall i :: 0 <= i < |ran| && ran[i].Scenario? ==> Defined(defs, ran[i].id))
    && (forall i, j :: 0 <= i < j < |ran| && ran[i].Scenario? && ran[j].Scenario? ==>
          Precedes(defs, ran[i].id, ran[j].id))
  }

  ghost predicate Precedes(defs: seq<Definition>, a: string, b: string) {
    exists i, j :: 0 <= i < j < |defs| && defs[i].id == a && defs[j].id == b
  }

  lemma PrecedesLater(defs: seq<Definition>, a: string, b: string)
    requires defs != [] && Precedes(defs[1..], a, b)
    ensures Precedes(defs, a, b)
  {
    var i, j :| 0 <= i < j < |defs[1..]| && defs[1..][i].id == a && defs[1..][j].id == b;
    assert defs[i + 1].id == a && defs[j + 1].id == b;
  }

  lemma PrecedesFirst(defs: seq<Definition>, b: string)
    requires defs != [] && Defined(defs[1..], b)
    ensures Precedes(defs, defs[0].id, b)
  {
    var j :| 0 <= j < |defs[1..]| && defs[1..][j].id == b;
    assert defs[j + 1].id == b;
  }

  lemma {:induction false} MissingInOrder(st: RunState, defs: seq<Definition>)
    ensures var ran := MissingScenarios(st, defs);
            InOrder(ran, defs) && forall i :: 0 <= i < |ran| ==> ran[i].Scenario?
    decreases |defs|
  {
    hide HasScenario, Defined, Precedes;
    if defs != [] {
      var rest, ran := MissingScenarios(st, defs[1..]), MissingScenarios(st, defs);
      MissingInOrder(st, defs[1..]);
      forall i | 0 <= i < |rest|
        ensures Defined(defs, rest[i].id) && Precedes(defs, defs[0].id, rest[i].id)
      {
        DefinedRest(defs, rest[i].id);
        PrecedesFirst(defs, rest[i].id);
      }
      forall i, j | 0 <= i < j < |rest|
        ensures Precedes(defs, rest[i].id, rest[j].id)
      {
        PrecedesLater(defs, rest[i].id, rest[j].id);
      }
      DefinedRest(defs, defs[0].id);
      assert !HasScenario(st, defs[0].id) ==> forall i :: 1 <= i < |ran| ==> ran[i] == rest[i - 1];
    }
  }

  lemma PrefixInOrder(ran: seq<Stage>, all: seq<Stage>, defs: seq<Definition>)
    requires ran <= all && InOrder(all, defs)
    ensures InOrder(ran, defs)
  {
    hide Defined, Precedes;
    assert forall i :: 0 <= i < |ran| ==> ran[i] == all[i];
  }

  lemma AllInOrder(st: RunState, defs: seq<Definition>)
    ensures InOrder(Missing(st, defs), defs)
  {
    hide Defined, Precedes, MissingScenarios;
    MissingInOrder(st, defs);
    var rest, all := MissingScenarios(st, defs), Missing(st, defs);
    if st.transport.Some? {
      assert all == rest;
    } else {
      assert forall i :: 1 <= i < |all| ==> all[i] == rest[i - 1];
    }
  }

  lemma StagesUntilFailure(file: File, st: RunState, defs: seq<Definition>, world: World)
    ensures var p := RunStages(file, st, defs, world); RunsUntilFailure(world, p.ran, p.completed)
  {
    hide RunScenarios;
    var t := RunTransport(file, st, world);
    ScenariosUntilFailure(t.file, t.state, defs, world);
    var q := RunScenarios(t.file, t.state, defs, world);
    if st.transport.Some? {
      assert [] + q.ran == q.ran;
    } else if t.completed {
      UntilFailureNext(world, Transport, q.ran, q.completed);
    }
  }

  /**
   The stages an attempt runs: the transport first and then scenarios in definition order, up to the first one that
   fails or is not saved.
   */
  lemma StagesInOrder(file: File, key: Key, defs: seq<Definition>, world: World)
    requires DistinctIds(defs)
    ensures var a := RunAttempt(file, key, defs, world);
            InOrder(a.ran, defs) && (a.ran != [] ==> RunsUntilFailure(world, a.ran, a.finished.Some?))
  {
    hide Load, RunStages, Missing, DistinctIds, RunsUntilFailure, Defined, Precedes;
    var loaded := Load(file, key, defs);
    if loaded.Some? {
      var st := loaded.value;
      StagesRun(file, st, defs, world);
      AllInOrder(st, defs);
      PrefixInOrder(RunStages(file, st, defs, world).ran, Missing(st, defs), defs);
      StagesUntilFailure(file, st, defs, world);
    }
  }

  /** A scenario that is recorded goes to the end; those before it stay as they are. */
  lemma RecordAppends(st: RunState, id: string, m: Measurement)
    requires !HasScenario(st, id)
    ensures RecordScenario(st, id, m).scenarios == st.scenarios + [Stored(id, m)]
  {
    WithoutNothing(st.scenarios, id);
  }

  lemma {:induction false} WithoutNothing(s: seq<Stored>, id: string)
    requires forall i :: 0 <= i < |s| ==> s[i].id != id
    ensures Without(s, id) == s
    decreases |s|
  {
    if s != [] {
      WithoutNothing(s[..|s| - 1], id);
      assert s == s[..|s| - 1] + [s[|s| - 1]];
    }
  }

  ghost predicate KeptInOrder(kept: seq<Stored>, defs: seq<Definition>) {
    && (forall i :: 0 <= i < |kept| ==> Defined(defs, kept[i].id))
    && (forall i, j :: 0 <= i < j < |kept| ==> Precedes(defs, kept[i].id, kept[j].id))
  }

  /** What is kept of a stored state is in the order of the definitions. */
  lemma {:induction false} PickInOrder(s: seq<Stored>, defs: seq<Definition>, taken: set<string>)
    ensures KeptInOrder(Pick(s, defs, taken), defs)
    decreases |defs|
  {
    hide Last, Defined, Precedes;
    if defs != [] {
      var id := defs[0].id;
      var more := if Last(s, id).Some? && id !in taken then taken + {id} else taken;
      var rest, p := Pick(s, defs[1..], more), Pick(s, defs, taken);
      PickInOrder(s, defs[1..], more);
      DefinedRest(defs, id);
      forall i | 0 <= i < |rest|
        ensures Defined(defs, rest[i].id) && Precedes(defs, id, rest[i].id)
      {
        DefinedRest(defs, rest[i].id);
        PrecedesFirst(defs, rest[i].id);
      }
      forall i, j | 0 <= i < j < |rest|
        ensures Precedes(defs, rest[i].id, rest[j].id)
      {
        PrecedesLater(defs, rest[i].id, rest[j].id);
      }
      assert p != rest ==> forall i :: 1 <= i < |p| ==> p[i] == rest[i - 1];
    }
  }

  /** The field-by-field conditions under which a stored state is of this run. */
  predicate SameRun(st: RunState, key: Key) {
    && st.version == 5
    && st.key.config.iterations == key.config.iterations
    && st.key.config.warmupIterations == key.config.warmupIterations
    && st.key.host.nodeBinary == key.host.nodeBinary
    && st.key.host.nodeVersion == key.host.nodeVersion
    && st.key.host.os == key.host.os
    && st.key.host.arch == key.host.arch
    && st.key.host.logicalCpus == key.host.logicalCpus
    && st.key.root == key.root
  }

  lemma {:induction false} LastIs(scenarios: seq<Stored>, i: nat)
    requires i < |scenarios| && forall j :: i < j < |scenarios| ==> scenarios[j].id != scenarios[i].id
    ensures Last(scenarios, scenarios[i].id) == Some(scenarios[i].measured)
    decreases |scenarios|
  {
    if i < |scenarios| - 1 {
      LastIs(scenarios[..|scenarios| - 1], i);
    }
  }

  /** What a new attempt takes for a defined scenario: the last stored measurement, if the file is of this run. */
  lemma TakesLastStored(st: RunState, key: Key, defs: seq<Definition>, d: nat, i: nat)
    requires d < |defs| && i < |st.scenarios| && st.scenarios[i].id == defs[d].id
    requires forall j :: i < j < |st.scenarios| ==> st.scenarios[j].id != defs[d].id
    ensures Persisted(Holds(st), key, defs, Scenario(defs[d].id)) ==
      if SameRun(st, key) then Some(Measured(st.scenarios[i].measured)) else None
  {
    hide Sanitized, Last;
    LastIs(st.scenarios, i);
    assert Defined(defs, defs[d].id);
    if IsCompatible(st, key) {
      PersistedIs(st, key, defs, Scenario(defs[d].id));
    } else if Persisted(Holds(st), key, defs, Scenario(defs[d].id)).Some? {
      PersistedNeedsCompatibleFile(Holds(st), key, defs, Scenario(defs[d].id));
    }
  }

  /** And for the transport: what is stored, if the file is of this run and has the three sizes that are measured. */
  lemma TakesStoredTransport(st: RunState, key: Key, defs: seq<Definition>)
    ensures Persisted(Holds(st), key, defs, Transport) ==
      if SameRun(st, key) && st.transport.Some? && Payloads(st.transport.value) == [32, 4096, 65536]
      then Some(Rtts(st.transport.value)) else None
  {
    hide Pick, Payloads;
  }

  // ---------------------------------------------------------------------
  // The orchestration
  // ---------------------------------------------------------------------

  /** How a run state is written as text and read back. */
  datatype Codec = Codec(render: RunState -> string, parse: string -> Option<RunState>)

  ghost predicate RoundTrips(codec: Codec) {
    forall st: RunState :: codec.parse(codec.render(st)) == Some(st)
  }

  /** `run-state.json` in the artifact directory. */
  class StateFile {
    const dir: Directory
    const name: string
    const codec: Codec

    constructor (dir: Directory, name: string, codec: Codec)
      ensures this.dir == dir && this.name == name && this.codec == codec
    {
      this.dir, this.name, this.codec := dir, name, codec;
    }

    /** What reading the file gives. */
    function View(): (file: File)
      reads dir
    {
      match Lookup(dir.entries, name)
      case None => Absent
      case Some(Broken) => Unreadable
      case Some(Text(s)) => if codec.parse(s).Some? then Holds(codec.parse(s).value) else Garbage
    }

    /** `persist_benchmark_run_state`; false ends the attempt. */
    method Replace(st: RunState, disk: Disk) returns (goOn: bool)
      requires RoundTrips(codec)
      modifies dir
      ensures View() == (if Renames(disk) then Holds(st) else old(View()))
      ensures goOn <==> Renames(disk) && !disk.diesAfter
    {
      var r := WriteStringAtomic(dir, name, codec.render(st), disk);
      return r.Done?;
    }
  }

  lemma NextScenario(file: File, st: RunState, defs: seq<Definition>, i: nat, world: World)
    requires i < |defs|
    ensures var id := defs[i].id;
            var outcome := world.scenario(id);
            RunScenarios(file, st, defs[i..], world) ==
            if HasScenario(st, id) then RunScenarios(file, st, defs[i + 1..], world)
            else if outcome.Fails? then Progress(file, st, [Scenario(id)], false)
            else
              var p := Persist(file, RecordScenario(st, id, outcome.value), world.scenarioSave(id), Scenario(id));
              if !p.completed then p
              else
                var q := RunScenarios(p.file, p.state, defs[i + 1..], world);
                q.(ran := p.ran + q.ran)
  {
    hide HasScenario, RecordScenario;
    assert defs[i..][0] == defs[i] && defs[i..][1..] == defs[i + 1..];
  }

  lemma NoMoreScenarios(file: File, st: RunState, world: World)
    ensures RunScenarios(file, st, [], world) == Progress(file, st, [], true)
  {
  }

  /** The loop over the definitions. */
  method RunRemaining(disk: StateFile, state: RunState, defs: seq<Definition>, world: World)
    returns (last: RunState, ran: seq<Stage>, completed: bool)
    requires RoundTrips(disk.codec)
    modifies disk.dir
    ensures Progress(disk.View(), last, ran, completed) == RunScenarios(old(disk.View()), state, defs, world)
  {
    hide HasScenario, RecordScenario, RunScenarios;
    last, ran := state, [];
    ghost var whole := RunScenarios(disk.View(), state, defs, world);
    assert defs[0..] == defs;
    for i := 0 to |defs|
      invariant var rest := RunScenarios(disk.View(), last, defs[i..], world);
                whole == rest.(ran := ran + rest.ran)
    {
      var id := defs[i].id;
      NextScenario(disk.View(), last, defs, i, world);
      if HasScenario(last, id) {
        continue;
      }
      var outcome := world.scenario(id);
      if outcome.Fails? {
        return last, ran + [Scenario(id)], false;
      }
      last := RecordScenario(last, id, outcome.value);
      var goOn := disk.Replace(last, world.scenarioSave(id));
      if !goOn {
        return last, ran + [Scenario(id)], false;
      }
      ghost var later := RunScenarios(disk.View(), last, defs[i + 1..], world);
      assert ran + ([Scenario(id)] + later.ran) == (ran + [Scenario(id)]) + later.ran;
      ran := ran + [Scenario(id)];
    }
    NoMoreScenarios(disk.View(), last, world);
    assert defs[|defs|..] == [] && ran + [] == ran;
    return last, ran, true;
  }

  /** `orchestrate_javascript_benchmark_report`: load, measure the transport if need be, run what is missing, report. */
  method Orchestrate(disk: StateFile, key: Key, defs: seq<Definition>, world: World)
    returns (finished: Option<(Report, nat)>, ran: seq<Stage>)
    requires RoundTrips(disk.codec)
    modifies disk.dir
    ensures Attempt(disk.View(), ran, finished) == RunAttempt(old(disk.View()), key, defs, world)
  {
    hide HasScenario, RecordScenario, Last, ReportScenarios, CountStored, Pick, RunScenarios, Load;
    ran := [];
    if key.config.iterations == 0 {
      return None, [];
    }
    if !world.hasArtifactDir {
      return None, [];
    }
    var loaded := Load(disk.View(), key, defs);
    if loaded.None? {
      return None, [];
    }
    var state := loaded.value;
    var resumed := ResumedStageCount(state, defs);
    if state.transport.None? {
      ran := [Transport];
      if world.transport.Fails? {
        return None, ran;
      }
      state := RecordTransport(state, TransportReports(world.transport.value));
      var goOn := disk.Replace(state, world.transportSave);
      if !goOn {
        return None, ran;
      }
    }
    var last, more, completed := RunRemaining(disk, state, defs, world);
    ran := ran + more;
    if !completed {
      return None, ran;
    }
    return Some((ToReport(last, defs), resumed)), ran;
  }

  /** The program's own definitions, in three parts. */
  const LOCAL_SCENARIOS := [
    Definition("isolate-startup", "startup-floor", "native-execution", "baseline-control"),
    Definition("prewarmed-isolate-startup", "startup-floor", "native-execution", "same-engine-replay"),
    Definition("cold-local-import", "local-import", "native-execution", "true-cold-start"),
    Definition("warm-local-import", "local-import", "native-execution", "new-session-replay"),
    Definition("same-context-local-import", "local-import", "native-execution", "same-session-replay"),
    Definition("prewarmed-local-import", "local-import", "native-execution", "same-engine-replay"),
    Definition("host-local-import", "local-import", "host-node", "host-control")
  ]

  const BUILTIN_SCENARIOS := [
    Definition("builtin-import", "builtin-import", "native-execution", "true-cold-start"),
    Definition("hot-builtin-stream-import", "builtin-hot-import", "native-execution", "same-engine-replay"),
    Definition("hot-builtin-stream-web-import", "builtin-hot-import", "native-execution", "same-engine-replay"),
    Definition("hot-builtin-crypto-import", "builtin-hot-import", "native-execution", "same-engine-replay"),
    Definition("hot-builtin-zlib-import", "builtin-hot-import", "native-execution", "same-engine-replay"),
    Definition("hot-builtin-assert-import", "builtin-hot-import", "native-execution", "same-engine-replay"),
    Definition("hot-builtin-url-import", "builtin-hot-import", "native-execution", "same-engine-replay")
  ]

  const PACKAGE_SCENARIOS := [
    Definition("hot-projected-package-file-import", "projected-package-hot-import", "host-node", "same-engine-replay"),
    Definition("large-package-import", "large-package-import", "host-node", "true-cold-start"),
    Definition("projected-package-import", "projected-package-import", "host-node", "host-control"),
    Definition("pdf-lib-startup", "pdf-lib-startup", "host-node", "host-control"),
    Definition("jszip-startup", "jszip-startup", "host-node", "host-control"),
    Definition("jszip-end-to-end", "jszip-end-to-end", "host-node", "host-control"),
    Definition("jszip-repeated-session-compressed", "jszip-repeated-session-compressed", "host-node", "host-control")
  ]

  /** `benchmark_scenarios`, in its order. */
  const SCENARIOS := LOCAL_SCENARIOS + BUILTIN_SCENARIOS + PACKAGE_SCENARIOS

  /** The length and two characters of an id, which are enough to tell the program's own ids apart. */
  predicate Marked(id: string, length: nat, first: char, thirteenth: char) {
    |id| == length && length > 12 && id[0] == first && id[12] == thirteenth
  }

  predicate LocalMarks(defs: seq<Definition>) {
    && |defs| == 7
    && Marked(defs[0].id, 15, 'i', 't') && Marked(defs[1].id, 25, 'p', 'o') && Marked(defs[2].id, 17, 'c', 'm')
    && Marked(defs[3].id, 17, 'w', 'm') && Marked(defs[4].id, 25, 's', '-') && Marked(defs[5].id, 22, 'p', 'c')
    && Marked(defs[6].id, 17, 'h', 'm')
  }

  predicate BuiltinMarks(defs: seq<Definition>) {
    && |defs| == 7
    && Marked(defs[0].id, 14, 'b', 'r') && Marked(defs[1].id, 25, 'h', 's') && Marked(defs[2].id, 29, 'h', 's')
    && Marked(defs[3].id, 25, 'h', 'c') && Marked(defs[4].id, 23, 'h', 'z') && Marked(defs[5].id, 25, 'h', 'a')
    && Marked(defs[6].id, 22, 'h', 'u')
  }

  predicate PackageMarks(defs: seq<Definition>) {
    && |defs| == 7
    && Marked(defs[0].id, 33, 'h', 'd') && Marked(defs[1].id, 20, 'l', 'e') && Marked(defs[2].id, 24, 'p', 'c')
    && Marked(defs[3].id, 15, 'p', 't') && Marked(defs[4].id, 13, 'j', 'p') && Marked(defs[5].id, 16, 'j', '-')
    && Marked(defs[6].id, 33, 'j', 'e')
  }

  lemma MarksDiffer(a: seq<Definition>, b: seq<Definition>, c: seq<Definition>)
    requires LocalMarks(a) && BuiltinMarks(b) && PackageMarks(c)
    ensures DistinctIds(a + b + c)
  {
  }

  lemma LocalIds()
    ensures LocalMarks(LOCAL_SCENARIOS)
  {
  }

  lemma BuiltinIds()
    ensures BuiltinMarks(BUILTIN_SCENARIOS)
  {
  }

  lemma PackageIds()
    ensures PackageMarks(PACKAGE_SCENARIOS)
  {
  }

  lemma ScenarioParts()
    ensures SCENARIOS == LOCAL_SCENARIOS + BUILTIN_SCENARIOS + PACKAGE_SCENARIOS
  {
  }

  /** The program's own definitions are as the results above need them. */
  lemma ScenariosAreDistinct()
    ensures DistinctIds(SCENARIOS)
  {
    hide *;
    LocalIds();
    BuiltinIds();
    PackageIds();
    ScenarioParts();
    MarksDiffer(LOCAL_SCENARIOS, BUILTIN_SCENARIOS, PACKAGE_SCENARIOS);
  }
}
