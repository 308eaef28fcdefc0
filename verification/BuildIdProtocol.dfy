/**
 The build-id agreement protocol: any number of build scripts resolving the workspace build id
 at once through `build_id.txt` and the lock file `build_id.lock`.

 Each step is one file-system operation and the local work that follows it.  Deadlines, I/O errors,
 crashes and clock readings are nondeterministic.
 */
module BuildIdProtocol {
  import opened Wrappers
  import opened BuildIdFormat

  /** What one process reads from git and its environment. */
  datatype Config = Config(git: string, expected: Option<string>, override: Option<string>) {
    /** A descriptor without leading white space; an epoch only if it formats to a timestamp. */
    predicate WellFormed() {
      && git != [] && !IsSpace(git[0])
      && (expected.Some? ==> IsCompactTimestamp(expected.value))
    }

    predicate Accepts(parsed: (string, string)) {
      parsed.0 == git && (expected.Some? ==> parsed.1 == expected.value)
    }
  }

  datatype Outcome = Ok(id: string) | Err

  /** Where a process is: the operation it performs next. */
  datatype Stage =
    | Start                   // read the file
    | OverrideLock(id: string)
    | CheckLock               // does the lock exist?
    | Acquire                 // create the lock
    | Wait                    // read the file
    | WaitLock                // does the lock still exist?
    | Compare(id: string)     // holding the lock: read the file
    | Rename(id: string)      // holding the lock: replace the file
    | Release(outcome: Outcome)
    | Done(outcome: Outcome)
    | Crashed
  {
    /** Between creating the lock and removing it. */
    predicate Critical() { Compare? || Rename? || Release? }
  }

  datatype State = State(file: Option<string>, lock: Option<nat>, stages: seq<Stage>)

  function ReadBuildId(file: Option<string>): Option<string> {
    if file.Some? && Trim(file.value) != [] then Some(Trim(file.value)) else None
  }

  /** The file's id, when it is one this process accepts. */
  function Matching(c: Config, file: Option<string>): Option<string> {
    match ReadBuildId(file)
    case None => None
    case Some(s) =>
      match ParseBuildId(s)
      case Some(parsed) => if c.Accepts(parsed) then Some(s) else None
      case None => None
  }

  function AfterStart(c: Config, file: Option<string>): Stage {
    match c.override
    case Some(raw) =>
      var id := Trim(raw);
      if id == [] || ParseBuildId(id).None? then Done(Err)
      else if ReadBuildId(file) == Some(id) then Done(Ok(id))
      else OverrideLock(id)
    case None =>
      match Matching(c, file)
      case Some(s) => Done(Ok(s))
      case None => CheckLock
  }

  /** One operation of process `p`: from stage and shared files to the next. */
  ghost predicate Operates(c: Config, p: nat, stage: Stage, file: Option<string>, lock: Option<nat>,
                           stage': Stage, file': Option<string>, lock': Option<nat>)
  {
    match stage
    case Start => file' == file && lock' == lock && stage' == AfterStart(c, file)
    case OverrideLock(id) =>
      && file' == file
      && (|| (lock.None? && lock' == Some(p) && stage' == Compare(id))
          || (lock.Some? && lock' == lock && stage' == stage)
          || (lock' == lock && stage' == Done(Err)))
    case CheckLock => file' == file && lock' == lock && stage' == if lock.Some? then Wait else Acquire
    case Acquire =>
      && file' == file
      && (|| (lock.None? && lock' == Some(p) && exists ts :: Generates(c, ts) && stage' == Compare(c.git + "-" + ts))
          || (lock.Some? && lock' == lock && stage' == Wait)
          || (lock' == lock && stage' == Done(Err)))
    case Wait =>
      && file' == file && lock' == lock
      && (stage' == Done(Err) ||
          match Matching(c, file) case Some(s) => stage' == Done(Ok(s)) case None => stage' == WaitLock)
    case WaitLock => file' == file && lock' == lock && stage' == if lock.Some? then Wait else Done(Err)
    case Compare(id) =>
      && file' == file && lock' == lock
      && (stage' == Release(Err) ||
          stage' == if file.Some? && Trim(file.value) == Trim(id) then Release(Ok(id)) else Rename(id))
    case Rename(id) =>
      && lock' == lock
      && (|| (file' == Some(id) && stage' == Release(Ok(id)))
          || (file' == file && stage' == Release(Err)))
    case Release(outcome) => file' == file && (lock'.None? || lock' == lock) && stage' == Done(outcome)
    case Done(_) => false
    case Crashed => false
  }

  /** The timestamp a generating process uses: the epoch's, else the clock's. */
  predicate Generates(c: Config, ts: string) {
    IsCompactTimestamp(ts) && (c.expected.Some? ==> ts == c.expected.value)
  }

  ghost predicate StepBy(cfgs: seq<Config>, s: State, s': State, p: nat) {
    && p < |cfgs| == |s.stages| == |s'.stages|
    && (forall q :: 0 <= q < |cfgs| && q != p ==> s'.stages[q] == s.stages[q])
    && (|| Operates(cfgs[p], p, s.stages[p], s.file, s.lock, s'.stages[p], s'.file, s'.lock)
        || (!s.stages[p].Done? && s'.stages[p] == Crashed && s'.file == s.file && s'.lock == s.lock))
  }

  ghost predicate Steps(cfgs: seq<Config>, s: State, s': State) {
    exists p :: StepBy(cfgs, s, s', p)
  }

  /** Any file content, and possibly a lock left by a process outside the run. */
  predicate Initial(cfgs: seq<Config>, s: State) {
    && |s.stages| == |cfgs|
    && (forall p :: 0 <= p < |cfgs| ==> s.stages[p] == Start)
    && (s.lock.Some? ==> s.lock.value >= |cfgs|)
  }

  ghost predicate Run(cfgs: seq<Config>, run: seq<State>) {
    && run != [] && Initial(cfgs, run[0])
    && (forall c :: c in cfgs ==> c.WellFormed())
    && (forall i :: 0 < i < |run| ==> Steps(cfgs, run[i - 1], run[i]))
  }

  // ---------- what every reachable state satisfies ----------

  /** The id is one process `c` may return. */
  predicate Rightful(c: Config, id: string) {
    match c.override
    case Some(raw) => id == Trim(raw) && ParseBuildId(id).Some?
    case None => Trim(id) == id && ParseBuildId(id).Some? && c.Accepts(ParseBuildId(id).value)
  }

  predicate StageOk(c: Config, stage: Stage) {
    match stage
    case OverrideLock(id) => c.override.Some? && Rightful(c, id)
    case Compare(id) => Rightful(c, id)
    case Rename(id) => Rightful(c, id)
    case Release(outcome) => outcome.Ok? ==> Rightful(c, outcome.id)
    case Done(outcome) => outcome.Ok? ==> Rightful(c, outcome.id)
    case Start => true
    case Crashed => true
    case _ => c.override.None?
  }

  /** The lock names whoever is in the critical section. */
  predicate Invariant(cfgs: seq<Config>, s: State) {
    && |s.stages| == |cfgs|
    && (forall p :: 0 <= p < |cfgs| ==> StageOk(cfgs[p], s.stages[p]))
    && (forall p :: 0 <= p < |cfgs| && s.stages[p].Critical() ==> s.lock == Some(p))
  }

  lemma MatchingIsRightful(c: Config, file: Option<string>)
    requires c.override.None?
    ensures Matching(c, file).Some? ==> Rightful(c, Matching(c, file).value) && Trim(file.value) == Matching(c, file).value
  {
    if file.Some? {
      TrimTrims(file.value);
      TrimTrims(Trim(file.value));
    }
  }

  lemma GeneratedIsRightful(c: Config, ts: string)
    requires c.WellFormed() && c.override.None? && Generates(c, ts)
    ensures Rightful(c, c.git + "-" + ts)
  {
    FormatRoundTrip(c.git, ts);
  }

  lemma OperationKeepsStage(c: Config, p: nat, stage: Stage, file: Option<string>, lock: Option<nat>,
                            stage': Stage, file': Option<string>, lock': Option<nat>)
    requires c.WellFormed() && StageOk(c, stage)
    requires Operates(c, p, stage, file, lock, stage', file', lock')
    ensures StageOk(c, stage')
    ensures stage'.Critical() ==> (stage.Critical() && lock' == lock) || (lock.None? && lock' == Some(p))
    ensures lock' != lock ==> (lock.None? && lock' == Some(p)) || (stage.Critical() && lock'.None?)
    ensures file' != file ==> stage.Rename?
  {
    if c.override.None? {
      MatchingIsRightful(c, file);
      if stage.Acquire? && stage'.Compare? {
        var ts :| Generates(c, ts) && stage' == Compare(c.git + "-" + ts);
        GeneratedIsRightful(c, ts);
      }
    }
  }

  lemma StepKeepsInvariant(cfgs: seq<Config>, s: State, s': State, p: nat)
    requires forall c :: c in cfgs ==> c.WellFormed()
    requires Invariant(cfgs, s) && StepBy(cfgs, s, s', p)
    ensures Invariant(cfgs, s')
    ensures s'.file != s.file ==> s.stages[p].Rename? && s.lock == Some(p)
  {
    assert cfgs[p].WellFormed();
    if Operates(cfgs[p], p, s.stages[p], s.file, s.lock, s'.stages[p], s'.file, s'.lock) {
      OperationKeepsStage(cfgs[p], p, s.stages[p], s.file, s.lock, s'.stages[p], s'.file, s'.lock);
    }
  }

  lemma {:induction false} InvariantHolds(cfgs: seq<Config>, run: seq<State>, i: nat)
    requires Run(cfgs, run) && i < |run|
    ensures Invariant(cfgs, run[i])
  {
    if i > 0 {
      InvariantHolds(cfgs, run, i - 1);
      assert Steps(cfgs, run[i - 1], run[i]);
      var p :| StepBy(cfgs, run[i - 1], run[i], p);
      StepKeepsInvariant(cfgs, run[i - 1], run[i], p);
    }
  }

  /** At most one process is between creating the lock and removing it. */
  lemma MutualExclusion(cfgs: seq<Config>, run: seq<State>, i: nat, p: nat, q: nat)
    requires Run(cfgs, run) && i < |run| && p < |cfgs| && q < |cfgs|
    requires |run[i].stages| == |cfgs| && run[i].stages[p].Critical() && run[i].stages[q].Critical()
    ensures p == q && run[i].lock == Some(p)
  {
    InvariantHolds(cfgs, run, i);
  }

  /** Only the holder of the lock replaces the file. */
  lemma OnlyHolderReplaces(cfgs: seq<Config>, run: seq<State>, i: nat, p: nat)
    requires Run(cfgs, run) && 0 < i < |run| && StepBy(cfgs, run[i - 1], run[i], p)
    requires run[i].file != run[i - 1].file
    ensures run[i - 1].lock == Some(p) && run[i - 1].stages[p].Rename?
    ensures run[i].file == Some(run[i - 1].stages[p].id) && Rightful(cfgs[p], run[i - 1].stages[p].id)
  {
    InvariantHolds(cfgs, run, i - 1);
    assert StageOk(cfgs[p], run[i - 1].stages[p]);
  }

  /** An Ok id is the override, or parses to the process's own descriptor and its expected timestamp. */
  lemma OkIdIsRightful(cfgs: seq<Config>, run: seq<State>, i: nat, p: nat)
    requires Run(cfgs, run) && i < |run| && p < |cfgs| == |run[i].stages|
    requires run[i].stages[p].Done? && run[i].stages[p].outcome.Ok?
    ensures Rightful(cfgs[p], run[i].stages[p].outcome.id)
  {
    InvariantHolds(cfgs, run, i);
    assert StageOk(cfgs[p], run[i].stages[p]);
  }

  // ---------- provenance ----------

  /** The file held this id, up to surrounding white space, at some moment up to `i`. */
  ghost predicate WasInFile(run: seq<State>, i: nat, id: string)
    requires i < |run|
  {
    exists k :: 0 <= k <= i && run[k].file.Some? && Trim(run[k].file.value) == Trim(id)
  }

  predicate Decided(stage: Stage, id: string) {
    (stage.Release? || stage.Done?) && stage.outcome == Ok(id)
  }

  lemma {:induction false} DecidedWasInFile(cfgs: seq<Config>, run: seq<State>, i: nat, p: nat, id: string)
    requires Run(cfgs, run) && i < |run| && p < |cfgs| == |run[i].stages| && Decided(run[i].stages[p], id)
    ensures WasInFile(run, i, id)
  {
    assert i > 0;
    assert Steps(cfgs, run[i - 1], run[i]);
    var r :| StepBy(cfgs, run[i - 1], run[i], r);
    if Decided(run[i - 1].stages[p], id) {
      DecidedWasInFile(cfgs, run, i - 1, p, id);
      var k :| 0 <= k <= i - 1 && run[k].file.Some? && Trim(run[k].file.value) == Trim(id);
    } else {
      InvariantHolds(cfgs, run, i - 1);
      assert r == p && StageOk(cfgs[p], run[i - 1].stages[p]);
      JustDecided(cfgs[p], p, run[i - 1].stages[p], run[i - 1].file, run[i - 1].lock, run[i].stages[p], run[i].file, run[i].lock, id);
    }
  }

  lemma JustDecided(c: Config, p: nat, stage: Stage, file: Option<string>, lock: Option<nat>,
                    stage': Stage, file': Option<string>, lock': Option<nat>, id: string)
    requires StageOk(c, stage) && !Decided(stage, id) && Decided(stage', id)
    requires Operates(c, p, stage, file, lock, stage', file', lock')
    ensures (file.Some? && Trim(file.value) == Trim(id)) || (file'.Some? && Trim(file'.value) == Trim(id))
  {
    if file.Some? {
      TrimTrims(file.value);
      TrimTrims(Trim(file.value));
    }
    if c.override.Some? {
      TrimTrims(c.override.value);
      TrimTrims(Trim(c.override.value));
    }
  }

  /** Every id returned was in the file at some moment, exactly as returned up to white space around it. */
  lemma OkIdWasInFile(cfgs: seq<Config>, run: seq<State>, i: nat, p: nat)
    requires Run(cfgs, run) && i < |run| && p < |cfgs| == |run[i].stages|
    requires run[i].stages[p].Done? && run[i].stages[p].outcome.Ok?
    ensures exists k :: 0 <= k <= i && run[k].file.Some? && Trim(run[k].file.value) == run[i].stages[p].outcome.id
  {
    var id := run[i].stages[p].outcome.id;
    OkIdIsRightful(cfgs, run, i, p);
    DecidedWasInFile(cfgs, run, i, p, id);
    assert Trim(id) == id by {
      if cfgs[p].override.Some? {
        TrimTrims(cfgs[p].override.value);
        TrimTrims(id);
      }
    }
    var k :| 0 <= k <= i && run[k].file.Some? && Trim(run[k].file.value) == Trim(id);
  }

  // ---------- agreement ----------

  ghost predicate AgreeIn(s: State, p: nat, q: nat) {
    p < |s.stages| && q < |s.stages| && s.stages[p].Done? && s.stages[q].Done?
    && s.stages[p].outcome.Ok? && s.stages[q].outcome.Ok? ==>
      s.stages[p].outcome == s.stages[q].outcome
  }

  /** In every run, whenever both have returned an id, it is the same id. */
  ghost predicate AlwaysAgree(cfgs: seq<Config>, p: nat, q: nat) {
    forall run, i {:trigger Run(cfgs, run), AgreeIn(run[i], p, q)} ::
      Run(cfgs, run) && 0 <= i < |run| ==> AgreeIn(run[i], p, q)
  }

  lemma AgreeWithEpoch(cfgs: seq<Config>, p: nat, q: nat, run: seq<State>, i: nat)
    requires Run(cfgs, run) && i < |run| && p < |cfgs| && q < |cfgs|
    requires cfgs[p].override.None? && cfgs[q].override.None? && cfgs[p].expected.Some?
    requires cfgs[p].git == cfgs[q].git && cfgs[p].expected == cfgs[q].expected
    ensures AgreeIn(run[i], p, q)
  {
    InvariantHolds(cfgs, run, i);
    var a, b := run[i].stages[p], run[i].stages[q];
    assert StageOk(cfgs[p], a) && StageOk(cfgs[q], b);
    if a.Done? && b.Done? && a.outcome.Ok? && b.outcome.Ok? {
      ParseSplits(a.outcome.id);
      ParseSplits(b.outcome.id);
    }
  }

  lemma ExtendRun(cfgs: seq<Config>, run: seq<State>, s: State, p: nat) returns (longer: seq<State>)
    requires Run(cfgs, run) && StepBy(cfgs, run[|run| - 1], s, p)
    ensures Run(cfgs, longer) && longer == run + [s]
  {
    longer := run + [s];
    forall i | 0 < i < |longer| ensures Steps(cfgs, longer[i - 1], longer[i]) {
      if i < |run| { assert Steps(cfgs, run[i - 1], run[i]); }
    }
  }

  /** Process `p`, past its checks and finding the lock free, generates, writes and returns its own id. */
  lemma RunGeneration(cfgs: seq<Config>, run: seq<State>, p: nat, ts: string) returns (longer: seq<State>)
    requires Run(cfgs, run) && p < |cfgs| && Generates(cfgs[p], ts)
    requires var s := run[|run| - 1];
             |s.stages| == |cfgs| && s.stages[p] == Acquire && s.lock.None?
             && (s.file.Some? ==> Trim(s.file.value) != Trim(cfgs[p].git + "-" + ts))
    ensures Run(cfgs, longer)
    ensures var s := run[|run| - 1];
            var id := cfgs[p].git + "-" + ts;
            longer[|longer| - 1] == State(Some(id), None, s.stages[p := Done(Ok(id))])
  {
    var s := run[|run| - 1];
    var id := cfgs[p].git + "-" + ts;
    longer := ExtendRun(cfgs, run, State(s.file, Some(p), s.stages[p := Compare(id)]), p);
    longer := ExtendRun(cfgs, longer, State(s.file, Some(p), s.stages[p := Rename(id)]), p);
    longer := ExtendRun(cfgs, longer, State(Some(id), Some(p), s.stages[p := Release(Ok(id))]), p);
    longer := ExtendRun(cfgs, longer, State(Some(id), None, s.stages[p := Done(Ok(id))]), p);
  }

  /** Process `p` finds neither file nor lock. */
  lemma RunChecks(cfgs: seq<Config>, run: seq<State>, p: nat) returns (longer: seq<State>)
    requires Run(cfgs, run) && p < |cfgs| && cfgs[p].override.None?
    requires var s := run[|run| - 1];
             |s.stages| == |cfgs| && s.stages[p] == Start && s.lock.None? && s.file.None?
    ensures Run(cfgs, longer)
    ensures var s := run[|run| - 1]; longer[|longer| - 1] == State(None, None, s.stages[p := Acquire])
  {
    var s := run[|run| - 1];
    longer := ExtendRun(cfgs, run, State(None, None, s.stages[p := CheckLock]), p);
    longer := ExtendRun(cfgs, longer, State(None, None, s.stages[p := Acquire]), p);
  }

  lemma DistinctIds(git: string, ts1: string, ts2: string)
    requires git != [] && !IsSpace(git[0]) && IsCompactTimestamp(ts1) && IsCompactTimestamp(ts2) && ts1 != ts2
    ensures Trim(git + "-" + ts1) != Trim(git + "-" + ts2) && git + "-" + ts1 != git + "-" + ts2
  {
    FormatRoundTrip(git, ts1);
    FormatRoundTrip(git, ts2);
  }

  /** Both find no file and no lock, and then generate one after the other: the second never looks again. */
  lemma DivergeWithoutEpoch(cfgs: seq<Config>, p: nat, q: nat) returns (run: seq<State>)
    requires p < |cfgs| && q < |cfgs| && p != q && forall c :: c in cfgs ==> c.WellFormed()
    requires cfgs[p].override.None? && cfgs[q].override.None? && cfgs[p].expected.None? && cfgs[q].expected.None?
    requires cfgs[p].git == cfgs[q].git
    ensures Run(cfgs, run) && !AgreeIn(run[|run| - 1], p, q)
  {
    var ts1, ts2 := "00000000000000", "11111111111111";
    assert ts1[0] != ts2[0] && cfgs[p] in cfgs && cfgs[p].WellFormed();
    DistinctIds(cfgs[p].git, ts1, ts2);
    run := [State(None, None, seq(|cfgs|, _ => Start))];
    run := RunChecks(cfgs, run, p);
    run := RunChecks(cfgs, run, q);
    run := RunGeneration(cfgs, run, p, ts1);
    run := RunGeneration(cfgs, run, q, ts2);
  }

  /** Two build scripts at the same commit and epoch agree in every run exactly when the epoch is set. */
  lemma AgreementExactlyWithEpoch(cfgs: seq<Config>, p: nat, q: nat)
    requires p < |cfgs| && q < |cfgs| && p != q && forall c :: c in cfgs ==> c.WellFormed()
    requires cfgs[p].override.None? && cfgs[q].override.None?
    requires cfgs[p].git == cfgs[q].git && cfgs[p].expected == cfgs[q].expected
    ensures AlwaysAgree(cfgs, p, q) <==> cfgs[p].expected.Some?
  {
    if cfgs[p].expected.Some? {
      forall run, i | Run(cfgs, run) && 0 <= i < |run| ensures AgreeIn(run[i], p, q) {
        AgreeWithEpoch(cfgs, p, q, run, i);
      }
    } else {
      var run := DivergeWithoutEpoch(cfgs, p, q);
      assert !AgreeIn(run[|run| - 1], p, q);
    }
  }
}
