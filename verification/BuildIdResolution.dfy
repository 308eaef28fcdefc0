/**
 What resolving the build id returns, said of the file's content: an id already there is returned and left
 alone, one that is not is generated and left there.
 */
module BuildIdResolution {
  import opened Wrappers
  import opened BuildIdFormat
  import opened BuildIdProtocol

  predicate FourteenDigits(ts: string) {
    |ts| == 14 && forall k :: 0 <= k < 14 ==> '0' <= ts[k] <= '9'
  }

  /** A timestamp this process takes: fourteen digits, and the epoch's when one is set. */
  predicate Timely(c: Config, ts: string) {
    FourteenDigits(ts) && (c.expected.Some? ==> ts == c.expected.value)
  }

  /** The file is the process's own descriptor, a dash and `ts`, but for white space around them. */
  ghost predicate HoldsOwn(c: Config, file: Option<string>, ts: string) {
    file.Some? && Timely(c, ts) && Around(file.value, c.git + "-" + ts)
  }

  ghost predicate HoldsSomeOwn(c: Config, file: Option<string>) {
    exists ts :: HoldsOwn(c, file, ts)
  }

  lemma OwnMatches(c: Config, file: Option<string>, ts: string)
    requires c.WellFormed() && HoldsOwn(c, file, ts)
    ensures Matching(c, file) == Some(c.git + "-" + ts) && Trim(file.value) == c.git + "-" + ts
  {
    var id := c.git + "-" + ts;
    OwnIsCanonical(c.git, ts, id);
    TrimFinds(file.value, id);
  }

  lemma OwnIsCanonical(git: string, ts: string, id: string)
    requires git != [] && !IsSpace(git[0]) && FourteenDigits(ts) && id == git + "-" + ts
    ensures id != [] && Trimmed(id) && ParseBuildId(id) == Some((git, ts))
  {
    FormatRoundTrip(git, ts);
    TrimFixes(id);
  }

  lemma MatchIsOwn(c: Config, file: Option<string>, s: string)
    requires Matching(c, file) == Some(s)
    ensures HoldsSomeOwn(c, file)
  {
    TrimTrims(file.value);
    TrimTrims(Trim(file.value));
    ParseSplits(Trim(file.value));
    var ts := ParseBuildId(Trim(file.value)).value.1;
    assert HoldsOwn(c, file, ts);
  }

  lemma OwnExactly(c: Config, file: Option<string>)
    requires c.WellFormed()
    ensures Matching(c, file).Some? <==> HoldsSomeOwn(c, file)
  {
    if Matching(c, file).Some? { MatchIsOwn(c, file, Matching(c, file).value); }
    if ts :| HoldsOwn(c, file, ts) { OwnMatches(c, file, ts); }
  }

  // ---------- one step of any run ----------

  /** Step `i` of the run is an operation of process `p`, which does not crash in it. */
  ghost predicate Acts(cfgs: seq<Config>, run: seq<State>, i: nat, p: nat) {
    && Run(cfgs, run) && 0 < i < |run| && StepBy(cfgs, run[i - 1], run[i], p) && !run[i].stages[p].Crashed?
  }

  /** A process that starts and finds its own id in the file returns it at once, and touches nothing. */
  lemma FastPath(cfgs: seq<Config>, run: seq<State>, i: nat, p: nat, ts: string)
    requires Acts(cfgs, run, i, p) && run[i - 1].stages[p] == Start && cfgs[p].override.None?
    requires HoldsOwn(cfgs[p], run[i - 1].file, ts)
    ensures run[i].stages[p] == Done(Ok(cfgs[p].git + "-" + ts))
    ensures run[i].file == run[i - 1].file && run[i].lock == run[i - 1].lock
  {
    assert cfgs[p] in cfgs;
    OwnMatches(cfgs[p], run[i - 1].file, ts);
  }

  /** One that does not find it goes on to the lock, touching nothing yet. */
  lemma SlowPath(cfgs: seq<Config>, run: seq<State>, i: nat, p: nat)
    requires Acts(cfgs, run, i, p) && run[i - 1].stages[p] == Start && cfgs[p].override.None?
    requires !HoldsSomeOwn(cfgs[p], run[i - 1].file)
    ensures run[i].stages[p] == CheckLock && run[i].file == run[i - 1].file && run[i].lock == run[i - 1].lock
  {
    assert cfgs[p] in cfgs;
    OwnExactly(cfgs[p], run[i - 1].file);
  }

  /** A waiting process returns its own id as soon as it reads it, unless its time is up; otherwise it looks at the lock again. */
  lemma WaitFindsOwn(cfgs: seq<Config>, run: seq<State>, i: nat, p: nat, ts: string)
    requires Acts(cfgs, run, i, p) && run[i - 1].stages[p] == Wait
    ensures HoldsOwn(cfgs[p], run[i - 1].file, ts) ==>
            run[i].stages[p] == Done(Ok(cfgs[p].git + "-" + ts)) || run[i].stages[p] == Done(Err)
    ensures !HoldsSomeOwn(cfgs[p], run[i - 1].file) ==> run[i].stages[p] == WaitLock || run[i].stages[p] == Done(Err)
    ensures run[i].file == run[i - 1].file && run[i].lock == run[i - 1].lock
  {
    assert cfgs[p] in cfgs;
    OwnExactly(cfgs[p], run[i - 1].file);
    if HoldsOwn(cfgs[p], run[i - 1].file, ts) { OwnMatches(cfgs[p], run[i - 1].file, ts); }
  }

  // ---------- waiting ----------

  predicate Waiting(stage: Stage) { stage.Wait? || stage.WaitLock? || stage.Done? || stage.Crashed? }

  lemma StaysWaiting(cfgs: seq<Config>, s: State, s': State, p: nat, q: nat)
    requires StepBy(cfgs, s, s', q) && p < |s.stages| && Waiting(s.stages[p])
    ensures Waiting(s'.stages[p]) && (p == q ==> s'.file == s.file && s'.lock == s.lock)
  {
  }

  lemma {:induction false} WaitersStay(cfgs: seq<Config>, run: seq<State>, i: nat, j: nat, p: nat)
    requires Run(cfgs, run) && i <= j < |run| && p < |run[i].stages| && Waiting(run[i].stages[p])
    ensures p < |run[j].stages| && Waiting(run[j].stages[p])
  {
    if i < j {
      WaitersStay(cfgs, run, i, j - 1, p);
      assert Steps(cfgs, run[j - 1], run[j]);
      var q: nat :| StepBy(cfgs, run[j - 1], run[j], q);
      StaysWaiting(cfgs, run[j - 1], run[j], p, q);
    }
  }

  /** Having read in vain, a waiting process reads again exactly while the lock is there; once it is gone, it gives up. */
  lemma WaitGoesOn(cfgs: seq<Config>, run: seq<State>, i: nat, p: nat)
    requires Acts(cfgs, run, i, p) && run[i - 1].stages[p] == WaitLock
    ensures run[i].stages[p] == Wait <==> run[i - 1].lock.Some?
    ensures run[i].stages[p] == Done(Err) <==> run[i - 1].lock.None?
  {
  }

  /** A process that found the lock taken only ever reads from then on: it never takes the lock or writes the file. */
  lemma WaitersNeverWrite(cfgs: seq<Config>, run: seq<State>, i: nat, j: nat, p: nat)
    requires Acts(cfgs, run, i, p) && run[i - 1].lock.Some? && (run[i - 1].stages[p] == CheckLock || run[i - 1].stages[p] == Acquire)
    requires i < j < |run| && StepBy(cfgs, run[j - 1], run[j], p)
    ensures run[j].file == run[j - 1].file && run[j].lock == run[j - 1].lock && !run[j].stages[p].Critical()
  {
    WaitersStay(cfgs, run, i, j - 1, p);
    StaysWaiting(cfgs, run[j - 1], run[j], p, p);
  }

  // ---------- a process on its own ----------

  /** Only `p` acts, and no lock is there when it starts. */
  ghost predicate Alone(cfgs: seq<Config>, run: seq<State>, p: nat) {
    && Run(cfgs, run) && p < |cfgs| && run[0].lock.None?
    && forall i :: 0 < i < |run| ==> StepBy(cfgs, run[i - 1], run[i], p)
  }

  /** `id` is freshly made by `c`. */
  ghost predicate Made(c: Config, id: string) {
    exists ts :: Timely(c, ts) && id == c.git + "-" + ts
  }

  /** How far a process without override can be that started alone with the file `was`. */
  ghost predicate Progress(c: Config, p: nat, was: Option<string>, stage: Stage, file: Option<string>, lock: Option<nat>) {
    match stage
    case Start => file == was && lock.None?
    case CheckLock => file == was && lock.None? && !HoldsSomeOwn(c, was)
    case Acquire => file == was && lock.None? && !HoldsSomeOwn(c, was)
    case Compare(id) => file == was && !HoldsSomeOwn(c, was) && Made(c, id)
    case Rename(id) => file == was && !HoldsSomeOwn(c, was) && Made(c, id)
    case Release(outcome) => !HoldsSomeOwn(c, was) && (outcome.Ok? ==> Made(c, outcome.id) && file == Some(outcome.id))
    case Done(outcome) => outcome.Ok? ==>
      (HoldsSomeOwn(c, was) ==> file == was && exists ts :: HoldsOwn(c, was, ts) && outcome.id == c.git + "-" + ts)
      && (!HoldsSomeOwn(c, was) ==> Made(c, outcome.id) && file == Some(outcome.id))
    case Crashed => true
    case _ => false
  }

  /** A generated id that is already in the file would have been found there. */
  lemma GeneratedIsNew(c: Config, file: Option<string>, id: string)
    requires c.WellFormed() && Made(c, id) && !HoldsSomeOwn(c, file)
    ensures file.Some? ==> Trim(file.value) != Trim(id)
  {
    var ts :| Timely(c, ts) && id == c.git + "-" + ts;
    FormatRoundTrip(c.git, ts);
    if file.Some? {
      TrimTrims(file.value);
      assert Trim(file.value) == id ==> HoldsOwn(c, file, ts);
    }
  }

  lemma StartProgress(c: Config, p: nat, file: Option<string>)
    requires c.WellFormed() && c.override.None?
    ensures Progress(c, p, file, AfterStart(c, file), file, None)
  {
    OwnExactly(c, file);
    if ts :| HoldsOwn(c, file, ts) { OwnMatches(c, file, ts); }
  }

  lemma OperationProgresses(c: Config, p: nat, was: Option<string>, stage: Stage, file: Option<string>, lock: Option<nat>,
                            stage': Stage, file': Option<string>, lock': Option<nat>)
    requires c.WellFormed() && c.override.None? && Progress(c, p, was, stage, file, lock)
    requires Operates(c, p, stage, file, lock, stage', file', lock')
    ensures Progress(c, p, was, stage', file', lock')
  {
    match stage
    case Start => StartProgress(c, p, file);
    case Acquire =>
      if stage'.Compare? {
        var ts :| Generates(c, ts) && stage' == Compare(c.git + "-" + ts);
        assert Timely(c, ts);
      }
    case Compare(id) => GeneratedIsNew(c, file, id);
    case _ =>
  }

  lemma {:induction false} AloneProgresses(cfgs: seq<Config>, run: seq<State>, p: nat, i: nat)
    requires Alone(cfgs, run, p) && cfgs[p].override.None? && i < |run|
    ensures p < |run[i].stages| && Progress(cfgs[p], p, run[0].file, run[i].stages[p], run[i].file, run[i].lock)
  {
    if i > 0 {
      AloneProgresses(cfgs, run, p, i - 1);
      var s, s' := run[i - 1], run[i];
      assert StepBy(cfgs, s, s', p) && cfgs[p] in cfgs;
      if Operates(cfgs[p], p, s.stages[p], s.file, s.lock, s'.stages[p], s'.file, s'.lock) {
        OperationProgresses(cfgs[p], p, run[0].file, s.stages[p], s.file, s.lock, s'.stages[p], s'.file, s'.lock);
      }
    }
  }

  /**
   A process on its own that returns an id returns the one in the file, which stays as it was, if that is its
   own; otherwise its descriptor with a fresh timestamp, which is then what the file holds.
   */
  lemma AloneResolves(cfgs: seq<Config>, run: seq<State>, p: nat, i: nat)
    requires Alone(cfgs, run, p) && cfgs[p].override.None? && i < |run|
    requires p < |run[i].stages| && run[i].stages[p].Done? && run[i].stages[p].outcome.Ok?
    ensures var id := run[i].stages[p].outcome.id;
            if HoldsSomeOwn(cfgs[p], run[0].file) then
              run[i].file == run[0].file && exists ts :: HoldsOwn(cfgs[p], run[0].file, ts) && id == cfgs[p].git + "-" + ts
            else Made(cfgs[p], id) && run[i].file == Some(id)
  {
    AloneProgresses(cfgs, run, p, i);
  }

  // ---------- an override on its own ----------

  /** `id` is something without white space at its front, a dash and fourteen digits. */
  predicate CanonicalAs(id: string, git: string, ts: string) {
    git != [] && !IsSpace(git[0]) && FourteenDigits(ts) && id == git + "-" + ts
  }

  ghost predicate Canonical(id: string) {
    exists git, ts :: CanonicalAs(id, git, ts)
  }

  /** The override is a canonical id, but for white space around it. */
  ghost predicate Overrides(raw: string, id: string) {
    Around(raw, id) && Canonical(id)
  }

  lemma OverrideParses(raw: string, id: string)
    requires Overrides(raw, id)
    ensures Trim(raw) == id && id != [] && ParseBuildId(id).Some?
  {
    var git, ts :| CanonicalAs(id, git, ts);
    FormatRoundTrip(git, ts);
    TrimTrims(id);
    TrimFinds(raw, id);
  }

  lemma ParsedOverrides(raw: string)
    requires ParseBuildId(Trim(raw)).Some?
    ensures Overrides(raw, Trim(raw))
  {
    TrimTrims(raw);
    TrimTrims(Trim(raw));
    ParseSplits(Trim(raw));
    var parsed := ParseBuildId(Trim(raw)).value;
    assert Trim(raw)[0] == parsed.0[0];
    assert CanonicalAs(Trim(raw), parsed.0, parsed.1);
  }

  /** The first step with an override: an error if it is no id, the id if the file holds it already, else the lock. */
  lemma OverrideStarts(cfgs: seq<Config>, run: seq<State>, i: nat, p: nat, id: string)
    requires Acts(cfgs, run, i, p) && run[i - 1].stages[p] == Start && cfgs[p].override.Some?
    ensures (forall x :: !Overrides(cfgs[p].override.value, x)) ==> run[i].stages[p] == Done(Err)
    ensures Overrides(cfgs[p].override.value, id) ==>
            run[i].stages[p] == if run[i - 1].file.Some? && Around(run[i - 1].file.value, id) then Done(Ok(id)) else OverrideLock(id)
    ensures run[i].file == run[i - 1].file && run[i].lock == run[i - 1].lock
  {
    var raw, file := cfgs[p].override.value, run[i - 1].file;
    if ParseBuildId(Trim(raw)).Some? { ParsedOverrides(raw); }
    if Overrides(raw, id) {
      OverrideParses(raw, id);
      TrimTrims(raw);
      if file.Some? {
        TrimTrims(file.value);
        if Around(file.value, id) { TrimFinds(file.value, id); }
      }
    }
  }

  /** How far a process can be whose override is the id `id`. */
  ghost predicate OverrideProgress(id: string, stage: Stage, file: Option<string>) {
    match stage
    case Start => true
    case OverrideLock(x) => x == id
    case Compare(x) => x == id
    case Rename(x) => x == id
    case Release(outcome) => outcome.Ok? ==> outcome.id == id && file.Some? && Around(file.value, id)
    case Done(outcome) => outcome.Ok? ==> outcome.id == id && file.Some? && Around(file.value, id)
    case Crashed => true
    case _ => false
  }

  lemma AroundTrimmed(s: string, id: string)
    requires Trim(s) == Trim(id) && Trim(id) == id
    ensures Around(s, id)
  {
    TrimTrims(s);
  }

  lemma AroundItself(id: string)
    ensures Around(id, id)
  {
    assert Spaces([]) && id == [] + id + [];
  }

  lemma OverrideOperation(c: Config, p: nat, stage: Stage, file: Option<string>, lock: Option<nat>,
                          stage': Stage, file': Option<string>, lock': Option<nat>, id: string)
    requires c.override.Some? && Trim(c.override.value) == id == Trim(id) && OverrideProgress(id, stage, file)
    requires Operates(c, p, stage, file, lock, stage', file', lock')
    ensures OverrideProgress(id, stage', file')
  {
    AroundItself(id);
    if file.Some? && Trim(file.value) == id { AroundTrimmed(file.value, id); }
  }

  lemma {:induction false} OverrideProgresses(cfgs: seq<Config>, run: seq<State>, p: nat, i: nat, id: string)
    requires Alone(cfgs, run, p) && cfgs[p].override.Some? && Trim(cfgs[p].override.value) == id == Trim(id) && i < |run|
    ensures p < |run[i].stages| && OverrideProgress(id, run[i].stages[p], run[i].file)
  {
    if i > 0 {
      OverrideProgresses(cfgs, run, p, i - 1, id);
      var s, s' := run[i - 1], run[i];
      assert StepBy(cfgs, s, s', p);
      if Operates(cfgs[p], p, s.stages[p], s.file, s.lock, s'.stages[p], s'.file, s'.lock) {
        OverrideOperation(cfgs[p], p, s.stages[p], s.file, s.lock, s'.stages[p], s'.file, s'.lock, id);
      }
    }
  }

  /** A process with an override, on its own, that returns an id returns the override, and the file holds it. */
  lemma OverrideResolves(cfgs: seq<Config>, run: seq<State>, p: nat, i: nat)
    requires Alone(cfgs, run, p) && cfgs[p].override.Some? && i < |run| && p < |run[i].stages|
    requires run[i].stages[p].Done? && run[i].stages[p].outcome.Ok?
    ensures var id := run[i].stages[p].outcome.id;
            Overrides(cfgs[p].override.value, id) && run[i].file.Some? && Around(run[i].file.value, id)
  {
    var raw := cfgs[p].override.value;
    TrimTrims(raw);
    TrimTrims(Trim(raw));
    OverrideProgresses(cfgs, run, p, i, Trim(raw));
    assert |run[i].stages| == |cfgs| by { InvariantHolds(cfgs, run, i); }
    OkIdIsRightful(cfgs, run, i, p);
    ParsedOverrides(raw);
  }
}
