/**
  One instance's policy cache under concurrency: commits by any writer interleave with the single steps
  of the reload that holds the reload token, down to the moment between swapping the enforcer and
  storing its version under the write lock.
 */
module ReloadProtocol {
  import opened PolicyHistory
  import opened PolicyStores

  /**
    Where the holder of the reload token stands; `Idle` when the token is free. `start` remembers the
    database version when the token was taken and takes no part in any decision.
   */
  datatype Phase =
    | Idle
    | Loading(start: nat, attempt: nat)
    | HasVersion(start: nat, attempt: nat, before: nat)
    | HasRows(start: nat, attempt: nat, before: nat, rows: set<Rule>)
    | Built(start: nat, rows: set<Rule>)
    | Locked(start: nat, rows: set<Rule>)
    | Installed(start: nat)

  datatype State = State(db: PolicyDb, e: set<Rule>, loadedVersion: nat, adapterVersion: nat, phase: Phase)

  datatype Step = Commit(op: Op) | Begin | ReadVersion | ReadRows | Recheck | Fail | Lock | Install | Release

  /** The write lock on the enforcer is free. */
  predicate LockFree(s: State) {
    !s.phase.Locked? && !s.phase.Installed?
  }

  ghost predicate Next(known: set<string>, s: State, step: Step, s': State) {
    match step
    case Commit(op) =>
      s' == s.(db := s'.db) && exists r :: Write(s.db, known, op, s'.db, r)
    case Begin =>
      s.phase.Idle? && s' == s.(phase := Loading(s.db.version, 0))
    case ReadVersion =>
      && s.phase.Loading? && s.phase.attempt < LOAD_ATTEMPTS
      && s' == s.(phase := HasVersion(s.phase.start, s.phase.attempt, s.db.version))
    case ReadRows =>
      && s.phase.HasVersion?
      && s' == s.(phase := HasRows(s.phase.start, s.phase.attempt, s.phase.before, s.db.rules))
    case Recheck =>
      && s.phase.HasRows?
      && s' == if s.phase.before == s.db.version
               then s.(adapterVersion := s.db.version, phase := Built(s.phase.start, s.phase.rows))
               else s.(phase := Loading(s.phase.start, s.phase.attempt + 1))
    case Fail =>  // a failed read, five unstable attempts, or role links that cannot be built
      !s.phase.Idle? && LockFree(s) && s' == s.(phase := Idle)
    case Lock =>
      s.phase.Built? && s' == s.(phase := Locked(s.phase.start, s.phase.rows))
    case Install =>
      s.phase.Locked? && s' == s.(e := s.phase.rows, phase := Installed(s.phase.start))
    case Release =>
      s.phase.Installed? && s' == s.(loadedVersion := s.adapterVersion, phase := Idle)
  }

  ghost predicate Start(base: PolicyDb, s: State) {
    && Initial(base) && s.db == base && s.phase.Idle?
    && s.e == base.rules && s.loadedVersion == s.adapterVersion == base.version
  }

  ghost predicate Committed(base: PolicyDb, db: PolicyDb, v: nat, rules: set<Rule>) {
    base.version <= v <= db.version && db.version == base.version + |db.audits| && rules == RulesAt(base, db, v)
  }

  ghost predicate Inv(base: PolicyDb, s: State) {
    && History(base, s.db)
    && base.version <= s.loadedVersion <= s.adapterVersion <= s.db.version
    && (if s.phase.Installed? then Committed(base, s.db, s.adapterVersion, s.e)
        else Committed(base, s.db, s.loadedVersion, s.e))
    && (!s.phase.Idle? ==> s.loadedVersion <= s.phase.start <= s.db.version)
    && match s.phase
       case HasVersion(start, _, before) => start <= before <= s.db.version
       case HasRows(start, _, before, rows) =>
         start <= before && exists w :: before <= w <= s.db.version && Committed(base, s.db, w, rows)
       case Built(start, rows) => start <= s.adapterVersion && Committed(base, s.db, s.adapterVersion, rows)
       case Locked(start, rows) => start <= s.adapterVersion && Committed(base, s.db, s.adapterVersion, rows)
       case Installed(start) => start <= s.adapterVersion
       case _ => true
  }

  lemma CommittedStable(base: PolicyDb, db: PolicyDb, db': PolicyDb, v: nat, rules: set<Rule>)
    requires Evolves(base, db, db') && Committed(base, db, v, rules)
    ensures Committed(base, db', v, rules)
  {
    RulesAtStable(base, db, db', v);
  }

  lemma CommitKeepsInv(base: PolicyDb, known: set<string>, s: State, op: Op, s': State)
    requires Inv(base, s) && Next(known, s, Commit(op), s')
    ensures Inv(base, s')
  {
    var r :| Write(s.db, known, op, s'.db, r);
    WriteKeepsHistory(base, s.db, known, op, s'.db, r);
    CommittedStable(base, s.db, s'.db, if s.phase.Installed? then s.adapterVersion else s.loadedVersion, s.e);
    match s.phase
    case HasRows(_, _, before, rows) =>
      var w :| before <= w <= s.db.version && Committed(base, s.db, w, rows);
      CommittedStable(base, s.db, s'.db, w, rows);
    case Built(_, rows) => CommittedStable(base, s.db, s'.db, s.adapterVersion, rows);
    case Locked(_, rows) => CommittedStable(base, s.db, s'.db, s.adapterVersion, rows);
    case _ =>
  }

  lemma ReadRowsKeepsInv(base: PolicyDb, known: set<string>, s: State, s': State)
    requires Inv(base, s) && Next(known, s, ReadRows, s')
    ensures Inv(base, s')
  {
    RulesNow(base, s.db);
    assert Committed(base, s.db, s.db.version, s.db.rules);
  }

  /** Equal versions around the read pin the rows to the version just recorded. */
  lemma RecheckKeepsInv(base: PolicyDb, known: set<string>, s: State, s': State)
    requires Inv(base, s) && Next(known, s, Recheck, s')
    ensures Inv(base, s')
  {
    var w :| s.phase.before <= w <= s.db.version && Committed(base, s.db, w, s.phase.rows);
    assert s.phase.before == s.db.version ==> w == s.db.version;
  }

  lemma LoaderStepKeepsInv(base: PolicyDb, known: set<string>, s: State, step: Step, s': State)
    requires Inv(base, s) && Next(known, s, step, s')
    requires step.Begin? || step.ReadVersion? || step.Fail?
    ensures Inv(base, s')
  {
  }

  lemma PublishStepKeepsInv(base: PolicyDb, known: set<string>, s: State, step: Step, s': State)
    requires Inv(base, s) && Next(known, s, step, s')
    requires step.Lock? || step.Install? || step.Release?
    ensures Inv(base, s')
  {
  }

  lemma VersionsGrow(base: PolicyDb, known: set<string>, s: State, step: Step, s': State)
    requires Inv(base, s) && Next(known, s, step, s')
    ensures s.loadedVersion <= s'.loadedVersion && s.db.version <= s'.db.version
  {
  }

  lemma StepKeepsInv(base: PolicyDb, known: set<string>, s: State, step: Step, s': State)
    requires Inv(base, s) && Next(known, s, step, s')
    ensures Inv(base, s') && s.loadedVersion <= s'.loadedVersion && s.db.version <= s'.db.version
  {
    VersionsGrow(base, known, s, step, s');
    if step.Commit? {
      CommitKeepsInv(base, known, s, step.op, s');
    } else if step.Lock? || step.Install? || step.Release? {
      PublishStepKeepsInv(base, known, s, step, s');
    } else if step.ReadRows? {
      ReadRowsKeepsInv(base, known, s, s');
    } else if step.Recheck? {
      RecheckKeepsInv(base, known, s, s');
    } else {
      LoaderStepKeepsInv(base, known, s, step, s');
    }
  }

  // ---------- runs ----------

  ghost predicate Trace(base: PolicyDb, known: set<string>, states: seq<State>, steps: seq<Step>) {
    && |states| == |steps| + 1 && Start(base, states[0])
    && forall i | 0 <= i < |steps| :: Next(known, states[i], steps[i], states[i + 1])
  }

  lemma {:induction false} TraceKeepsInv(base: PolicyDb, known: set<string>, states: seq<State>, steps: seq<Step>, i: nat)
    requires Trace(base, known, states, steps) && i < |states|
    ensures Inv(base, states[i])
    decreases i
  {
    if i == 0 {
      InitialHistory(base);
      RulesNow(base, base);
    } else {
      TraceKeepsInv(base, known, states, steps, i - 1);
      StepKeepsInv(base, known, states[i - 1], steps[i - 1], states[i]);
    }
  }

  /** Whenever the write lock is free, the installed rules are the ones committed at the reported version. */
  lemma CacheIsAVersion(base: PolicyDb, known: set<string>, states: seq<State>, steps: seq<Step>, i: nat)
    requires Trace(base, known, states, steps) && i < |states| && LockFree(states[i])
    ensures var s := states[i];
            && base.version <= s.loadedVersion <= s.db.version == base.version + |s.db.audits|
            && s.e == RulesAt(base, s.db, s.loadedVersion)
  {
    TraceKeepsInv(base, known, states, steps, i);
  }

  lemma TraceStep(base: PolicyDb, known: set<string>, states: seq<State>, steps: seq<Step>, i: nat)
    requires Trace(base, known, states, steps) && i < |steps|
    ensures states[i].loadedVersion <= states[i + 1].loadedVersion
    ensures states[i].db.version <= states[i + 1].db.version
  {
    TraceKeepsInv(base, known, states, steps, i);
    StepKeepsInv(base, known, states[i], steps[i], states[i + 1]);
  }

  /** The reported version never goes back. */
  lemma {:induction false} LoadedVersionMonotone(base: PolicyDb, known: set<string>, states: seq<State>,
                                                 steps: seq<Step>, i: nat, j: nat)
    requires Trace(base, known, states, steps) && i <= j < |states|
    ensures states[i].loadedVersion <= states[j].loadedVersion
    ensures states[i].db.version <= states[j].db.version
    decreases j
  {
    if i < j {
      LoadedVersionMonotone(base, known, states, steps, i, j - 1);
      TraceStep(base, known, states, steps, j - 1);
    }
  }

  /** The steps j..k belong to one reload: it takes the token at j and still holds it when step k runs. */
  ghost predicate OneReload(states: seq<State>, steps: seq<Step>, j: nat, k: nat) {
    && j < k < |steps| && |states| == |steps| + 1
    && steps[j].Begin? && forall m | j < m <= k :: !states[m].phase.Idle?
  }

  lemma {:induction false} WithinReload(base: PolicyDb, known: set<string>, states: seq<State>, steps: seq<Step>,
                                        j: nat, k: nat, m: nat)
    requires Trace(base, known, states, steps) && OneReload(states, steps, j, k) && j < m <= k
    ensures states[m].phase.start == states[j].db.version
    ensures LockFree(states[m]) ==>
              states[m].e == states[j].e && states[m].loadedVersion == states[j].loadedVersion
    decreases m
  {
    assert Next(known, states[m - 1], steps[m - 1], states[m]);
    if m > j + 1 {
      WithinReload(base, known, states, steps, j, k, m - 1);
    }
  }

  /** A reload that fails, at whatever step, leaves the installed rules and the reported version alone. */
  lemma FailedReloadChangesNothing(base: PolicyDb, known: set<string>, states: seq<State>, steps: seq<Step>, j: nat, k: nat)
    requires Trace(base, known, states, steps) && OneReload(states, steps, j, k) && steps[k].Fail?
    ensures states[k + 1].e == states[j].e && states[k + 1].loadedVersion == states[j].loadedVersion
  {
    WithinReload(base, known, states, steps, j, k, k);
    assert Next(known, states[k], steps[k], states[k + 1]);
  }

  /** A commit before a reload that succeeds is visible for good once that reload has published. */
  lemma ReloadSeesEarlierCommits(base: PolicyDb, known: set<string>, states: seq<State>, steps: seq<Step>,
                                 i: nat, j: nat, k: nat, m: nat)
    requires Trace(base, known, states, steps) && OneReload(states, steps, j, k) && steps[k].Release?
    requires i < j && steps[i].Commit? && k < m < |states|
    ensures states[m].loadedVersion >= states[i + 1].db.version
  {
    WithinReload(base, known, states, steps, j, k, k);
    TraceKeepsInv(base, known, states, steps, k);
    assert Next(known, states[k], steps[k], states[k + 1]);
    LoadedVersionMonotone(base, known, states, steps, k + 1, m);
    LoadedVersionMonotone(base, known, states, steps, i + 1, j);
  }

  // ---------- what the cache may hold ----------

  /** Every commit of the run was issued by the repository. */
  ghost predicate CommitsFromRepository(steps: seq<Step>) {
    forall k | 0 <= k < |steps| && steps[k].Commit? :: FromRepository(steps[k].op)
  }

  lemma StepKeepsVersionsWellFormed(base: PolicyDb, known: set<string>, s: State, step: Step, s': State)
    requires History(base, s.db) && VersionsWellFormed(base, s.db) && Next(known, s, step, s')
    requires step.Commit? ==> FromRepository(step.op)
    ensures VersionsWellFormed(base, s'.db)
  {
    if step.Commit? {
      var r :| Write(s.db, known, step.op, s'.db, r);
      WriteKeepsVersionsWellFormed(base, s.db, known, step.op, s'.db, r);
    } else {
      assert s'.db == s.db;
    }
  }

  lemma {:induction false} TraceVersionsWellFormed(base: PolicyDb, known: set<string>, states: seq<State>,
                                                   steps: seq<Step>, i: nat)
    requires Trace(base, known, states, steps) && i < |states|
    requires WellFormedRules(base.rules) && CommitsFromRepository(steps)
    ensures VersionsWellFormed(base, states[i].db)
    decreases i
  {
    if i > 0 {
      TraceVersionsWellFormed(base, known, states, steps, i - 1);
      TraceKeepsInv(base, known, states, steps, i - 1);
      StepKeepsVersionsWellFormed(base, known, states[i - 1], steps[i - 1], states[i]);
    }
  }

  /** Whenever the write lock is free the enforcer serves well-formed rules only. */
  lemma CacheIsWellFormed(base: PolicyDb, known: set<string>, states: seq<State>, steps: seq<Step>, i: nat)
    requires Trace(base, known, states, steps) && i < |states| && LockFree(states[i])
    requires WellFormedRules(base.rules) && CommitsFromRepository(steps)
    ensures WellFormedRules(states[i].e)
  {
    TraceVersionsWellFormed(base, known, states, steps, i);
    CacheIsAVersion(base, known, states, steps, i);
  }

  // ---------- one reload as a segment of a run ----------

  /** Between taking the token and publishing or giving up: commits by anyone and the loader's reads. */
  predicate Inside(step: Step) {
    step.Commit? || step.ReadVersion? || step.ReadRows? || step.Recheck?
  }

  ghost predicate InsideSteps(known: set<string>, s: State, n: nat, s': State)
    decreases n
  {
    if n == 0 then s' == s
    else exists mid, step :: InsideSteps(known, s, n - 1, mid) && Inside(step) && Next(known, mid, step, s')
  }

  ghost predicate LeadsInside(known: set<string>, s: State, s': State) {
    exists n: nat :: InsideSteps(known, s, n, s')
  }

  lemma StandsStill(known: set<string>, s: State)
    ensures LeadsInside(known, s, s)
  {
    assert InsideSteps(known, s, 0, s);
  }

  lemma OneMoreInside(known: set<string>, s: State, mid: State, step: Step, s': State)
    requires LeadsInside(known, s, mid) && Inside(step) && Next(known, mid, step, s')
    ensures LeadsInside(known, s, s')
  {
    var n: nat :| InsideSteps(known, s, n, mid);
    assert InsideSteps(known, s, n + 1, s');
  }

  lemma {:induction false} CommitsInside(known: set<string>, s: State, mid: State, ops: seq<Op>, db': PolicyDb)
    requires LeadsInside(known, s, mid) && Commits(known, mid.db, ops, db')
    ensures LeadsInside(known, s, mid.(db := db'))
    decreases |ops|
  {
    if ops == [] {
      assert mid.(db := db') == mid;
    } else {
      var n := |ops| - 1;
      var db, r :| Commits(known, mid.db, ops[..n], db) && Write(db, known, ops[n], db', r);
      CommitsInside(known, s, mid, ops[..n], db);
      OneMoreInside(known, s, mid.(db := db), Commit(ops[n]), mid.(db := db'));
    }
  }

  lemma CommitsLeadInside(known: set<string>, s: State, mid: State, db': PolicyDb)
    requires LeadsInside(known, s, mid) && CommitsLead(known, mid.db, db')
    ensures LeadsInside(known, s, mid.(db := db'))
  {
    var ops :| Commits(known, mid.db, ops, db');
    CommitsInside(known, s, mid, ops, db');
  }

  /** The state after one full attempt: built from the rows read, or due for another attempt. */
  function AfterAttempt(s: State, db: PolicyDb, rows: set<Rule>, stable: bool): State
    requires s.phase.Loading?
  {
    if stable then s.(db := db, adapterVersion := db.version, phase := Built(s.phase.start, rows))
    else s.(db := db, phase := Loading(s.phase.start, s.phase.attempt + 1))
  }

  lemma CommitsThenStep(known: set<string>, s: State, mid: State, db: PolicyDb, step: Step, s': State)
    requires LeadsInside(known, s, mid) && CommitsLead(known, mid.db, db)
    requires Inside(step) && Next(known, mid.(db := db), step, s')
    ensures LeadsInside(known, s, s')
  {
    CommitsLeadInside(known, s, mid, db);
    OneMoreInside(known, s, mid.(db := db), step, s');
  }

  /** One attempt with commits before each of its reads is a stretch of steps. */
  lemma AttemptInside(known: set<string>, s: State, mid: State, first: PolicyDb, second: PolicyDb, third: PolicyDb)
    requires LeadsInside(known, s, mid) && mid.phase.Loading? && mid.phase.attempt < LOAD_ATTEMPTS
    requires CommitsLead(known, mid.db, first) && CommitsLead(known, first, second) && CommitsLead(known, second, third)
    ensures LeadsInside(known, s, AfterAttempt(mid, third, second.rules, first.version == third.version))
  {
    var start, attempt := mid.phase.start, mid.phase.attempt;
    var s1 := mid.(db := first, phase := HasVersion(start, attempt, first.version));
    var s2 := mid.(db := second, phase := HasRows(start, attempt, first.version, second.rules));
    assert mid.(db := first).db == first && s1.(db := second).db == second && s2.(db := third).db == third;
    CommitsThenStep(known, s, mid, first, ReadVersion, s1);
    CommitsThenStep(known, s, s1, second, ReadRows, s2);
    CommitsThenStep(known, s, s2, third, Recheck,
                    AfterAttempt(mid, third, second.rules, first.version == third.version));
  }

  /** One whole reload: it takes the token, reads while others commit, and publishes or gives up. */
  ghost predicate Reload(known: set<string>, s: State, s': State, published: bool) {
    && s.phase.Idle?
    && exists built :: LeadsInside(known, s.(phase := Loading(s.db.version, 0)), built)
         && Concludes(built, s', published)
  }

  /** The end of a reload: `Lock`, `Install` and `Release`, or `Fail`. */
  predicate Concludes(built: State, s': State, published: bool) {
    if published
    then built.phase.Built? && s' == built.(e := built.phase.rows, loadedVersion := built.adapterVersion, phase := Idle)
    else !built.phase.Idle? && LockFree(built) && s' == built.(phase := Idle)
  }

  lemma TraceSnoc(base: PolicyDb, known: set<string>, states: seq<State>, steps: seq<Step>, step: Step, s': State)
    requires Trace(base, known, states, steps) && Next(known, states[|steps|], step, s')
    ensures Trace(base, known, states + [s'], steps + [step])
  {
    var states', steps' := states + [s'], steps + [step];
    forall i | 0 <= i < |steps'| ensures Next(known, states'[i], steps'[i], states'[i + 1]) {
      if i < |steps| {
        assert Next(known, states[i], steps[i], states[i + 1]);
      }
    }
  }

  /** The steps that end a reload. */
  lemma ConcludeTrace(base: PolicyDb, known: set<string>, states: seq<State>, steps: seq<Step>, s': State, published: bool)
    returns (states': seq<State>, steps': seq<Step>)
    requires Trace(base, known, states, steps) && Concludes(states[|steps|], s', published)
    ensures Trace(base, known, states', steps') && states <= states' && steps <= steps'
    ensures |steps'| > |steps| && states'[|steps'|] == s'
    ensures if published then steps'[|steps'| - 1].Release? else steps'[|steps'| - 1].Fail?
    ensures forall m | |steps| <= m < |steps'| :: !states'[m].phase.Idle?
  {
    var built := states[|steps|];
    if published {
      var locked := built.(phase := Locked(built.phase.start, built.phase.rows));
      var installed := locked.(e := locked.phase.rows, phase := Installed(built.phase.start));
      TraceSnoc(base, known, states, steps, Lock, locked);
      TraceSnoc(base, known, states + [locked], steps + [Lock], Install, installed);
      TraceSnoc(base, known, states + [locked] + [installed], steps + [Lock] + [Install], Release, s');
      states', steps' := states + [locked] + [installed] + [s'], steps + [Lock] + [Install] + [Release];
    } else {
      TraceSnoc(base, known, states, steps, Fail, s');
      states', steps' := states + [s'], steps + [Fail];
    }
  }

  /** Every reload continues any run that ends where it begins; all its steps hold the token. */
  lemma ReloadExtendsTrace(base: PolicyDb, known: set<string>, states: seq<State>, steps: seq<Step>,
                           s': State, published: bool)
    returns (states': seq<State>, steps': seq<Step>)
    requires Trace(base, known, states, steps) && Reload(known, states[|steps|], s', published)
    ensures Trace(base, known, states', steps') && states <= states' && steps <= steps'
    ensures |steps'| > |steps| && states'[|steps'|] == s'
    ensures OneReload(states', steps', |steps|, |steps'| - 1)
    ensures if published then steps'[|steps'| - 1].Release? else steps'[|steps'| - 1].Fail?
  {
    var s, n := states[|steps|], |steps|;
    var begun := s.(phase := Loading(s.db.version, 0));
    var built :| LeadsInside(known, begun, built) && Concludes(built, s', published);
    var inner: nat :| InsideSteps(known, begun, inner, built);
    TraceSnoc(base, known, states, steps, Begin, begun);
    var states1, steps1 := AppendSteps(base, known, states + [begun], steps + [Begin], n, inner, built);
    states', steps' := ConcludeTrace(base, known, states1, steps1, s', published);
    assert steps'[n] == steps1[n] == Begin;
    forall m | n < m <= |steps'| - 1 ensures !states'[m].phase.Idle? {
      if m < |steps1| { assert states'[m] == states1[m]; }
    }
  }

  /** Steps inside a reload leave the token taken. */
  lemma {:induction false} AppendSteps(base: PolicyDb, known: set<string>, states: seq<State>, steps: seq<Step>,
                                       n: nat, inner: nat, s': State)
    returns (states': seq<State>, steps': seq<Step>)
    requires Trace(base, known, states, steps) && n < |steps|
    requires forall m | n < m < |states| :: !states[m].phase.Idle?
    requires InsideSteps(known, states[|steps|], inner, s')
    ensures Trace(base, known, states', steps') && states <= states' && steps <= steps'
    ensures states'[|steps'|] == s'
    ensures forall m | n < m < |states'| :: !states'[m].phase.Idle?
    decreases inner
  {
    if inner == 0 {
      states', steps' := states, steps;
    } else {
      var mid, step :| InsideSteps(known, states[|steps|], inner - 1, mid) && Inside(step) && Next(known, mid, step, s');
      var states1, steps1 := AppendSteps(base, known, states, steps, n, inner - 1, mid);
      TraceSnoc(base, known, states1, steps1, step, s');
      states', steps' := states1 + [s'], steps1 + [step];
    }
  }
}
