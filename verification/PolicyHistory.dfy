/**
  The policy tables as values: the rule set, the global version and the append-only audit, what one
  committed write does to them, and how the audit rows carry the rule set from one version to the next.
 */
module PolicyHistory {
  import opened Wrappers
  import opened AccessErrors
  import opened PermissionCodes
  import opened RoleBindings
  import opened RoleGraph
  import opened Text

  /** A `casbin_rule` row: `p` rows grant a code to a role, `g` rows let a child inherit from a parent. */
  datatype Rule = Grant(role: string, code: string) | Inherit(child: string, parent: string)

  datatype Meta = Meta(actorSubject: string, requestId: string, traceId: string)

  datatype Action = ReplaceRolePermissions | AddRoleInheritance | DeleteRoleInheritance

  /** An audit row. `before` is read without an order, so it is a set; `after` is what the caller passed. */
  datatype Audit = Audit(version: nat, action: Action, target: string,
                         before: set<string>, after: seq<string>, meta: Meta)

  datatype PolicyDb = PolicyDb(rules: set<Rule>, version: nat, audits: seq<Audit>)

  datatype Op =
    | Replace(role: string, perms: seq<string>, expected: Option<int>, meta: Meta)
    | Add(child: string, parent: string, expected: Option<int>, meta: Meta)
    | Delete(child: string, parent: string, expected: Option<int>, meta: Meta)

  function GrantsOf(rules: set<Rule>, role: string): set<string> {
    set r | r in rules && r.Grant? && r.role == role :: r.code
  }

  function GrantRules(role: string, codes: set<string>): set<Rule> {
    set c | c in codes :: Grant(role, c)
  }

  function WithoutGrants(rules: set<Rule>, role: string): set<Rule> {
    set r | r in rules && !(r.Grant? && r.role == role)
  }

  function InheritRules(child: string, parents: set<string>): set<Rule> {
    set p | p in parents :: Inherit(child, p)
  }

  function Edges(rules: set<Rule>): set<Edge> {
    set r | r in rules && r.Inherit? :: (r.child, r.parent)
  }

  /** The edges are the stored inheritance pairs. */
  lemma EdgesMeaning(rules: set<Rule>, child: string, parent: string)
    ensures (child, parent) in Edges(rules) <==> Inherit(child, parent) in rules
  {
    var r := Inherit(child, parent);
    assert r in rules ==> (r.child, r.parent) in Edges(rules);
  }

  // ---------- one audit row ----------

  /** Forward: the rules after the write that an audit row records. */
  function Redo(rules: set<Rule>, a: Audit): set<Rule> {
    match a.action
    case ReplaceRolePermissions => WithoutGrants(rules, a.target) + GrantRules(a.target, Elements(a.after))
    case AddRoleInheritance => rules + InheritRules(a.target, Elements(a.after))
    case DeleteRoleInheritance => rules - InheritRules(a.target, a.before)
  }

  /** Backward: the rules before the write that an audit row records. */
  function Undo(rules: set<Rule>, a: Audit): set<Rule> {
    match a.action
    case ReplaceRolePermissions => WithoutGrants(rules, a.target) + GrantRules(a.target, a.before)
    case AddRoleInheritance => rules - InheritRules(a.target, Elements(a.after))
    case DeleteRoleInheritance => rules + InheritRules(a.target, a.before)
  }

  /** The row's `before` is what was stored, and a row is only written for a write that changes something or replaces. */
  ghost predicate Truthful(rules: set<Rule>, a: Audit) {
    match a.action
    case ReplaceRolePermissions => a.before == GrantsOf(rules, a.target)
    case AddRoleInheritance => a.before == {} && InheritRules(a.target, Elements(a.after)) !! rules
    case DeleteRoleInheritance => a.after == [] && InheritRules(a.target, a.before) <= rules
  }

  lemma UndoRedo(rules: set<Rule>, a: Audit)
    requires Truthful(rules, a)
    ensures Undo(Redo(rules, a), a) == rules
  {
  }

  /** Forward replay of a log from a rule set. */
  function Replay(rules: set<Rule>, log: seq<Audit>): set<Rule> {
    if log == [] then rules else Redo(Replay(rules, log[..|log| - 1]), log[|log| - 1])
  }

  /** Backward replay of a log from a rule set. */
  function Rewind(rules: set<Rule>, log: seq<Audit>): set<Rule>
    decreases |log|
  {
    if log == [] then rules else Rewind(Undo(rules, log[|log| - 1]), log[..|log| - 1])
  }

  // ---------- one write ----------

  /** The first check the write fails, in the order the checks run. */
  ghost function Refusal(db: PolicyDb, known: set<string>, op: Op): Option<AccessError> {
    if op.expected.Some? && op.expected.value != db.version then Some(ConcurrentModification)
    else match op
      case Replace(role, perms, _, _) =>
        if !AllCodes(perms) then Some(InvalidPermissionCode)
        else if role == "" then Some(EmptyRole)
        else if exists p | p in perms :: p != "" && WILDCARD !in p && p !in known then Some(UnknownPermissionCode)
        else if !Distinct(perms) then Some(StorageFailure)  // the unique index on (ptype, v0, v1)
        else None
      case Add(child, parent, _, _) =>
        if Reaches(Edges(db.rules), parent, child) then Some(RoleInheritanceCycle) else None
      case Delete(_, _, _, _) => None
  }

  /** Adding a stored edge and deleting an absent one succeed without a new version. */
  predicate Idle(db: PolicyDb, op: Op) {
    match op
    case Replace(_, _, _, _) => false
    case Add(child, parent, _, _) => Inherit(child, parent) in db.rules
    case Delete(child, parent, _, _) => Inherit(child, parent) !in db.rules
  }

  function AuditOf(db: PolicyDb, op: Op): Audit {
    match op
    case Replace(role, perms, _, meta) =>
      Audit(db.version + 1, ReplaceRolePermissions, role, GrantsOf(db.rules, role), perms, meta)
    case Add(child, parent, _, meta) =>
      Audit(db.version + 1, AddRoleInheritance, child, {}, [parent], meta)
    case Delete(child, parent, _, meta) =>
      Audit(db.version + 1, DeleteRoleInheritance, child, {parent}, [], meta)
  }

  /** What a write may do: be refused and change nothing, be idle, or move the rules, version and log together. */
  ghost predicate Write(db: PolicyDb, known: set<string>, op: Op, db': PolicyDb, r: Result<nat, AccessError>) {
    match Refusal(db, known, op)
    case Some(e) => r == Failure(e) && db' == db
    case None =>
      if Idle(db, op) then r == Success(db.version) && db' == db
      else
        && r == Success(db.version + 1)
        && db'.version == db.version + 1
        && db'.audits == db.audits + [AuditOf(db, op)]
        && db'.rules == match op
                        case Replace(role, perms, _, _) =>
                          WithoutGrants(db.rules, role) + GrantRules(role, Elements(perms))
                        case Add(child, parent, _, _) => db.rules + {Inherit(child, parent)}
                        case Delete(child, parent, _, _) => db.rules - {Inherit(child, parent)}
  }

  lemma WriteIsTruthful(db: PolicyDb, known: set<string>, op: Op, db': PolicyDb, r: Result<nat, AccessError>)
    requires Write(db, known, op, db', r) && db' != db
    ensures var a := AuditOf(db, op);
            && db'.audits == db.audits + [a]
            && Truthful(db.rules, a)
            && db'.rules == Redo(db.rules, a)
  {
  }

  // ---------- every reachable state ----------

  /** The state a store starts from: any acyclic rule set at any version with an empty log. */
  ghost predicate Initial(base: PolicyDb) {
    base.audits == [] && Acyclic(Edges(base.rules))
  }

  /** The rules committed at a version between the start and now. */
  function RulesAt(base: PolicyDb, db: PolicyDb, v: nat): set<Rule>
    requires base.version <= v <= base.version + |db.audits|
  {
    Replay(base.rules, db.audits[..v - base.version])
  }

  /** Every row carries the next version and records its write truthfully, after the rows before it. */
  ghost predicate TrueLog(base: PolicyDb, log: seq<Audit>) {
    log == [] ||
    var init := log[..|log| - 1];
    && TrueLog(base, init)
    && log[|log| - 1].version == base.version + |log|
    && Truthful(Replay(base.rules, init), log[|log| - 1])
  }

  /** The log explains the rules, forward and backward, with one row per version step; inheritance stays acyclic. */
  ghost predicate History(base: PolicyDb, db: PolicyDb) {
    && Initial(base)
    && db.version == base.version + |db.audits|
    && TrueLog(base, db.audits)
    && db.rules == Replay(base.rules, db.audits)
    && Acyclic(Edges(db.rules))
  }

  /** What a true log says of each of its rows. */
  lemma {:induction false} RowOfTrueLog(base: PolicyDb, log: seq<Audit>, i: nat)
    requires TrueLog(base, log) && i < |log|
    ensures log[i].version == base.version + i + 1 && Truthful(Replay(base.rules, log[..i]), log[i])
    decreases |log|
  {
    var init := log[..|log| - 1];
    if i < |log| - 1 {
      RowOfTrueLog(base, init, i);
      assert init[..i] == log[..i];
    }
  }

  lemma InitialHistory(base: PolicyDb)
    requires Initial(base)
    ensures History(base, base)
  {
  }

  lemma WriteKeepsAcyclic(db: PolicyDb, known: set<string>, op: Op, db': PolicyDb, r: Result<nat, AccessError>)
    requires Acyclic(Edges(db.rules)) && Write(db, known, op, db', r)
    ensures Acyclic(Edges(db'.rules))
  {
    if db' != db {
      match op
      case Replace(role, _, _, _) =>
        assert Edges(db'.rules) == Edges(db.rules);
      case Add(child, parent, _, _) =>
        EdgesPlus(db.rules, child, parent);
        AddKeepsAcyclicIff(Edges(db.rules), child, parent);
      case Delete(child, parent, _, _) =>
        assert Edges(db'.rules) <= Edges(db.rules);
        RemoveKeepsAcyclic(Edges(db'.rules), Edges(db.rules));
    }
  }

  /** One more truthful row extends the log without disturbing any earlier version. */
  lemma RowExtendsHistory(base: PolicyDb, db: PolicyDb, a: Audit, db': PolicyDb)
    requires History(base, db) && Acyclic(Edges(db'.rules))
    requires a.version == db.version + 1 && Truthful(db.rules, a)
    requires db' == PolicyDb(Redo(db.rules, a), db.version + 1, db.audits + [a])
    ensures History(base, db')
  {
    assert db'.audits[..|db'.audits| - 1] == db.audits;
  }

  /** Every write keeps the history and only ever appends to the log. */
  lemma WriteKeepsHistory(base: PolicyDb, db: PolicyDb, known: set<string>, op: Op,
                          db': PolicyDb, r: Result<nat, AccessError>)
    requires History(base, db) && Write(db, known, op, db', r)
    ensures History(base, db') && db.audits <= db'.audits
  {
    if db' != db {
      WriteIsTruthful(db, known, op, db', r);
      WriteKeepsAcyclic(db, known, op, db', r);
      RowExtendsHistory(base, db, AuditOf(db, op), db');
    }
  }

  lemma EdgesPlus(rules: set<Rule>, child: string, parent: string)
    ensures Edges(rules + {Inherit(child, parent)}) == Edges(rules) + {(child, parent)}
  {
  }

  /** Writes in a row, each with some outcome, lead from one state to another. */
  ghost predicate Commits(known: set<string>, db: PolicyDb, ops: seq<Op>, db': PolicyDb)
    decreases |ops|
  {
    if ops == [] then db' == db
    else
      var n := |ops| - 1;
      exists mid, r :: Commits(known, db, ops[..n], mid) && Write(mid, known, ops[n], db', r)
  }

  ghost predicate CommitsLead(known: set<string>, db: PolicyDb, db': PolicyDb) {
    exists ops :: Commits(known, db, ops, db')
  }

  lemma NoCommits(known: set<string>, db: PolicyDb)
    ensures CommitsLead(known, db, db)
  {
    assert Commits(known, db, [], db);
  }

  lemma OneMoreCommit(known: set<string>, db: PolicyDb, mid: PolicyDb, op: Op, db': PolicyDb, r: Result<nat, AccessError>)
    requires CommitsLead(known, db, mid) && Write(mid, known, op, db', r)
    ensures CommitsLead(known, db, db')
  {
    var ops :| Commits(known, db, ops, mid);
    var all := ops + [op];
    var n := |all| - 1;
    assert all[..n] == ops && all[n] == op;
    assert Commits(known, db, all[..n], mid) && Write(mid, known, all[n], db', r);
    assert Commits(known, db, all, db');
  }

  lemma CommitsAreTransitive(known: set<string>, db: PolicyDb, mid: PolicyDb, db': PolicyDb)
    requires CommitsLead(known, db, mid) && CommitsLead(known, mid, db')
    ensures CommitsLead(known, db, db')
  {
    var ops :| Commits(known, mid, ops, db');
    CommitsAppend(known, db, mid, ops, db');
  }

  lemma {:induction false} CommitsAppend(known: set<string>, db: PolicyDb, mid: PolicyDb, ops: seq<Op>, db': PolicyDb)
    requires CommitsLead(known, db, mid) && Commits(known, mid, ops, db')
    ensures CommitsLead(known, db, db')
    decreases |ops|
  {
    if ops != [] {
      var n := |ops| - 1;
      var last, r :| Commits(known, mid, ops[..n], last) && Write(last, known, ops[n], db', r);
      CommitsAppend(known, db, mid, ops[..n], last);
      OneMoreCommit(known, db, last, ops[n], db', r);
    }
  }

  /** A run of writes, each with its own outcome. */
  ghost predicate Run(known: set<string>, states: seq<PolicyDb>, ops: seq<Op>, rs: seq<Result<nat, AccessError>>) {
    && |states| == |ops| + 1 && |rs| == |ops|
    && forall i | 0 <= i < |ops| :: Write(states[i], known, ops[i], states[i + 1], rs[i])
  }

  /**
    In every state of every run: the log replayed from the start yields the current rules, rewound from
    the current rules it yields the start, there is one row per version, and inheritance is acyclic.
   */
  lemma {:induction false} RunsAreHistories(known: set<string>, states: seq<PolicyDb>, ops: seq<Op>,
                                            rs: seq<Result<nat, AccessError>>, i: nat)
    requires Run(known, states, ops, rs) && Initial(states[0]) && i < |states|
    ensures History(states[0], states[i])
    ensures Rewind(states[i].rules, states[i].audits) == states[0].rules
    decreases i
  {
    if i == 0 {
      InitialHistory(states[0]);
    } else {
      RunsAreHistories(known, states, ops, rs, i - 1);
      assert Write(states[i - 1], known, ops[i - 1], states[i], rs[i - 1]);
      WriteKeepsHistory(states[0], states[i - 1], known, ops[i - 1], states[i], rs[i - 1]);
    }
    RewindReplay(states[0], states[i].audits);
  }

  /** A write that names another version than the current one is refused and changes nothing. */
  lemma StaleWriteIsRefused(known: set<string>, states: seq<PolicyDb>, ops: seq<Op>,
                            rs: seq<Result<nat, AccessError>>, i: nat)
    requires Run(known, states, ops, rs) && i < |ops|
    requires ops[i].expected.Some? && ops[i].expected.value != states[i].version
    ensures rs[i] == Failure(ConcurrentModification) && states[i + 1] == states[i]
  {
    assert Write(states[i], known, ops[i], states[i + 1], rs[i]);
  }

  lemma {:induction false} VersionsNeverGoBack(known: set<string>, states: seq<PolicyDb>, ops: seq<Op>,
                                               rs: seq<Result<nat, AccessError>>, i: nat, j: nat)
    requires Run(known, states, ops, rs) && i <= j < |states|
    ensures states[i].version <= states[j].version
    decreases j
  {
    if i < j {
      VersionsNeverGoBack(known, states, ops, rs, i, j - 1);
      assert Write(states[j - 1], known, ops[j - 1], states[j], rs[j - 1]);
    }
  }

  /** Of all writes of any kind that carry the same expected version at most one moves the version. */
  lemma OneStepPerExpectedVersion(known: set<string>, states: seq<PolicyDb>, ops: seq<Op>,
                                  rs: seq<Result<nat, AccessError>>, i: nat, j: nat)
    requires Run(known, states, ops, rs) && i < j < |ops|
    requires ops[i].expected.Some? && ops[i].expected == ops[j].expected
    requires states[i + 1].version != states[i].version
    ensures rs[j] == Failure(ConcurrentModification) && states[j + 1] == states[j]
  {
    assert Write(states[i], known, ops[i], states[i + 1], rs[i]);
    VersionsNeverGoBack(known, states, ops, rs, i + 1, j);
    assert ops[i].expected.value == states[i].version < states[j].version by {
      if ops[i].expected.value != states[i].version {
        StaleWriteIsRefused(known, states, ops, rs, i);
      }
    }
    StaleWriteIsRefused(known, states, ops, rs, j);
  }

  /** A concrete code only ever comes from the catalogue. */
  lemma {:induction false} StoredCodesAreKnown(known: set<string>, states: seq<PolicyDb>, ops: seq<Op>,
                                               rs: seq<Result<nat, AccessError>>, i: nat, role: string, code: string)
    requires Run(known, states, ops, rs) && i < |states|
    requires Grant(role, code) in states[i].rules && code != "" && '*' !in code
    ensures code in known || Grant(role, code) in states[0].rules
    decreases i
  {
    if i > 0 {
      assert Write(states[i - 1], known, ops[i - 1], states[i], rs[i - 1]);
      if Grant(role, code) in states[i - 1].rules {
        StoredCodesAreKnown(known, states, ops, rs, i - 1, role, code);
      }
    }
  }

  lemma {:induction false} RewindReplay(base: PolicyDb, log: seq<Audit>)
    requires TrueLog(base, log)
    ensures Rewind(Replay(base.rules, log), log) == base.rules
    decreases |log|
  {
    if log != [] {
      var init := log[..|log| - 1];
      UndoRedo(Replay(base.rules, init), log[|log| - 1]);
      RewindReplay(base, init);
    }
  }

  /** A version step happens exactly for a write that is neither refused nor idle, and it writes exactly one row. */
  lemma OneRowPerStep(db: PolicyDb, known: set<string>, op: Op, db': PolicyDb, r: Result<nat, AccessError>)
    requires Write(db, known, op, db', r)
    ensures db'.version - db.version == |db'.audits| - |db.audits|
    ensures db' != db <==> Refusal(db, known, op).None? && !Idle(db, op)
    ensures r.Success? ==> r.value == db'.version
    ensures db' == db <==> db'.version == db.version
  {
  }

  /** In a reachable state an edge is refused exactly when storing it would close a cycle. */
  lemma AddRefusedIffCycle(base: PolicyDb, db: PolicyDb, known: set<string>, op: Op)
    requires History(base, db)
    requires op.Add? && (op.expected.Some? ==> op.expected.value == db.version)
    ensures Refusal(db, known, op) == Some(RoleInheritanceCycle) <==>
            !Acyclic(Edges(db.rules + {Inherit(op.child, op.parent)}))
    ensures Idle(db, op) ==> Refusal(db, known, op).None?
  {
    EdgesPlus(db.rules, op.child, op.parent);
    AddKeepsAcyclicIff(Edges(db.rules), op.child, op.parent);
    if Idle(db, op) {
      assert db.rules + {Inherit(op.child, op.parent)} == db.rules;
    }
  }

  // ---------- what the callers store ----------

  /** Rules that mention no empty role and no malformed code. */
  predicate WellFormedRules(rules: set<Rule>) {
    forall r | r in rules ::
      match r
      case Grant(role, code) => role != "" && ValidCode(code)
      case Inherit(child, parent) => child != "" && parent != ""
  }

  /** The writes the repository issues: inheritance pairs come from `NewRoleInheritance`. */
  predicate FromRepository(op: Op) {
    op.Replace? || NewRoleInheritance(op.child, op.parent).Success?
  }

  lemma WriteKeepsWellFormed(db: PolicyDb, known: set<string>, op: Op, db': PolicyDb, r: Result<nat, AccessError>)
    requires Write(db, known, op, db', r) && FromRepository(op) && WellFormedRules(db.rules)
    ensures WellFormedRules(db'.rules)
  {
  }

  /** All versions up to now hold well-formed rules only. */
  ghost predicate VersionsWellFormed(base: PolicyDb, db: PolicyDb) {
    db.version == base.version + |db.audits| &&
    forall v | base.version <= v <= db.version :: WellFormedRules(RulesAt(base, db, v))
  }

  lemma OneMoreVersion(base: PolicyDb, db: PolicyDb, db': PolicyDb)
    requires VersionsWellFormed(base, db) && db.audits <= db'.audits && |db'.audits| <= |db.audits| + 1
    requires db'.version == base.version + |db'.audits|
    requires WellFormedRules(Replay(base.rules, db'.audits))
    ensures VersionsWellFormed(base, db')
  {
    forall v | base.version <= v <= db'.version ensures WellFormedRules(RulesAt(base, db', v)) {
      if v <= db.version {
        assert db'.audits[..v - base.version] == db.audits[..v - base.version];
        assert RulesAt(base, db', v) == RulesAt(base, db, v);
      } else {
        assert db'.audits[..v - base.version] == db'.audits;
      }
    }
  }

  lemma WriteKeepsVersionsWellFormed(base: PolicyDb, db: PolicyDb, known: set<string>, op: Op,
                                     db': PolicyDb, r: Result<nat, AccessError>)
    requires History(base, db) && VersionsWellFormed(base, db)
    requires Write(db, known, op, db', r) && FromRepository(op)
    ensures VersionsWellFormed(base, db')
  {
    if db' != db {
      WriteKeepsHistory(base, db, known, op, db', r);
      assert db.audits[..|db.audits|] == db.audits;
      assert RulesAt(base, db, db.version) == db.rules;
      WriteKeepsWellFormed(db, known, op, db', r);
      OneMoreVersion(base, db, db');
    }
  }

  /** Every version a run of repository writes goes through holds well-formed rules only. */
  lemma {:induction false} VersionsAreWellFormed(known: set<string>, states: seq<PolicyDb>, ops: seq<Op>,
                                                 rs: seq<Result<nat, AccessError>>, i: nat)
    requires Run(known, states, ops, rs) && Initial(states[0]) && i < |states|
    requires WellFormedRules(states[0].rules) && forall j | 0 <= j < |ops| :: FromRepository(ops[j])
    ensures VersionsWellFormed(states[0], states[i])
    decreases i
  {
    if i > 0 {
      VersionsAreWellFormed(known, states, ops, rs, i - 1);
      RunsAreHistories(known, states, ops, rs, i - 1);
      assert Write(states[i - 1], known, ops[i - 1], states[i], rs[i - 1]);
      WriteKeepsVersionsWellFormed(states[0], states[i - 1], known, ops[i - 1], states[i], rs[i - 1]);
    }
  }
}
