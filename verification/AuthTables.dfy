/**
  The account tables as values: accounts, provider identities, audience roles with their audit, refresh
  sessions and used login credentials, and the one way in which audience roles ever change.
 */
module AuthTables {
  import opened Wrappers
  import opened Text

  datatype AuthError =
    | InvalidIdToken
    | CredentialUsed
    | AccountDisabled
    | InvalidRefreshToken
    | SessionInactive
    | SessionNotFound
    | AccountNotFound
    | InvalidRoleAssignment
    | RoleRevisionConflict
    | LastAdmin
    | AdminAlreadyInitialized
    | SigningFailed
    | StorageFailure

  const ENABLED := 1
  const ADMIN := "admin"

  datatype Account = Account(displayName: string, avatarUrl: string, status: int)

  /** The unique key of an identity row; it stands for the row's surrogate id as well. */
  datatype IdentityKey = IdentityKey(provider: string, providerSubject: string)

  datatype Identity = Identity(subject: string, email: string, emailVerified: bool, lastLoginAt: int)

  datatype Session = Session(identity: IdentityKey, audience: string, refreshHash: string,
                             createdAt: int, expiresAt: int, revokedAt: Option<int>)

  datatype Binding = Binding(subject: string, audience: string, role: string)

  /** The row of an audience; an absent row reads as the column defaults. */
  datatype RoleState = RoleState(revision: int, adminInitialized: bool)

  datatype RoleAction = AudienceJoin | RolesReplace | AdminBootstrap

  datatype RoleAudit = RoleAudit(audience: string, revision: int, subject: string, actor: string,
                                 action: RoleAction, before: seq<string>, after: seq<string>)

  datatype Tables = Tables(
    accounts: map<string, Account>,
    identities: map<IdentityKey, Identity>,
    audiences: set<(string, string)>,
    bindings: set<Binding>,
    states: map<string, RoleState>,
    audits: seq<RoleAudit>,
    sessions: map<string, Session>,
    used: map<string, int>)

  function StateOf(t: Tables, audience: string): RoleState {
    if audience in t.states then t.states[audience] else RoleState(1, false)
  }

  function RolesOf(bindings: set<Binding>, subject: string, audience: string): set<string> {
    set b | b in bindings && b.subject == subject && b.audience == audience :: b.role
  }

  /** What `loadRoles` returns: the sorted roles of a subject in an audience. */
  ghost function RoleList(t: Tables, subject: string, audience: string): seq<string> {
    Listing(RolesOf(t.bindings, subject, audience))
  }

  function BindingsFor(subject: string, audience: string, roles: set<string>): set<Binding> {
    set r | r in roles :: Binding(subject, audience, r)
  }

  function WithoutBindings(bindings: set<Binding>, subject: string, audience: string): set<Binding> {
    set b | b in bindings && !(b.subject == subject && b.audience == audience)
  }

  /**
    The effect every role change has: mark the pair, make the roles exactly `after`, advance the
    audience's revision by one and append the audit row under the new revision.
   */
  ghost function RoleChange(t: Tables, audience: string, subject: string, actor: string, action: RoleAction,
                            after: seq<string>, adminInitialized: bool): Tables {
    var revision := StateOf(t, audience).revision + 1;
    t.(audiences := t.audiences + {(subject, audience)},
       bindings := WithoutBindings(t.bindings, subject, audience) + BindingsFor(subject, audience, Elements(after)),
       states := t.states[audience := RoleState(revision, adminInitialized)],
       audits := t.audits + [RoleAudit(audience, revision, subject, actor, action,
                                       RoleList(t, subject, audience), after)])
  }

  // ---------- the audit chain ----------

  function CountFor(log: seq<RoleAudit>, audience: string): nat {
    if log == [] then 0
    else CountFor(log[..|log| - 1], audience) + (if log[|log| - 1].audience == audience then 1 else 0)
  }

  /** The `after` of the last row of a pair; `start` before the first. */
  function LastAfter(start: seq<string>, log: seq<RoleAudit>, audience: string, subject: string): seq<string> {
    if log == [] then start
    else
      var a := log[|log| - 1];
      if a.audience == audience && a.subject == subject then a.after
      else LastAfter(start, log[..|log| - 1], audience, subject)
  }

  predicate Concerns(a: RoleAudit, audience: string, subject: string) {
    a.audience == audience && a.subject == subject
  }

  /**
    A row at position `i` after some starting tables carries the next revision of its audience and starts
    where the previous row of its pair ended, the first one at the roles stored at the start; a join is
    the first row of a pair not marked at the start, a bootstrap the only one of an audience not
    initialised at the start.
   */
  ghost predicate Linked(base: Tables, log: seq<RoleAudit>, i: nat)
    requires i < |log|
  {
    var a := log[i];
    && a.revision == StateOf(base, a.audience).revision + 1 + CountFor(log[..i], a.audience)
    && a.before == LastAfter(RoleList(base, a.subject, a.audience), log[..i], a.audience, a.subject)
    && (a.action.AudienceJoin? ==>
          && (a.subject, a.audience) !in base.audiences
          && forall j | 0 <= j < i :: !Concerns(log[j], a.audience, a.subject))
    && (a.action.AdminBootstrap? ==>
          && !StateOf(base, a.audience).adminInitialized
          && forall j | 0 <= j < i :: !(log[j].action.AdminBootstrap? && log[j].audience == a.audience))
  }

  /** Every row is linked to the rows before it. */
  ghost predicate LinkedLog(base: Tables, log: seq<RoleAudit>) {
    log == [] || (LinkedLog(base, log[..|log| - 1]) && Linked(base, log, |log| - 1))
  }

  lemma {:induction false} RowOfLinkedLog(base: Tables, log: seq<RoleAudit>, i: nat)
    requires LinkedLog(base, log) && i < |log|
    ensures Linked(base, log, i)
    decreases |log|
  {
    if i < |log| - 1 {
      var init := log[..|log| - 1];
      RowOfLinkedLog(base, init, i);
      assert init[..i] == log[..i];
      assert forall j | 0 <= j <= i :: init[j] == log[j];
    }
  }

  /** The rows appended since some starting tables. */
  function NewRows(base: Tables, t: Tables): seq<RoleAudit> {
    if |base.audits| <= |t.audits| then t.audits[|base.audits|..] else []
  }

  /** The rows explain how the role tables came from the starting ones. */
  ghost predicate Explains(base: Tables, t: Tables, log: seq<RoleAudit>) {
    && t.audits == base.audits + log && LinkedLog(base, log)
    && StatesFollow(base, t, log) && RolesFollow(base, t, log) && PairsFollow(base, t, log)
  }

  /** Revisions count the rows, and an audience initialised by a bootstrap or from the start stays so. */
  ghost predicate StatesFollow(base: Tables, t: Tables, log: seq<RoleAudit>) {
    && (forall a: string :: StateOf(t, a).revision == StateOf(base, a).revision + CountFor(log, a))
    && (forall a: string :: StateOf(base, a).adminInitialized ==> StateOf(t, a).adminInitialized)
    && (forall i | 0 <= i < |log| && log[i].action.AdminBootstrap? :: StateOf(t, log[i].audience).adminInitialized)
  }

  /** The roles of a pair are where its last row ended. */
  ghost predicate RolesFollow(base: Tables, t: Tables, log: seq<RoleAudit>) {
    forall s, a :: RoleList(t, s, a) == LastAfter(RoleList(base, s, a), log, a, s)
  }

  /** Every pair with a row is marked. */
  ghost predicate PairsFollow(base: Tables, t: Tables, log: seq<RoleAudit>) {
    base.audiences <= t.audiences && forall i | 0 <= i < |log| :: (log[i].subject, log[i].audience) in t.audiences
  }

  /** The audit explains the role tables, whatever tables it started from. */
  ghost predicate RoleHistory(base: Tables, t: Tables) {
    Explains(base, t, NewRows(base, t))
  }

  lemma HistoryStarts(base: Tables)
    ensures RoleHistory(base, base)
  {
    assert NewRows(base, base) == [];
  }

  /** What the callers check before a role change of each kind. */
  predicate ChangeAllowed(t: Tables, audience: string, subject: string, action: RoleAction, adminInitialized: bool) {
    match action
    case AudienceJoin => (subject, audience) !in t.audiences && adminInitialized == StateOf(t, audience).adminInitialized
    case RolesReplace => adminInitialized == StateOf(t, audience).adminInitialized
    case AdminBootstrap => !StateOf(t, audience).adminInitialized && adminInitialized
  }

  lemma RolesAfterChange(t: Tables, audience: string, subject: string, actor: string, action: RoleAction,
                         after: seq<string>, adminInitialized: bool, s: string, a: string)
    ensures RolesOf(RoleChange(t, audience, subject, actor, action, after, adminInitialized).bindings, s, a) ==
            if s == subject && a == audience then Elements(after) else RolesOf(t.bindings, s, a)
  {
  }

  lemma StrictListing(after: seq<string>)
    requires StrictlySorted(after)
    ensures Listing(Elements(after)) == after
  {
    StrictlySortedUnique(Listing(Elements(after)), after);
  }

  lemma ChangeKeepsRoles(base: Tables, t: Tables, log: seq<RoleAudit>, t': Tables, row: RoleAudit)
    requires RolesFollow(base, t, log) && StrictlySorted(row.after)
    requires forall s, a :: RolesOf(t'.bindings, s, a) ==
                            if Concerns(row, a, s) then Elements(row.after) else RolesOf(t.bindings, s, a)
    ensures RolesFollow(base, t', log + [row])
  {
    assert (log + [row])[..|log|] == log;
    StrictListing(row.after);
    forall s, a ensures RoleList(t', s, a) == LastAfter(RoleList(base, s, a), log + [row], a, s) {
      assert RoleList(t, s, a) == LastAfter(RoleList(base, s, a), log, a, s);
    }
  }

  lemma ChangeKeepsStates(base: Tables, t: Tables, log: seq<RoleAudit>, t': Tables, row: RoleAudit)
    requires StatesFollow(base, t, log)
    requires t'.states == t.states[row.audience := RoleState(StateOf(t, row.audience).revision + 1,
                                                             StateOf(t', row.audience).adminInitialized)]
    requires StateOf(t, row.audience).adminInitialized || row.action.AdminBootstrap? ==>
               StateOf(t', row.audience).adminInitialized
    ensures StatesFollow(base, t', log + [row])
  {
    assert (log + [row])[..|log|] == log;
    forall a: string ensures StateOf(t', a).revision == StateOf(base, a).revision + CountFor(log + [row], a) {
      assert StateOf(t, a).revision == StateOf(base, a).revision + CountFor(log, a);
    }
  }

  lemma ChangeIsLinked(base: Tables, t: Tables, log: seq<RoleAudit>, row: RoleAudit)
    requires Explains(base, t, log)
    requires row.revision == StateOf(t, row.audience).revision + 1
    requires row.before == RoleList(t, row.subject, row.audience)
    requires ChangeAllowed(t, row.audience, row.subject, row.action,
                           row.action.AdminBootstrap? || StateOf(t, row.audience).adminInitialized)
    ensures LinkedLog(base, log + [row])
  {
    var log' := log + [row];
    assert log'[..|log|] == log && log'[..|log'| - 1] == log;
    assert row.before == LastAfter(RoleList(base, row.subject, row.audience), log, row.audience, row.subject);
    assert Linked(base, log', |log|);
  }

  /** A change with the right row, states, roles and marks keeps the history. */
  lemma RowKeepsHistory(base: Tables, t: Tables, t': Tables, row: RoleAudit)
    requires RoleHistory(base, t) && t'.audits == t.audits + [row]
    requires t'.audiences == t.audiences + {(row.subject, row.audience)}
    requires LinkedLog(base, NewRows(base, t) + [row])
    requires StatesFollow(base, t', NewRows(base, t) + [row]) && RolesFollow(base, t', NewRows(base, t) + [row])
    ensures RoleHistory(base, t')
  {
    assert NewRows(base, t') == NewRows(base, t) + [row];
  }

  /** Every allowed role change with a normalised role list keeps the history. */
  lemma ChangeKeepsHistory(base: Tables, t: Tables, audience: string, subject: string, actor: string,
                           action: RoleAction, after: seq<string>, adminInitialized: bool)
    requires RoleHistory(base, t) && StrictlySorted(after)
    requires ChangeAllowed(t, audience, subject, action, adminInitialized)
    ensures RoleHistory(base, RoleChange(t, audience, subject, actor, action, after, adminInitialized))
  {
    var t' := RoleChange(t, audience, subject, actor, action, after, adminInitialized);
    var log := NewRows(base, t);
    var row := RoleAudit(audience, StateOf(t, audience).revision + 1, subject, actor, action,
                         RoleList(t, subject, audience), after);
    forall s, a ensures RolesOf(t'.bindings, s, a) ==
                        if Concerns(row, a, s) then Elements(after) else RolesOf(t.bindings, s, a)
    {
      RolesAfterChange(t, audience, subject, actor, action, after, adminInitialized, s, a);
    }
    ChangeIsLinked(base, t, log, row);
    ChangeKeepsStates(base, t, log, t', row);
    ChangeKeepsRoles(base, t, log, t', row);
    RowKeepsHistory(base, t, t', row);
  }

  // ---------- keys ----------

  /** The foreign and unique keys of the tables. */
  ghost predicate Integrity(t: Tables) {
    && (forall k | k in t.identities :: t.identities[k].subject in t.accounts)
    && (forall i | i in t.sessions :: t.sessions[i].identity in t.identities)
    && (forall i, j | i in t.sessions && j in t.sessions && i != j ::
          t.sessions[i].refreshHash != t.sessions[j].refreshHash)
    && (forall b | b in t.bindings :: b.subject in t.accounts)
    && (forall p | p in t.audiences :: p.0 in t.accounts)
    && (forall i, j | 0 <= i < j < |t.audits| ::
          t.audits[i].audience != t.audits[j].audience || t.audits[i].revision != t.audits[j].revision)
  }

  /** The unique key of the audit already holds the next revision of the audience. */
  predicate AuditTaken(t: Tables, audience: string) {
    exists a :: a in t.audits && a.audience == audience && a.revision == StateOf(t, audience).revision + 1
  }

  /** An enabled account holds admin in the audience. */
  ghost predicate HasEnabledAdmin(t: Tables, audience: string) {
    exists s :: Binding(s, audience, ADMIN) in t.bindings && EnabledAccount(t, s)
  }

  predicate EnabledAccount(t: Tables, s: string) {
    s in t.accounts && t.accounts[s].status == ENABLED
  }

  /** The shared database; a transaction works on a copy and assigns it when it commits. */
  class AuthDatabase {
    var tables: Tables

    ghost predicate Valid()
      reads this
    {
      Integrity(tables)
    }

    constructor (tables: Tables)
      requires Integrity(tables)
      ensures Valid() && this.tables == tables
    {
      this.tables := tables;
    }
  }

  /** Reads the roles of a subject in whatever order the rows come and sorts them. */
  method LoadRoles(tx: Tables, subject: string, audience: string) returns (roles: seq<string>)
    ensures roles == RoleList(tx, subject, audience)
  {
    roles := RowsInSomeOrder(RolesOf(tx.bindings, subject, audience));
    SortIsListing(roles);
    roles := Sort(roles);
  }

  method RowsInSomeOrder(all: set<string>) returns (rows: seq<string>)
    ensures Distinct(rows) && Elements(rows) == all
  {
    rows := [];
    var left := all;
    while left != {}
      invariant left !! Elements(rows) && left + Elements(rows) == all
      invariant Distinct(rows)
      decreases |left|
    {
      var row :| row in left;
      left := left - {row};
      rows := rows + [row];
    }
  }

  method MarkAudience(tx0: Tables, subject: string, audience: string) returns (tx: Tables)
    ensures tx == tx0.(audiences := tx0.audiences + {(subject, audience)})
  {
    tx := tx0.(audiences := tx0.audiences + {(subject, audience)});
  }

  /** Appends the audit row under the next revision and stores that revision, unless the row's key is taken. */
  method AuditAccountRoles(tx0: Tables, audience: string, subject: string, actor: string, action: RoleAction,
                           before: seq<string>, after: seq<string>)
    returns (r: Option<Tables>)
    ensures r.None? <==> AuditTaken(tx0, audience)
    ensures r.Some? ==>
              var revision := StateOf(tx0, audience).revision + 1;
              r.value == tx0.(
              audits := tx0.audits + [RoleAudit(audience, revision, subject, actor, action, before, after)],
              states := tx0.states[audience := RoleState(revision, StateOf(tx0, audience).adminInitialized)])
  {
    var revision := StateOf(tx0, audience).revision + 1;
    if exists a :: a in tx0.audits && a.audience == audience && a.revision == revision {
      return None;
    }
    var tx := tx0.(audits := tx0.audits + [RoleAudit(audience, revision, subject, actor, action, before, after)]);
    r := Some(tx.(states := tx.states[audience := StateOf(tx, audience).(revision := revision)]));
  }
}
