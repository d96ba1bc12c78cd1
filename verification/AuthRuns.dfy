/**
  Runs of the account operations: any sequence of logins, rotations, revocations, role replacements and
  bootstraps over any audiences, each one transaction. What holds of every run is stated here.
 */
module AuthRuns {
  import opened Wrappers
  import opened Text
  import opened AuthTables
  import opened Accounts
  import opened Sessions

  datatype Event =
    | Login(ext: External, candidate: string, session: NewSession, signs: bool)
    | Rotate(oldHash: string, newHash: string, expiresAt: int, signs: bool)
    | Revoke(hash: string)
    | RevokeId(subject: string, id: string)
    | Replace(subject: string, roles: seq<string>, revision: int, actor: string)
    | Bootstrap(subject: string, actor: string)

  /** One call: the configured audience, its clock reading and what is asked. */
  datatype Call = Call(audience: string, now: int, event: Event)

  ghost function Assigned(e: Event): RoleAssignment
    requires e.Replace?
  {
    RoleAssignment(e.subject, Listing(Elements(e.roles)), e.revision, e.actor)
  }

  ghost function Refusal(t: Tables, c: Call): Option<AuthError> {
    match c.event
    case Login(ext, candidate, session, signs) => LoginRefusal(t, c.audience, c.now, ext, candidate, session, signs)
    case Rotate(oldHash, newHash, _, signs) => RotateRefusal(t, c.audience, c.now, oldHash, newHash, signs)
    case Revoke(hash) => if Revocable(t, c.audience, hash) == {} then Some(InvalidRefreshToken) else None
    case RevokeId(subject, id) => if OwnsSession(t, c.audience, subject, id) then None else Some(SessionNotFound)
    case Replace(subject, roles, revision, actor) =>
      if !ValidAssignment(subject, roles, revision, actor) then Some(InvalidRoleAssignment)
      else ReplaceRefusal(t, c.audience, Assigned(c.event))
    case Bootstrap(subject, actor) =>
      if !ValidAssignment(subject, [ADMIN], 1, actor) then Some(InvalidRoleAssignment)
      else BootstrapRefusal(t, c.audience, subject)
  }

  ghost function Effect(t: Tables, c: Call): Tables {
    match c.event
    case Login(ext, candidate, session, _) => AfterLogin(t, c.audience, c.now, ext, candidate, session)
    case Rotate(oldHash, newHash, expiresAt, _) => AfterRotate(t, c.audience, c.now, oldHash, newHash, expiresAt)
    case Revoke(hash) => WithRevoked(t, Revocable(t, c.audience, hash), c.now)
    case RevokeId(_, id) => WithRevoked(t, {id}, c.now)
    case Replace(_, _, _, _) => AfterReplace(t, c.audience, Assigned(c.event))
    case Bootstrap(subject, actor) => AfterBootstrap(t, c.audience, subject, actor)
  }

  /** A refused call changes nothing. */
  ghost function Next(t: Tables, c: Call): Tables {
    if Refusal(t, c).Some? then t else Effect(t, c)
  }

  /** The services do exactly what `Refusal` and `Next` say. */
  method Perform(db: AuthDatabase, c: Call) returns (err: Option<AuthError>)
    requires db.Valid()
    modifies db
    ensures db.Valid()
    ensures err == Refusal(old(db.tables), c)
    ensures db.tables == Next(old(db.tables), c)
  {
    if c.event.Replace? || c.event.Bootstrap? {
      err := PerformOnRoles(db, c);
    } else if c.event.Login? || c.event.Rotate? {
      err := PerformSignIn(db, c);
    } else {
      err := PerformRevocation(db, c);
    }
  }

  method PerformOnRoles(db: AuthDatabase, c: Call) returns (err: Option<AuthError>)
    requires db.Valid() && (c.event.Replace? || c.event.Bootstrap?)
    modifies db
    ensures db.Valid()
    ensures err == Refusal(old(db.tables), c)
    ensures db.tables == Next(old(db.tables), c)
  {
    var repo := new AccountRepository(db, c.audience);
    match c.event
    case Replace(subject, roles, revision, actor) =>
      var r := ReplaceRoles(repo, subject, roles, revision, actor);
      err := if r.Success? then None else Some(r.error);
    case Bootstrap(subject, actor) =>
      err := BootstrapFirstAdmin(repo, subject, actor);
  }

  method PerformSignIn(db: AuthDatabase, c: Call) returns (err: Option<AuthError>)
    requires db.Valid() && (c.event.Login? || c.event.Rotate?)
    modifies db
    ensures db.Valid()
    ensures err == Refusal(old(db.tables), c)
    ensures db.tables == Next(old(db.tables), c)
  {
    var manager := new SessionManager(db, c.audience);
    match c.event
    case Login(ext, candidate, session, signs) =>
      var r := manager.Create(c.now, ext, candidate, session, signs);
      err := if r.Success? then None else Some(r.error);
    case Rotate(oldHash, newHash, expiresAt, signs) =>
      var r := manager.Rotate(c.now, oldHash, newHash, expiresAt, signs);
      err := if r.Success? then None else Some(r.error);
  }

  method PerformRevocation(db: AuthDatabase, c: Call) returns (err: Option<AuthError>)
    requires db.Valid() && (c.event.Revoke? || c.event.RevokeId?)
    modifies db
    ensures db.Valid()
    ensures err == Refusal(old(db.tables), c)
    ensures db.tables == Next(old(db.tables), c)
  {
    var manager := new SessionManager(db, c.audience);
    ghost var t := db.tables;
    RevokingNothing(t, c.now);
    assert Next(t, c) == if Refusal(t, c).Some? then t else Effect(t, c);
    match c.event
    case Revoke(hash) => err := manager.Revoke(c.now, hash);
    case RevokeId(subject, id) => err := manager.RevokeId(c.now, subject, id);
  }

  lemma RevokingNothing(t: Tables, now: int)
    ensures WithRevoked(t, {}, now) == t
  {
  }

  // ---------- what every call keeps ----------

  lemma NextKeepsIntegrity(t: Tables, c: Call)
    requires Integrity(t)
    ensures Integrity(Next(t, c))
  {
    if Refusal(t, c).None? {
      match c.event
      case Login(ext, candidate, session, signs) =>
        LoginKeepsIntegrity(t, c.audience, c.now, ext, candidate, session, signs);
      case Rotate(oldHash, newHash, expiresAt, _) =>
        RotateKeepsIntegrity(t, c.audience, c.now, oldHash, newHash, expiresAt);
      case Revoke(hash) => RevokeKeepsIntegrity(t, Revocable(t, c.audience, hash), c.now);
      case RevokeId(_, id) => RevokeKeepsIntegrity(t, {id}, c.now);
      case Replace(_, _, _, _) => ReplaceKeepsIntegrity(t, c.audience, Assigned(c.event));
      case Bootstrap(subject, actor) => BootstrapKeepsIntegrity(t, c.audience, subject, actor);
    }
  }

  lemma NextKeepsHistory(base: Tables, t: Tables, c: Call)
    requires RoleHistory(base, t)
    ensures RoleHistory(base, Next(t, c))
  {
    if Refusal(t, c).None? {
      match c.event
      case Login(ext, candidate, session, _) => LoginKeepsHistory(base, t, c.audience, c.now, ext, candidate, session);
      case Rotate(_, _, _, _) => HistoryIgnoresOtherTables(base, t, Effect(t, c));
      case Revoke(_) => HistoryIgnoresOtherTables(base, t, Effect(t, c));
      case RevokeId(_, _) => HistoryIgnoresOtherTables(base, t, Effect(t, c));
      case Replace(_, _, _, _) => ReplaceKeepsHistory(base, t, c.audience, Assigned(c.event));
      case Bootstrap(subject, actor) => BootstrapKeepsHistory(base, t, c.audience, subject, actor);
    }
  }

  lemma NextKeepsNoOrphans(t: Tables, c: Call)
    requires Integrity(t) && NoOrphans(t)
    ensures NoOrphans(Next(t, c))
  {
    if Refusal(t, c).None? && c.event.Login? {
      LoginKeepsNoOrphans(t, c.audience, c.now, c.event.ext, c.event.candidate, c.event.session);
    } else {
      OwnersUntouched(t, c);
      forall s | s in t.accounts ensures Owned(Next(t, c), s) {
        assert Owned(t, s);
      }
    }
  }

  lemma SessionEffectKeepsOwners(t: Tables, c: Call)
    requires c.event.Rotate? || c.event.Revoke? || c.event.RevokeId?
    ensures Effect(t, c).accounts == t.accounts && Effect(t, c).identities == t.identities
  {
  }

  lemma RoleEffectKeepsOwners(t: Tables, c: Call)
    requires c.event.Replace? || c.event.Bootstrap?
    ensures Effect(t, c).accounts == t.accounts && Effect(t, c).identities == t.identities
  {
  }

  lemma OwnersUntouched(t: Tables, c: Call)
    requires !c.event.Login? || Refusal(t, c).Some?
    ensures Next(t, c).accounts == t.accounts && Next(t, c).identities == t.identities
  {
    if Refusal(t, c).None? {
      if c.event.Replace? || c.event.Bootstrap? {
        RoleEffectKeepsOwners(t, c);
      } else {
        SessionEffectKeepsOwners(t, c);
      }
    }
  }

  /** The tables before call `i` of a run. */
  ghost function At(t0: Tables, calls: seq<Call>, i: nat): Tables
    requires i <= |calls|
    decreases i
  {
    if i == 0 then t0 else Next(At(t0, calls, i - 1), calls[i - 1])
  }

  ghost predicate Succeeds(t0: Tables, calls: seq<Call>, i: nat)
    requires i < |calls|
  {
    Refusal(At(t0, calls, i), calls[i]).None?
  }

  /** The keys hold in every state of every run. */
  lemma {:induction false} RunKeepsIntegrity(t0: Tables, calls: seq<Call>, i: nat)
    requires Integrity(t0) && i <= |calls|
    ensures Integrity(At(t0, calls, i))
    decreases i
  {
    if i > 0 {
      RunKeepsIntegrity(t0, calls, i - 1);
      NextKeepsIntegrity(At(t0, calls, i - 1), calls[i - 1]);
    }
  }

  /** In every state of every run the audit explains the roles, relative to whatever the run started from. */
  lemma {:induction false} RunKeepsHistory(t0: Tables, calls: seq<Call>, i: nat)
    requires i <= |calls|
    ensures RoleHistory(t0, At(t0, calls, i))
    decreases i
  {
    if i == 0 {
      HistoryStarts(t0);
    } else {
      RunKeepsHistory(t0, calls, i - 1);
      NextKeepsHistory(t0, At(t0, calls, i - 1), calls[i - 1]);
    }
  }

  // ---------- what only ever grows ----------

  /**
    Accounts and identities stay, with owner, status and chosen name, and so do marked pairs; an account
    gets no further identity.
   */
  ghost predicate OwnersKept(t: Tables, u: Tables) {
    && (forall k | k in t.identities :: k in u.identities && u.identities[k].subject == t.identities[k].subject)
    && (forall k | k in u.identities && u.identities[k].subject in t.accounts :: k in t.identities)
    && (forall s | s in t.accounts :: AccountKept(t, u, s))
    && t.audiences <= u.audiences
  }

  predicate AccountKept(t: Tables, u: Tables, s: string)
    requires s in t.accounts
  {
    && s in u.accounts && u.accounts[s].status == t.accounts[s].status
    && (t.accounts[s].displayName != "" ==> u.accounts[s].displayName == t.accounts[s].displayName)
  }

  ghost predicate RolesGrow(t: Tables, u: Tables) {
    && (forall a: string :: StateOf(t, a).revision <= StateOf(u, a).revision)
    && (forall a: string :: StateOf(t, a).adminInitialized ==> StateOf(u, a).adminInitialized)
    && (forall a: string :: HasEnabledAdmin(t, a) ==> HasEnabledAdmin(u, a))
    && t.audits <= u.audits
  }

  /** Sessions stay, with owner and audience; a revoked one is not touched again. */
  ghost predicate SessionsKept(t: Tables, u: Tables) {
    forall i | i in t.sessions :: SessionKept(t, u, i)
  }

  predicate SessionKept(t: Tables, u: Tables, i: string)
    requires i in t.sessions
  {
    && i in u.sessions
    && u.sessions[i].identity == t.sessions[i].identity && u.sessions[i].audience == t.sessions[i].audience
    && (t.sessions[i].revokedAt.Some? ==> u.sessions[i] == t.sessions[i])
  }

  ghost predicate Grows(t: Tables, u: Tables) {
    OwnersKept(t, u) && RolesGrow(t, u) && SessionsKept(t, u)
  }

  lemma IdentifiedKeepsOwners(t: Tables, now: int, ext: External, candidate: string)
    requires Integrity(t) && candidate !in t.accounts
    ensures OwnersKept(t, Identified(t, now, ext, candidate))
  {
  }

  lemma SessionAdded(t: Tables, t1: Tables, u: Tables, id: string, session: Session)
    requires OwnersKept(t, t1) && id !in t.sessions && t1.sessions == t.sessions
    requires u.accounts == t1.accounts && u.identities == t1.identities && t1.audiences <= u.audiences
    requires u.sessions == t.sessions[id := session]
    ensures OwnersKept(t, u) && SessionsKept(t, u)
  {
  }

  lemma LoginKeepsOwners(t: Tables, audience: string, now: int, ext: External, candidate: string, s: NewSession)
    requires Integrity(t) && candidate !in t.accounts && s.id !in t.sessions
    ensures OwnersKept(t, AfterLogin(t, audience, now, ext, candidate, s))
    ensures SessionsKept(t, AfterLogin(t, audience, now, ext, candidate, s))
  {
    var t1 := Identified(t, now, ext, candidate);
    IdentifiedKeepsOwners(t, now, ext, candidate);
    JoinedKeepsAccounts(t1, Owner(t, ext.key, candidate), audience);
    SessionAdded(t, t1, AfterLogin(t, audience, now, ext, candidate, s), s.id,
                 Session(ext.key, audience, s.refreshHash, now, s.expiresAt, None));
  }

  lemma LoginKeepsAdmin(t: Tables, audience: string, now: int, ext: External, candidate: string, s: NewSession,
                        signs: bool, where_: string)
    requires Integrity(t) && LoginRefusal(t, audience, now, ext, candidate, s, signs).None? && HasEnabledAdmin(t, where_)
    ensures HasEnabledAdmin(AfterLogin(t, audience, now, ext, candidate, s), where_)
  {
    var u := AfterLogin(t, audience, now, ext, candidate, s);
    var t1 := Identified(t, now, ext, candidate);
    var admin :| Binding(admin, where_, ADMIN) in t.bindings && EnabledAccount(t, admin);
    LoginKeepsOwners(t, audience, now, ext, candidate, s);
    assert AccountKept(t, u, admin) && EnabledAccount(u, admin);
    JoinKeepsBinding(t1, Owner(t, ext.key, candidate), audience, Binding(admin, where_, ADMIN));
  }

  lemma LoginRolesGrow(t: Tables, audience: string, now: int, ext: External, candidate: string, s: NewSession, signs: bool)
    requires Integrity(t) && LoginRefusal(t, audience, now, ext, candidate, s, signs).None?
    ensures RolesGrow(t, AfterLogin(t, audience, now, ext, candidate, s))
  {
    forall a: string | HasEnabledAdmin(t, a)
      ensures HasEnabledAdmin(AfterLogin(t, audience, now, ext, candidate, s), a)
    {
      LoginKeepsAdmin(t, audience, now, ext, candidate, s, signs, a);
    }
  }

  /** The first join writes only the default role, and only when there is no other. */
  lemma JoinKeepsBinding(t: Tables, subject: string, audience: string, b: Binding)
    requires b in t.bindings
    ensures b in Joined(t, subject, audience).bindings
  {
  }

  lemma ReplaceRolesGrow(t: Tables, audience: string, a: RoleAssignment)
    requires Integrity(t) && ReplaceRefusal(t, audience, a).None?
    ensures Grows(t, AfterReplace(t, audience, a))
  {
    forall x: string | HasEnabledAdmin(t, x) ensures HasEnabledAdmin(AfterReplace(t, audience, a), x) {
      ReplaceKeepsAnAdmin(t, audience, a, x);
    }
  }

  lemma BootstrapRolesGrow(t: Tables, audience: string, subject: string, actor: string)
    requires Integrity(t) && BootstrapRefusal(t, audience, subject).None?
    ensures Grows(t, AfterBootstrap(t, audience, subject, actor))
  {
    forall x: string | HasEnabledAdmin(t, x) ensures HasEnabledAdmin(AfterBootstrap(t, audience, subject, actor), x) {
      BootstrapMakesAnAdmin(t, audience, subject, actor, x);
    }
  }

  lemma SessionsOnlyGrow(t: Tables, u: Tables)
    requires u == t.(sessions := u.sessions) && SessionsKept(t, u)
    ensures Grows(t, u)
  {
  }

  lemma RotationGrows(t: Tables, audience: string, now: int, oldHash: string, newHash: string, expiresAt: int)
    ensures Grows(t, AfterRotate(t, audience, now, oldHash, newHash, expiresAt))
  {
  }

  lemma RevocationGrows(t: Tables, ids: set<string>, now: int)
    requires forall i | i in ids && i in t.sessions :: t.sessions[i].revokedAt.None?
    ensures Grows(t, WithRevoked(t, ids, now))
  {
  }

  lemma NextGrows(t: Tables, c: Call)
    requires Integrity(t)
    ensures Grows(t, Next(t, c))
  {
    if Refusal(t, c).Some? {
      SessionsOnlyGrow(t, t);
    } else {
      match c.event
      case Login(ext, candidate, session, signs) =>
        LoginKeepsOwners(t, c.audience, c.now, ext, candidate, session);
        LoginRolesGrow(t, c.audience, c.now, ext, candidate, session, signs);
      case Rotate(oldHash, newHash, expiresAt, _) => RotationGrows(t, c.audience, c.now, oldHash, newHash, expiresAt);
      case Revoke(hash) => RevocationGrows(t, Revocable(t, c.audience, hash), c.now);
      case RevokeId(_, id) => RevocationGrows(t, {id}, c.now);
      case Replace(_, _, _, _) => ReplaceRolesGrow(t, c.audience, Assigned(c.event));
      case Bootstrap(subject, actor) => BootstrapRolesGrow(t, c.audience, subject, actor);
    }
  }

  lemma GrowsTransitive(t: Tables, u: Tables, v: Tables)
    requires Grows(t, u) && Grows(u, v)
    ensures Grows(t, v)
  {
  }

  lemma {:induction false} RunGrows(t0: Tables, calls: seq<Call>, i: nat, j: nat)
    requires Integrity(t0) && i <= j <= |calls|
    ensures Grows(At(t0, calls, i), At(t0, calls, j))
    decreases j
  {
    if i == j {
      RunKeepsIntegrity(t0, calls, i);
      SessionsOnlyGrow(At(t0, calls, i), At(t0, calls, i));
    } else {
      RunGrows(t0, calls, i, j - 1);
      RunKeepsIntegrity(t0, calls, j - 1);
      NextGrows(At(t0, calls, j - 1), calls[j - 1]);
      GrowsTransitive(At(t0, calls, i), At(t0, calls, j - 1), At(t0, calls, j));
    }
  }
}
