/**
  Logins, refresh rotation and revocation. Every operation runs in one transaction: signing comes after
  all writes and before the commit, so a failure at any point leaves every table as it was.
 */
module Sessions {
  import opened Wrappers
  import opened Text
  import opened AuthTables
  import opened Accounts

  const DEFAULT_ROLE := "user"

  /** A verified external identity with its one-time credential. */
  datatype External = External(key: IdentityKey, email: string, emailVerified: bool, displayName: string,
                               avatarUrl: string, credentialHash: string, expiresAt: int)

  datatype NewSession = NewSession(id: string, refreshHash: string, expiresAt: int)

  datatype LoginProfile = LoginProfile(displayName: string, avatarUrl: string)

  /** The identity a token is issued for. */
  datatype Principal = Principal(subject: string, key: IdentityKey, email: string, emailVerified: bool,
                                 displayName: string, avatarUrl: string, roles: seq<string>)

  /** Fills an empty display name and takes any non-empty avatar. */
  function MergeLoginProfile(current: LoginProfile, incoming: LoginProfile): LoginProfile {
    var named := if current.displayName == "" then current.(displayName := incoming.displayName) else current;
    if incoming.avatarUrl != "" then named.(avatarUrl := incoming.avatarUrl) else named
  }

  /** A chosen display name survives every later login. */
  lemma ProfileKeepsName(current: LoginProfile, incoming: LoginProfile)
    ensures current.displayName != "" ==> MergeLoginProfile(current, incoming).displayName == current.displayName
    ensures MergeLoginProfile(MergeLoginProfile(current, incoming), incoming) == MergeLoginProfile(current, incoming)
    ensures MergeLoginProfile(incoming, incoming) == incoming
  {
  }

  function InitialAudienceRoles(existing: seq<string>): seq<string> {
    if existing == [] then [DEFAULT_ROLE] else existing
  }

  ghost function PrincipalOf(t: Tables, key: IdentityKey, audience: string): Principal
    requires key in t.identities && t.identities[key].subject in t.accounts
  {
    var i := t.identities[key];
    var a := t.accounts[i.subject];
    Principal(i.subject, key, i.email, i.emailVerified, a.displayName, a.avatarUrl, RoleList(t, i.subject, audience))
  }

  // ---------- login ----------

  /** Used credentials whose expiry has passed are removed. */
  function Purged(used: map<string, int>, now: int): map<string, int> {
    map h | h in used && used[h] > now :: used[h]
  }

  /** The account that owns an external identity: the one already linked, else the new candidate. */
  function Owner(t: Tables, key: IdentityKey, candidate: string): string {
    if key in t.identities then t.identities[key].subject else candidate
  }

  predicate HashInUse(t: Tables, hash: string) {
    exists i :: i in t.sessions && t.sessions[i].refreshHash == hash
  }

  /** A first entry cannot write its audit row. */
  predicate JoinClashes(t: Tables, subject: string, audience: string) {
    (subject, audience) !in t.audiences && AuditTaken(t, audience)
  }

  /** The first check a login fails, in the order the checks run. */
  ghost function LoginRefusal(t: Tables, audience: string, now: int, ext: External, candidate: string,
                              s: NewSession, signs: bool)
    : Option<AuthError>
  {
    if ext.credentialHash == "" || ext.expiresAt <= now then Some(InvalidIdToken)
    else if ext.credentialHash in Purged(t.used, now) then Some(CredentialUsed)
    else if candidate in t.accounts then Some(StorageFailure)
    else if JoinClashes(t, Owner(t, ext.key, candidate), audience) then Some(StorageFailure)
    else if ext.key in t.identities && !EnabledAccount(t, t.identities[ext.key].subject) then Some(AccountDisabled)
    else if s.id in t.sessions || HashInUse(t, s.refreshHash) then Some(StorageFailure)
    else if !signs then Some(SigningFailed)
    else None
  }

  /** The identity and account rows after a login: one identity per key, owned for good by its first account. */
  function WithIdentity(t: Tables, now: int, ext: External, candidate: string): Tables {
    var owner := Owner(t, ext.key, candidate);
    var current := if owner in t.accounts then t.accounts[owner] else Account(ext.displayName, ext.avatarUrl, ENABLED);
    var profile := MergeLoginProfile(LoginProfile(current.displayName, current.avatarUrl),
                                     LoginProfile(ext.displayName, ext.avatarUrl));
    t.(identities := t.identities[ext.key := Identity(owner, ext.email, ext.emailVerified, now)],
       accounts := t.accounts[owner := Account(profile.displayName, profile.avatarUrl, current.status)])
  }

  /** The first login into an audience marks the pair, and gives the default role to a subject without roles. */
  ghost function Joined(t: Tables, subject: string, audience: string): Tables {
    if (subject, audience) in t.audiences then t
    else RoleChange(t, audience, subject, subject, AudienceJoin,
                    InitialAudienceRoles(RoleList(t, subject, audience)), StateOf(t, audience).adminInitialized)
  }

  /** The tables after the credential is recorded and the identity settled, before the audience is entered. */
  function Identified(t: Tables, now: int, ext: External, candidate: string): Tables {
    WithIdentity(t.(used := Purged(t.used, now)[ext.credentialHash := ext.expiresAt]), now, ext, candidate)
  }

  ghost function AfterLogin(t: Tables, audience: string, now: int, ext: External, candidate: string,
                            s: NewSession): Tables
  {
    var t1 := Identified(t, now, ext, candidate);
    var t2 := Joined(t1, Owner(t, ext.key, candidate), audience);
    t2.(sessions := t2.sessions[s.id := Session(ext.key, audience, s.refreshHash, now, s.expiresAt, None)])
  }

  lemma JoinedKeepsHistory(base: Tables, t: Tables, subject: string, audience: string)
    requires RoleHistory(base, t)
    ensures RoleHistory(base, Joined(t, subject, audience))
  {
    var after := InitialAudienceRoles(RoleList(t, subject, audience));
    assert StrictlySorted(after);
    if (subject, audience) !in t.audiences {
      ChangeKeepsHistory(base, t, audience, subject, subject, AudienceJoin, after, StateOf(t, audience).adminInitialized);
    }
  }

  lemma HistoryIgnoresOtherTables(base: Tables, t: Tables, t': Tables)
    requires RoleHistory(base, t) && t'.audits == t.audits && t'.states == t.states
    requires t'.bindings == t.bindings && t'.audiences == t.audiences
    ensures RoleHistory(base, t')
  {
    var log := NewRows(base, t);
    assert NewRows(base, t') == log;
    forall s, a ensures RoleList(t', s, a) == LastAfter(RoleList(base, s, a), log, a, s) {
      assert RoleList(t', s, a) == RoleList(t, s, a);
    }
    forall a: string ensures StateOf(t', a) == StateOf(t, a) {
    }
  }

  lemma LoginKeepsHistory(base: Tables, t: Tables, audience: string, now: int, ext: External, candidate: string,
                          s: NewSession)
    requires RoleHistory(base, t)
    ensures RoleHistory(base, AfterLogin(t, audience, now, ext, candidate, s))
  {
    var t1 := Identified(t, now, ext, candidate);
    var owner := Owner(t, ext.key, candidate);
    HistoryIgnoresOtherTables(base, t, t1);
    JoinedKeepsHistory(base, t1, owner, audience);
    HistoryIgnoresOtherTables(base, Joined(t1, owner, audience), AfterLogin(t, audience, now, ext, candidate, s));
  }

  lemma LoginKeepsIntegrity(t: Tables, audience: string, now: int, ext: External, candidate: string, s: NewSession,
                            signs: bool)
    requires Integrity(t) && LoginRefusal(t, audience, now, ext, candidate, s, signs).None?
    ensures Integrity(AfterLogin(t, audience, now, ext, candidate, s))
  {
    var t1 := Identified(t, now, ext, candidate);
    var owner := Owner(t, ext.key, candidate);
    IdentifiedKeepsIntegrity(t, now, ext, candidate);
    JoinKeepsIntegrity(t1, owner, audience);
    JoinedKeepsAccounts(t1, owner, audience);
    SessionKeepsIntegrity(Joined(t1, owner, audience), audience, now, ext.key, s);
  }

  lemma IdentifiedKeepsIntegrity(t: Tables, now: int, ext: External, candidate: string)
    requires Integrity(t)
    ensures Integrity(Identified(t, now, ext, candidate))
    ensures Owner(t, ext.key, candidate) in Identified(t, now, ext, candidate).accounts
    ensures forall a: string :: AuditTaken(Identified(t, now, ext, candidate), a) <==> AuditTaken(t, a)
  {
  }

  lemma JoinKeepsIntegrity(t: Tables, subject: string, audience: string)
    requires Integrity(t) && subject in t.accounts && !JoinClashes(t, subject, audience)
    ensures Integrity(Joined(t, subject, audience))
  {
    if (subject, audience) !in t.audiences {
      ChangeKeepsIntegrity(t, audience, subject, subject, AudienceJoin,
                           InitialAudienceRoles(RoleList(t, subject, audience)), StateOf(t, audience).adminInitialized);
    }
  }

  lemma SessionKeepsIntegrity(t: Tables, audience: string, now: int, key: IdentityKey, s: NewSession)
    requires Integrity(t) && key in t.identities && s.id !in t.sessions && !HashInUse(t, s.refreshHash)
    ensures Integrity(t.(sessions := t.sessions[s.id := Session(key, audience, s.refreshHash, now, s.expiresAt, None)]))
  {
  }

  /** No account is ever without an identity, if none is at the start. */
  ghost predicate NoOrphans(t: Tables) {
    forall s | s in t.accounts :: Owned(t, s)
  }

  ghost predicate Owned(t: Tables, subject: string) {
    exists k :: k in t.identities && t.identities[k].subject == subject
  }

  /** A login leaves no unused candidate behind. */
  lemma LoginKeepsNoOrphans(t: Tables, audience: string, now: int, ext: External, candidate: string, s: NewSession)
    requires Integrity(t) && NoOrphans(t) && candidate !in t.accounts
    ensures NoOrphans(AfterLogin(t, audience, now, ext, candidate, s))
  {
    var t1 := Identified(t, now, ext, candidate);
    JoinedKeepsAccounts(t1, Owner(t, ext.key, candidate), audience);
    forall a | a in t1.accounts ensures Owned(t1, a) {
      if a == Owner(t, ext.key, candidate) {
        assert t1.identities[ext.key].subject == a;
      } else {
        assert Owned(t, a);
        var k :| k in t.identities && t.identities[k].subject == a;
        assert k in t1.identities && t1.identities[k].subject == a;
      }
    }
    var u := AfterLogin(t, audience, now, ext, candidate, s);
    assert u.accounts == t1.accounts && u.identities == t1.identities;
    forall a | a in u.accounts ensures Owned(u, a) {
      assert Owned(t1, a);
    }
  }

  // ---------- rotation and revocation ----------

  /** The rows an update by refresh hash selects. */
  predicate Selects(s: Session, hash: string, audience: string) {
    s.refreshHash == hash && s.audience == audience && s.revokedAt == None
  }

  function Rotatable(t: Tables, audience: string, now: int, hash: string): set<string> {
    set i | i in t.sessions && Selects(t.sessions[i], hash, audience) && t.sessions[i].expiresAt > now
  }

  function Revocable(t: Tables, audience: string, hash: string): set<string> {
    set i | i in t.sessions && Selects(t.sessions[i], hash, audience)
  }

  /** The account behind a session's identity; every session row has one. */
  function Subject(t: Tables, key: IdentityKey): string {
    if key in t.identities then t.identities[key].subject else ""
  }

  /** Whether an access token of this account and session still works. */
  ghost function AccessRefusal(t: Tables, audience: string, now: int, subject: string, id: string): Option<AuthError> {
    if id !in t.sessions || t.sessions[id].audience != audience || t.sessions[id].revokedAt.Some?
       || t.sessions[id].expiresAt <= now || Subject(t, t.sessions[id].identity) != subject
    then Some(SessionInactive)
    else if !EnabledAccount(t, subject) then Some(AccountDisabled)
    else None
  }

  ghost predicate OwnsSession(t: Tables, audience: string, subject: string, id: string) {
    && id in t.sessions && t.sessions[id].audience == audience && t.sessions[id].revokedAt.None?
    && t.sessions[id].identity in t.identities && Subject(t, t.sessions[id].identity) == subject
  }

  /** At most one session carries a hash. */
  lemma HashIsUnique(t: Tables, i: string, j: string)
    requires Integrity(t) && i in t.sessions && j in t.sessions
    requires t.sessions[i].refreshHash == t.sessions[j].refreshHash
    ensures i == j
  {
  }

  ghost function RotateRefusal(t: Tables, audience: string, now: int, oldHash: string, newHash: string, signs: bool)
    : Option<AuthError>
  {
    if Rotatable(t, audience, now, oldHash) == {} then Some(InvalidRefreshToken)
    else if newHash != oldHash && HashInUse(t, newHash) then Some(StorageFailure)
    else if forall i | i in Rotatable(t, audience, now, oldHash) ::
              EnabledAccount(t, Subject(t, t.sessions[i].identity))
    then if signs then None else Some(SigningFailed)
    else Some(AccountDisabled)
  }

  /** The selected session, with its hash and expiry replaced and nothing else touched. */
  function AfterRotate(t: Tables, audience: string, now: int, oldHash: string, newHash: string, expiresAt: int): Tables {
    t.(sessions := map i | i in t.sessions ::
         if i in Rotatable(t, audience, now, oldHash)
         then t.sessions[i].(refreshHash := newHash, expiresAt := expiresAt)
         else t.sessions[i])
  }

  function WithRevoked(t: Tables, ids: set<string>, now: int): Tables {
    t.(sessions := map i | i in t.sessions ::
         if i in ids then t.sessions[i].(revokedAt := Some(now)) else t.sessions[i])
  }

  lemma RotateKeepsIntegrity(t: Tables, audience: string, now: int, oldHash: string, newHash: string, expiresAt: int)
    requires Integrity(t) && (newHash == oldHash || !HashInUse(t, newHash))
    ensures Integrity(AfterRotate(t, audience, now, oldHash, newHash, expiresAt))
  {
    var t' := AfterRotate(t, audience, now, oldHash, newHash, expiresAt);
    forall i, j | i in t'.sessions && j in t'.sessions && i != j
      ensures t'.sessions[i].refreshHash != t'.sessions[j].refreshHash
    {
      assert t.sessions[i].refreshHash != t.sessions[j].refreshHash;
    }
  }

  lemma RevokeKeepsIntegrity(t: Tables, ids: set<string>, now: int)
    requires Integrity(t)
    ensures Integrity(WithRevoked(t, ids, now))
  {
  }

  /** The identities of an account. */
  function KeysOf(t: Tables, subject: string): set<IdentityKey> {
    set k | k in t.identities && t.identities[k].subject == subject
  }

  /** A live session of one of the given identities in an audience. */
  predicate LiveUnder(t: Tables, keys: set<IdentityKey>, audience: string, now: int, id: string) {
    && id in t.sessions && t.sessions[id].identity in keys && t.sessions[id].audience == audience
    && t.sessions[id].revokedAt.None? && t.sessions[id].expiresAt > now
  }

  // ---------- the session manager ----------

  class SessionManager {
    const db: AuthDatabase
    const audience: string

    constructor (db: AuthDatabase, audience: string)
      ensures this.db == db && this.audience == audience
    {
      this.db, this.audience := db, audience;
    }

    /** Records the credential under its hash after removing expired records. */
    method ConsumeCredential(tx0: Tables, now: int, ext: External) returns (tx: Tables, err: Option<AuthError>)
      ensures err == if ext.credentialHash == "" || ext.expiresAt <= now then Some(InvalidIdToken)
                     else if ext.credentialHash in Purged(tx0.used, now) then Some(CredentialUsed)
                     else None
      ensures err.None? ==> tx == tx0.(used := Purged(tx0.used, now)[ext.credentialHash := ext.expiresAt])
    {
      tx := tx0;
      if ext.credentialHash == "" || !(ext.expiresAt > now) {
        return tx, Some(InvalidIdToken);
      }
      var expired := set h | h in tx.used && tx.used[h] <= now;
      tx := tx.(used := tx.used - expired);
      assert tx.used == Purged(tx0.used, now);
      if ext.credentialHash in tx.used {
        return tx, Some(CredentialUsed);
      }
      tx := tx.(used := tx.used[ext.credentialHash := ext.expiresAt]);
      err := None;
    }

    /** Inserts a candidate account, upserts the identity and removes the candidate again if it is not the owner. */
    method SettleOwner(tx0: Tables, now: int, ext: External, candidate: string) returns (tx: Tables)
      requires Integrity(tx0) && candidate !in tx0.accounts
      ensures var owner := Owner(tx0, ext.key, candidate);
              tx == tx0.(
                accounts := if owner in tx0.accounts then tx0.accounts
                            else tx0.accounts[owner := Account(ext.displayName, ext.avatarUrl, ENABLED)],
                identities := tx0.identities[ext.key := Identity(owner, ext.email, ext.emailVerified, now)])
    {
      tx := tx0.(accounts := tx0.accounts[candidate := Account(ext.displayName, ext.avatarUrl, ENABLED)]);
      if ext.key in tx.identities {
        tx := tx.(identities := tx.identities[ext.key :=
                    tx.identities[ext.key].(email := ext.email, emailVerified := ext.emailVerified, lastLoginAt := now)]);
      } else {
        tx := tx.(identities := tx.identities[ext.key := Identity(candidate, ext.email, ext.emailVerified, now)]);
      }
      if tx.identities[ext.key].subject != candidate {
        tx := tx.(accounts := tx.accounts - {candidate});
        assert tx.accounts == tx0.accounts;
      }
    }

    method UpsertIdentity(tx0: Tables, now: int, ext: External, candidate: string)
      returns (tx: Tables, err: Option<AuthError>)
      requires Integrity(tx0)
      ensures err == if candidate in tx0.accounts then Some(StorageFailure) else None
      ensures err.None? ==> tx == WithIdentity(tx0, now, ext, candidate)
    {
      tx := tx0;
      if candidate in tx.accounts {
        return tx, Some(StorageFailure);
      }
      tx := SettleOwner(tx0, now, ext, candidate);
      var subject := tx.identities[ext.key].subject;
      tx := tx.(accounts := tx.accounts[subject := Refreshed(tx.accounts[subject], ext)]);
      err := None;
    }

    /** Writes only the profile fields that the merge changes. */
    function Refreshed(account: Account, ext: External): (r: Account)
      ensures LoginProfile(r.displayName, r.avatarUrl) ==
              MergeLoginProfile(LoginProfile(account.displayName, account.avatarUrl),
                                LoginProfile(ext.displayName, ext.avatarUrl))
      ensures r.status == account.status
    {
      var profile := MergeLoginProfile(LoginProfile(account.displayName, account.avatarUrl),
                                       LoginProfile(ext.displayName, ext.avatarUrl));
      var named := if profile.displayName != account.displayName
                   then account.(displayName := profile.displayName) else account;
      if profile.avatarUrl != account.avatarUrl then named.(avatarUrl := profile.avatarUrl) else named
    }

    /** Gives the default role only on the first entry into the audience. */
    method EnsureAndLoadRoles(tx0: Tables, subject: string) returns (r: Option<(Tables, seq<string>)>)
      ensures r.None? <==> JoinClashes(tx0, subject, audience)
      ensures r.Some? ==>
                && r.value.0 == Joined(tx0, subject, audience)
                && r.value.1 == RoleList(r.value.0, subject, audience)
    {
      if (subject, audience) in tx0.audiences {
        var stored := LoadRoles(tx0, subject, audience);
        return Some((tx0, stored));
      }
      var before := LoadRoles(tx0, subject, audience);
      var roles := InitialAudienceRoles(before);
      var tx := tx0.(bindings := JoinBindings(tx0.bindings, subject, before, roles));
      tx := MarkAudience(tx, subject, audience);
      JoinBindingsMeaning(tx0, subject, before);
      assert AuditTaken(tx, audience) <==> AuditTaken(tx0, audience);
      var audited := AuditAccountRoles(tx, audience, subject, subject, AudienceJoin, before, roles);
      if audited.None? {
        return None;
      }
      JoinedRoles(tx0, subject, audience);
      r := Some((audited.value, roles));
    }

    /** Rows are only inserted for a subject that had none. */
    function JoinBindings(bindings: set<Binding>, subject: string, before: seq<string>, roles: seq<string>): set<Binding> {
      if |before| == 0 then bindings + BindingsFor(subject, audience, Elements(roles)) else bindings
    }

    lemma JoinBindingsMeaning(t: Tables, subject: string, before: seq<string>)
      requires before == RoleList(t, subject, audience)
      ensures JoinBindings(t.bindings, subject, before, InitialAudienceRoles(before)) ==
              WithoutBindings(t.bindings, subject, audience) +
              BindingsFor(subject, audience, Elements(InitialAudienceRoles(before)))
    {
    }

    method Create(now: int, ext: External, candidate: string, s: NewSession, signs: bool)
      returns (r: Result<Principal, AuthError>)
      requires db.Valid()
      modifies db
      ensures db.Valid()
      ensures match LoginRefusal(old(db.tables), audience, now, ext, candidate, s, signs)
              case Some(e) => r == Failure(e) && db.tables == old(db.tables)
              case None =>
                && db.tables == AfterLogin(old(db.tables), audience, now, ext, candidate, s)
                && r.Success? && ext.key in db.tables.identities
                && r.value == PrincipalOf(db.tables, ext.key, audience)
    {
      ghost var t := db.tables;
      var tx, err := ConsumeCredential(db.tables, now, ext);
      if err.Some? {
        return Failure(err.value);
      }
      tx, err := UpsertIdentity(tx, now, ext, candidate);
      if err.Some? {
        return Failure(err.value);
      }
      ghost var t1 := tx;
      var identity := tx.identities[ext.key];
      var entered := EnsureAndLoadRoles(tx, identity.subject);
      assert JoinClashes(t1, identity.subject, audience) <==> JoinClashes(t, identity.subject, audience) by {
        IdentifiedKeepsIntegrity(t, now, ext, candidate);
      }
      if entered.None? {
        return Failure(StorageFailure);
      }
      var roles;
      tx, roles := entered.value.0, entered.value.1;
      JoinedKeepsAccounts(t1, identity.subject, audience);
      var account := tx.accounts[identity.subject];
      if account.status != ENABLED {
        return Failure(AccountDisabled);
      }
      var principal := Principal(identity.subject, ext.key, identity.email, identity.emailVerified,
                                 account.displayName, account.avatarUrl, roles);
      if s.id in tx.sessions || HashInUse(tx, s.refreshHash) {
        return Failure(StorageFailure);
      }
      tx := tx.(sessions := tx.sessions[s.id := Session(ext.key, audience, s.refreshHash, now, s.expiresAt, None)]);
      if !signs {
        return Failure(SigningFailed);
      }
      LoginKeepsIntegrity(t, audience, now, ext, candidate, s, signs);
      db.tables := tx;
      r := Success(principal);
    }

    method Rotate(now: int, oldHash: string, newHash: string, expiresAt: int, signs: bool)
      returns (r: Result<Principal, AuthError>)
      requires db.Valid()
      modifies db
      ensures db.Valid()
      ensures match RotateRefusal(old(db.tables), audience, now, oldHash, newHash, signs)
              case Some(e) => r == Failure(e) && db.tables == old(db.tables)
              case None =>
                && db.tables == AfterRotate(old(db.tables), audience, now, oldHash, newHash, expiresAt)
                && r.Success?
                && (forall i | i in Rotatable(old(db.tables), audience, now, oldHash) ::
                      r.value == PrincipalOf(db.tables, db.tables.sessions[i].identity, audience))
    {
      ghost var t := db.tables;
      var affected := Rotatable(db.tables, audience, now, oldHash);
      if newHash != oldHash && affected != {} && HashInUse(db.tables, newHash) {
        return Failure(StorageFailure);
      }
      var tx := AfterRotate(db.tables, audience, now, oldHash, newHash, expiresAt);
      if |affected| == 0 {
        return Failure(InvalidRefreshToken);
      }
      var id :| id in affected;
      forall i | i in affected ensures i == id {
        HashIsUnique(t, i, id);
      }
      var session := tx.sessions[id];
      var identity := tx.identities[session.identity];
      var account := tx.accounts[identity.subject];
      if account.status != ENABLED {
        return Failure(AccountDisabled);
      }
      var roles := LoadRoles(tx, identity.subject, audience);
      var principal := Principal(identity.subject, session.identity, identity.email, identity.emailVerified,
                                 account.displayName, account.avatarUrl, roles);
      if !signs {
        return Failure(SigningFailed);
      }
      RotateKeepsIntegrity(t, audience, now, oldHash, newHash, expiresAt);
      db.tables := tx;
      r := Success(principal);
    }

    method Revoke(now: int, hash: string) returns (err: Option<AuthError>)
      requires db.Valid()
      modifies db
      ensures db.Valid()
      ensures err == if Revocable(old(db.tables), audience, hash) == {} then Some(InvalidRefreshToken) else None
      ensures db.tables == WithRevoked(old(db.tables), Revocable(old(db.tables), audience, hash), now)
    {
      var ids := Revocable(db.tables, audience, hash);
      RevokeKeepsIntegrity(db.tables, ids, now);
      db.tables := WithRevoked(db.tables, ids, now);
      err := if |ids| == 0 then Some(InvalidRefreshToken) else None;
    }

    method RevokeId(now: int, subject: string, id: string) returns (err: Option<AuthError>)
      requires db.Valid()
      modifies db
      ensures db.Valid()
      ensures err == if OwnsSession(old(db.tables), audience, subject, id) then None else Some(SessionNotFound)
      ensures db.tables == if err.Some? then old(db.tables) else WithRevoked(old(db.tables), {id}, now)
    {
      var keys := KeysOf(db.tables, subject);
      if |keys| == 0 {
        assert forall k | k in db.tables.identities && db.tables.identities[k].subject == subject :: k in keys;
        return Some(SessionNotFound);
      }
      var ids := set i | i == id && i in db.tables.sessions && db.tables.sessions[i].identity in keys
                         && db.tables.sessions[i].audience == audience && db.tables.sessions[i].revokedAt.None?;
      assert OwnsSession(db.tables, audience, subject, id) <==> id in ids;
      if |ids| == 0 {
        return Some(SessionNotFound);
      }
      RevokeKeepsIntegrity(db.tables, ids, now);
      assert ids == {id};
      db.tables := WithRevoked(db.tables, ids, now);
      err := None;
    }

    method AccessActive(now: int, subject: string, id: string) returns (err: Option<AuthError>)
      requires db.Valid()
      ensures err == AccessRefusal(db.tables, audience, now, subject, id)
    {
      var t := db.tables;
      if id !in t.sessions || t.sessions[id].audience != audience {
        return Some(SessionInactive);
      }
      var session := t.sessions[id];
      if session.revokedAt != None || !(session.expiresAt > now) {
        return Some(SessionInactive);
      }
      if t.identities[session.identity].subject != subject {
        return Some(SessionInactive);
      }
      if t.accounts[subject].status != ENABLED {
        return Some(AccountDisabled);
      }
      err := None;
    }

    /** The sessions of an account that could still be refreshed, the latest first. */
    method ListActive(now: int, subject: string) returns (out: seq<SessionInfo>)
      requires db.Valid()
      ensures Distinct(out) && LatestFirst(out)
      ensures forall x :: x in out <==>
                (x.id in db.tables.sessions
                 && var s := db.tables.sessions[x.id];
                    s.audience == audience && s.revokedAt == None && s.expiresAt > now
                    && db.tables.identities[s.identity].subject == subject
                    && x.createdAt == s.createdAt && x.expiresAt == s.expiresAt)
    {
      var t := db.tables;
      var keys := KeysOf(t, subject);
      if |keys| == 0 {
        assert forall k | k in t.identities && t.identities[k].subject == subject :: k in keys;
        return [];
      }
      var rows := set i | i in t.sessions && LiveUnder(t, keys, audience, now, i) :: InfoOf(i, t.sessions[i]);
      out := OrderByCreated(rows);
      forall x
        ensures x in out <==>
                (x.id in t.sessions
                 && var s := t.sessions[x.id];
                    s.audience == audience && s.revokedAt == None && s.expiresAt > now
                    && t.identities[s.identity].subject == subject
                    && x.createdAt == s.createdAt && x.expiresAt == s.expiresAt)
      {
        assert x in out <==> x in rows;
        if x.id in t.sessions {
          assert x in rows <==> LiveUnder(t, keys, audience, now, x.id) && x == InfoOf(x.id, t.sessions[x.id]);
        }
      }
    }
  }

  datatype SessionInfo = SessionInfo(id: string, createdAt: int, expiresAt: int)

  function InfoOf(id: string, s: Session): SessionInfo {
    SessionInfo(id, s.createdAt, s.expiresAt)
  }

  predicate LatestFirst(out: seq<SessionInfo>) {
    forall i, j | 0 <= i < j < |out| :: out[i].createdAt >= out[j].createdAt
  }

  lemma AppendLatest(out: seq<SessionInfo>, left: set<SessionInfo>, next: SessionInfo)
    requires Distinct(out) && LatestFirst(out) && left !! Elements(out) && next in left
    requires forall x, y | x in out && y in left :: x.createdAt >= y.createdAt
    ensures Distinct(out + [next]) && LatestFirst(out + [next])
    ensures Elements(out + [next]) == Elements(out) + {next}
  {
    var all := out + [next];
    forall i, j | 0 <= i < j < |all| ensures all[i] != all[j] && all[i].createdAt >= all[j].createdAt {
      assert all[i] == out[i] && out[i] in Elements(out);
      assert j < |out| ==> all[j] == out[j];
    }
    forall x ensures x in all <==> x in out || x == next {
    }
  }

  method Latest(rows: set<SessionInfo>) returns (x: SessionInfo)
    requires rows != {}
    ensures x in rows && forall y | y in rows :: x.createdAt >= y.createdAt
  {
    LatestExists(rows);
    x :| x in rows && forall y | y in rows :: x.createdAt >= y.createdAt;
  }

  /** Rows in descending order of creation, rows created at the same time in any order. */
  method OrderByCreated(rows: set<SessionInfo>) returns (out: seq<SessionInfo>)
    ensures Distinct(out) && LatestFirst(out) && Elements(out) == rows
  {
    out := [];
    var left := rows;
    while left != {}
      invariant left !! Elements(out) && left + Elements(out) == rows
      invariant Distinct(out) && LatestFirst(out)
      invariant forall x, y | x in out && y in left :: x.createdAt >= y.createdAt
      decreases |left|
    {
      var next := Latest(left);
      AppendLatest(out, left, next);
      left := left - {next};
      out := out + [next];
    }
  }

  lemma {:induction false} LatestExists(rows: set<SessionInfo>)
    requires rows != {}
    ensures exists x :: x in rows && forall y | y in rows :: x.createdAt >= y.createdAt
    decreases |rows|
  {
    var x :| x in rows;
    if rows - {x} == {} {
      forall y | y in rows ensures y == x {
        assert y != x ==> y in rows - {x};
      }
    } else {
      LatestExists(rows - {x});
      var z :| z in rows - {x} && forall y | y in rows - {x} :: z.createdAt >= y.createdAt;
      var w := if x.createdAt >= z.createdAt then x else z;
      assert w in rows && forall y | y in rows :: w.createdAt >= y.createdAt;
    }
  }

  lemma JoinedKeepsAccounts(t: Tables, subject: string, audience: string)
    ensures var t' := Joined(t, subject, audience);
            t'.accounts == t.accounts && t'.identities == t.identities && t'.sessions == t.sessions && t'.used == t.used
            && t.audiences <= t'.audiences
  {
  }

  lemma JoinedRoles(t: Tables, subject: string, audience: string)
    requires (subject, audience) !in t.audiences
    ensures RoleList(Joined(t, subject, audience), subject, audience) ==
            InitialAudienceRoles(RoleList(t, subject, audience))
  {
    var after := InitialAudienceRoles(RoleList(t, subject, audience));
    RolesAfterChange(t, audience, subject, subject, AudienceJoin, after, StateOf(t, audience).adminInitialized,
                     subject, audience);
    StrictListing(after);
  }
}
