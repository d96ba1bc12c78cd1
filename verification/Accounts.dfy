/** Role assignment by administrators and the one-time admin bootstrap of an audience. */
module Accounts {
  import opened Wrappers
  import opened Text
  import opened RoleBindings
  import opened AuthTables

  datatype RoleAssignment = RoleAssignment(subject: string, roles: seq<string>, expectedRevision: int, actor: string)

  predicate ValidAssignment(subject: string, roles: seq<string>, revision: int, actor: string) {
    && 0 < |subject| <= 32
    && 0 < |actor| <= 128
    && revision > 0
    && |roles| <= 32
    && forall i | 0 <= i < |roles| :: ValidRole(roles[i])
  }

  /** Checks every field and normalises the roles: sorted, without repetitions. */
  method NewRoleAssignment(subject: string, roles: seq<string>, revision: int, actor: string)
    returns (r: Result<RoleAssignment, AuthError>)
    ensures r == if ValidAssignment(subject, roles, revision, actor)
                 then Success(RoleAssignment(subject, Listing(Elements(roles)), revision, actor))
                 else Failure(InvalidRoleAssignment)
  {
    if subject == "" || |subject| > 32 || actor == "" || |actor| > 128 || revision <= 0 || |roles| > 32 {
      return Failure(InvalidRoleAssignment);
    }
    for i := 0 to |roles|
      invariant forall j | 0 <= j < i :: ValidRole(roles[j])
    {
      var ok := CheckRole(roles[i]);
      if !ok {
        return Failure(InvalidRoleAssignment);
      }
    }
    NormalizedIsListing(roles);
    r := Success(RoleAssignment(subject, Compact(Sort(roles)), revision, actor));
  }

  // ---------- replacing roles ----------

  /** Someone other than `excluded` is an enabled admin of the audience. */
  ghost predicate OtherAdmin(t: Tables, audience: string, excluded: string) {
    exists s :: s != excluded && Binding(s, audience, ADMIN) in t.bindings && EnabledAccount(t, s)
  }

  /** The first check a replacement fails, in the order the checks run. */
  ghost function ReplaceRefusal(t: Tables, audience: string, a: RoleAssignment): Option<AuthError> {
    if a.subject !in t.accounts then Some(AccountNotFound)
    else if StateOf(t, audience).revision != a.expectedRevision then Some(RoleRevisionConflict)
    else if EnabledAccount(t, a.subject) && Binding(a.subject, audience, ADMIN) in t.bindings
            && ADMIN !in a.roles && !OtherAdmin(t, audience, a.subject)
    then Some(LastAdmin)
    else if !Distinct(a.roles) then Some(StorageFailure)  // the unique index on (account, audience, role)
    else if AuditTaken(t, audience) then Some(StorageFailure)
    else None
  }

  ghost function AfterReplace(t: Tables, audience: string, a: RoleAssignment): Tables {
    RoleChange(t, audience, a.subject, a.actor, RolesReplace, a.roles, StateOf(t, audience).adminInitialized)
  }

  // ---------- the bootstrap ----------

  ghost predicate AnyAdmin(t: Tables, audience: string) {
    exists s :: Binding(s, audience, ADMIN) in t.bindings
  }

  ghost function BootstrapRefusal(t: Tables, audience: string, subject: string): Option<AuthError> {
    if subject !in t.accounts then Some(AccountNotFound)
    else if t.accounts[subject].status != ENABLED then Some(AccountDisabled)
    else if StateOf(t, audience).adminInitialized || AnyAdmin(t, audience) then Some(AdminAlreadyInitialized)
    else if AuditTaken(t, audience) then Some(StorageFailure)
    else None
  }

  ghost function AfterBootstrap(t: Tables, audience: string, subject: string, actor: string): Tables {
    RoleChange(t, audience, subject, actor, AdminBootstrap,
               Listing(RolesOf(t.bindings, subject, audience) + {ADMIN}), true)
  }

  // ---------- what every role change keeps ----------

  lemma ChangeKeepsIntegrity(t: Tables, audience: string, subject: string, actor: string, action: RoleAction,
                             after: seq<string>, adminInitialized: bool)
    requires Integrity(t) && subject in t.accounts && !AuditTaken(t, audience)
    ensures Integrity(RoleChange(t, audience, subject, actor, action, after, adminInitialized))
  {
    var t' := RoleChange(t, audience, subject, actor, action, after, adminInitialized);
    forall i, j | 0 <= i < j < |t'.audits|
      ensures t'.audits[i].audience != t'.audits[j].audience || t'.audits[i].revision != t'.audits[j].revision
    {
      assert t'.audits[i] == t.audits[i] && t.audits[i] in t.audits;
    }
  }

  lemma ReplaceKeepsIntegrity(t: Tables, audience: string, a: RoleAssignment)
    requires Integrity(t) && ReplaceRefusal(t, audience, a).None?
    ensures Integrity(AfterReplace(t, audience, a))
  {
    ChangeKeepsIntegrity(t, audience, a.subject, a.actor, RolesReplace, a.roles, StateOf(t, audience).adminInitialized);
  }

  lemma BootstrapKeepsIntegrity(t: Tables, audience: string, subject: string, actor: string)
    requires Integrity(t) && BootstrapRefusal(t, audience, subject).None?
    ensures Integrity(AfterBootstrap(t, audience, subject, actor))
  {
    var after := Listing(RolesOf(t.bindings, subject, audience) + {ADMIN});
    ChangeKeepsIntegrity(t, audience, subject, actor, AdminBootstrap, after, true);
  }

  lemma ReplaceKeepsHistory(base: Tables, t: Tables, audience: string, a: RoleAssignment)
    requires RoleHistory(base, t) && StrictlySorted(a.roles)
    ensures RoleHistory(base, AfterReplace(t, audience, a))
  {
    ChangeKeepsHistory(base, t, audience, a.subject, a.actor, RolesReplace, a.roles,
                       StateOf(t, audience).adminInitialized);
  }

  lemma BootstrapKeepsHistory(base: Tables, t: Tables, audience: string, subject: string, actor: string)
    requires RoleHistory(base, t) && BootstrapRefusal(t, audience, subject).None?
    ensures RoleHistory(base, AfterBootstrap(t, audience, subject, actor))
  {
    var after := Listing(RolesOf(t.bindings, subject, audience) + {ADMIN});
    ChangeKeepsHistory(base, t, audience, subject, actor, AdminBootstrap, after, true);
  }

  /** A replacement that is not refused leaves an enabled admin wherever there was one. */
  lemma ReplaceKeepsAnAdmin(t: Tables, audience: string, a: RoleAssignment, where_: string)
    requires ReplaceRefusal(t, audience, a).None? && HasEnabledAdmin(t, where_)
    ensures HasEnabledAdmin(AfterReplace(t, audience, a), where_)
  {
    var u := AfterReplace(t, audience, a);
    var s :| Binding(s, where_, ADMIN) in t.bindings && EnabledAccount(t, s);
    if s == a.subject && where_ == audience && ADMIN !in a.roles {
      var o :| o != a.subject && Binding(o, audience, ADMIN) in t.bindings && EnabledAccount(t, o);
      assert Binding(o, where_, ADMIN) in u.bindings && EnabledAccount(u, o);
    } else {
      assert Binding(s, where_, ADMIN) in u.bindings && EnabledAccount(u, s);
    }
  }

  lemma BootstrapMakesAnAdmin(t: Tables, audience: string, subject: string, actor: string, where_: string)
    requires BootstrapRefusal(t, audience, subject).None?
    ensures HasEnabledAdmin(AfterBootstrap(t, audience, subject, actor), audience)
    ensures HasEnabledAdmin(t, where_) ==> HasEnabledAdmin(AfterBootstrap(t, audience, subject, actor), where_)
  {
    var u := AfterBootstrap(t, audience, subject, actor);
    assert ADMIN in Listing(RolesOf(t.bindings, subject, audience) + {ADMIN});
    assert Binding(subject, audience, ADMIN) in u.bindings && EnabledAccount(u, subject);
    if HasEnabledAdmin(t, where_) {
      var s :| Binding(s, where_, ADMIN) in t.bindings && EnabledAccount(t, s);
      assert where_ != audience ==> Binding(s, where_, ADMIN) in u.bindings && EnabledAccount(u, s);
    }
  }

  // ---------- the repository ----------

  class AccountRepository {
    const db: AuthDatabase
    const audience: string

    constructor (db: AuthDatabase, audience: string)
      ensures this.db == db && this.audience == audience
    {
      this.db, this.audience := db, audience;
    }

    method OtherEnabledAdmin(tx: Tables, excluded: string) returns (found: bool)
      ensures found <==> OtherAdmin(tx, audience, excluded)
    {
      var rows := set b | b in tx.bindings && b.audience == audience && b.role == ADMIN && b.subject != excluded;
      var subjects := set b | b in rows :: b.subject;
      forall s ensures s in subjects <==> s != excluded && Binding(s, audience, ADMIN) in tx.bindings {
        if s != excluded && Binding(s, audience, ADMIN) in tx.bindings {
          assert Binding(s, audience, ADMIN) in rows;
        }
      }
      if |subjects| == 0 {
        return false;
      }
      found := exists s :: s in subjects && EnabledAccount(tx, s);
    }

    /** The last-admin guard of a replacement. */
    method RemovesLastAdmin(tx: Tables, a: RoleAssignment, before: seq<string>) returns (refuse: bool)
      requires a.subject in tx.accounts && before == RoleList(tx, a.subject, audience)
      ensures refuse <==>
                && EnabledAccount(tx, a.subject) && Binding(a.subject, audience, ADMIN) in tx.bindings
                && ADMIN !in a.roles && !OtherAdmin(tx, audience, a.subject)
    {
      AdminInList(tx, a.subject, audience);
      if tx.accounts[a.subject].status == ENABLED && ADMIN in before && ADMIN !in a.roles {
        var other := OtherEnabledAdmin(tx, a.subject);
        return !other;
      }
      refuse := false;
    }

    /** Deletes the pair's rows and inserts the given roles one by one under the unique index. */
    method RewriteBindings(bindings: set<Binding>, subject: string, roles: seq<string>)
      returns (r: Option<set<Binding>>)
      ensures r == if Distinct(roles)
                   then Some(WithoutBindings(bindings, subject, audience) +
                             BindingsFor(subject, audience, Elements(roles)))
                   else None
    {
      var rows := WithoutBindings(bindings, subject, audience);
      for i := 0 to |roles|
        invariant rows == WithoutBindings(bindings, subject, audience) +
                          BindingsFor(subject, audience, Elements(roles[..i]))
        invariant Distinct(roles[..i])
      {
        assert roles[..i + 1] == roles[..i] + [roles[i]];
        assert Elements(roles[..i + 1]) == Elements(roles[..i]) + {roles[i]};
        var row := Binding(subject, audience, roles[i]);
        assert row in rows <==> roles[i] in roles[..i];
        if row in rows {
          return None;
        }
        rows := rows + {row};
      }
      assert roles[..|roles|] == roles;
      r := Some(rows);
    }

    method Replace(a: RoleAssignment) returns (r: Result<int, AuthError>)
      modifies db
      ensures match ReplaceRefusal(old(db.tables), audience, a)
              case Some(e) => r == Failure(e) && db.tables == old(db.tables)
              case None =>
                && r == Success(StateOf(db.tables, audience).revision)
                && db.tables == AfterReplace(old(db.tables), audience, a)
    {
      var tx := db.tables;
      if a.subject !in tx.accounts {
        return Failure(AccountNotFound);
      }
      if StateOf(tx, audience).revision != a.expectedRevision {
        return Failure(RoleRevisionConflict);
      }
      var before := LoadRoles(tx, a.subject, audience);
      var refuse := RemovesLastAdmin(tx, a, before);
      if refuse {
        return Failure(LastAdmin);
      }
      tx := MarkAudience(tx, a.subject, audience);
      var rows := RewriteBindings(tx.bindings, a.subject, a.roles);
      if rows.None? {
        return Failure(StorageFailure);
      }
      tx := tx.(bindings := rows.value);
      var audited := AuditAccountRoles(tx, audience, a.subject, a.actor, RolesReplace, before, a.roles);
      if audited.None? {
        return Failure(StorageFailure);
      }
      db.tables := audited.value;
      r := Success(StateOf(db.tables, audience).revision);
    }

    method AdminExists(tx: Tables) returns (found: bool)
      ensures found <==> AnyAdmin(tx, audience)
    {
      found := exists b :: b in tx.bindings && b.audience == audience && b.role == ADMIN;
      assert forall b | b in tx.bindings && b.audience == audience && b.role == ADMIN ::
          b == Binding(b.subject, audience, ADMIN);
    }

    method BootstrapAdmin(subject: string, actor: string) returns (err: Option<AuthError>)
      modifies db
      ensures err == BootstrapRefusal(old(db.tables), audience, subject)
      ensures db.tables == if err.Some? then old(db.tables)
                           else AfterBootstrap(old(db.tables), audience, subject, actor)
    {
      var tx := db.tables;
      if subject !in tx.accounts {
        return Some(AccountNotFound);
      }
      if tx.accounts[subject].status != ENABLED {
        return Some(AccountDisabled);
      }
      var exists_ := AdminExists(tx);
      if StateOf(tx, audience).adminInitialized || exists_ {
        return Some(AdminAlreadyInitialized);
      }
      NoAdminAmongRoles(tx, subject, audience);
      var written := WriteBootstrap(tx, subject, actor);
      if written.None? {
        return Some(StorageFailure);
      }
      db.tables := written.value;
      err := None;
    }

    method WriteBootstrap(tx0: Tables, subject: string, actor: string) returns (r: Option<Tables>)
      requires ADMIN !in RolesOf(tx0.bindings, subject, audience)
      ensures r == if AuditTaken(tx0, audience) then None else Some(AfterBootstrap(tx0, audience, subject, actor))
    {
      var tx, before, after := GrantAdmin(tx0, subject);
      assert AuditTaken(tx, audience) <==> AuditTaken(tx0, audience);
      var audited := AuditAccountRoles(tx, audience, subject, actor, AdminBootstrap, before, after);
      if audited.None? {
        return None;
      }
      tx := SetAdminInitialized(audited.value);
      assert tx.states == tx0.states[audience := RoleState(StateOf(tx0, audience).revision + 1, true)];
      r := Some(tx);
    }

    method GrantAdmin(tx0: Tables, subject: string) returns (tx: Tables, before: seq<string>, after: seq<string>)
      requires ADMIN !in RolesOf(tx0.bindings, subject, audience)
      ensures before == RoleList(tx0, subject, audience)
      ensures after == Listing(RolesOf(tx0.bindings, subject, audience) + {ADMIN})
      ensures tx == tx0.(
                      audiences := tx0.audiences + {(subject, audience)},
                      bindings := WithoutBindings(tx0.bindings, subject, audience) +
                      BindingsFor(subject, audience, Elements(after)))
    {
      before := LoadRoles(tx0, subject, audience);
      tx := MarkAudience(tx0, subject, audience);
      tx := tx.(bindings := tx.bindings + {Binding(subject, audience, ADMIN)});
      after := SortedWith(before, ADMIN, RolesOf(tx0.bindings, subject, audience));
      OneMoreBinding(tx0.bindings, subject, audience, ADMIN, after);
    }

    method SetAdminInitialized(tx0: Tables) returns (tx: Tables)
      requires audience in tx0.states
      ensures tx == tx0.(states := tx0.states[audience := RoleState(tx0.states[audience].revision, true)])
    {
      tx := tx0.(states := tx0.states[audience := tx0.states[audience].(adminInitialized := true)]);
    }
  }

  /** Appends a role to a sorted copy and sorts again. */
  method SortedWith(before: seq<string>, role: string, ghost roles: set<string>) returns (after: seq<string>)
    requires before == Listing(roles) && role !in roles
    ensures after == Listing(roles + {role})
  {
    ListWith(before, roles, role);
    after := Sort(before + [role]);
  }

  lemma NoAdminAmongRoles(t: Tables, subject: string, audience: string)
    requires !AnyAdmin(t, audience)
    ensures ADMIN !in RolesOf(t.bindings, subject, audience)
  {
  }

  lemma AdminInList(t: Tables, subject: string, audience: string)
    ensures ADMIN in RoleList(t, subject, audience) <==> Binding(subject, audience, ADMIN) in t.bindings
  {
  }

  /** Adding one row is the same as rewriting the pair's rows with one more role. */
  lemma OneMoreBinding(bindings: set<Binding>, subject: string, audience: string, role: string, after: seq<string>)
    requires after == Listing(RolesOf(bindings, subject, audience) + {role})
    ensures bindings + {Binding(subject, audience, role)} ==
            WithoutBindings(bindings, subject, audience) + BindingsFor(subject, audience, Elements(after))
  {
  }

  // ---------- the use case ----------

  /** Validation first, then the repository. */
  method ReplaceRoles(repo: AccountRepository, subject: string, roles: seq<string>, revision: int, actor: string)
    returns (r: Result<int, AuthError>)
    requires repo.db.Valid()
    modifies repo.db
    ensures repo.db.Valid()
    ensures !ValidAssignment(subject, roles, revision, actor) ==>
              r == Failure(InvalidRoleAssignment) && repo.db.tables == old(repo.db.tables)
    ensures ValidAssignment(subject, roles, revision, actor) ==>
              var a := RoleAssignment(subject, Listing(Elements(roles)), revision, actor);
              match ReplaceRefusal(old(repo.db.tables), repo.audience, a)
              case Some(e) => r == Failure(e) && repo.db.tables == old(repo.db.tables)
              case None =>
                && r == Success(revision + 1)
                && repo.db.tables == AfterReplace(old(repo.db.tables), repo.audience, a)
  {
    var a := NewRoleAssignment(subject, roles, revision, actor);
    if a.Failure? {
      return Failure(a.error);
    }
    ghost var t := repo.db.tables;
    r := repo.Replace(a.value);
    if r.Success? {
      ReplaceKeepsIntegrity(t, repo.audience, a.value);
    }
  }

  /** The same check for an explicitly named account and operator, then the one-time bootstrap. */
  method BootstrapFirstAdmin(repo: AccountRepository, subject: string, actor: string) returns (err: Option<AuthError>)
    requires repo.db.Valid()
    modifies repo.db
    ensures repo.db.Valid()
    ensures err == if !ValidAssignment(subject, [ADMIN], 1, actor) then Some(InvalidRoleAssignment)
                   else BootstrapRefusal(old(repo.db.tables), repo.audience, subject)
    ensures repo.db.tables == if err.Some? then old(repo.db.tables)
                              else AfterBootstrap(old(repo.db.tables), repo.audience, subject, actor)
  {
    var a := NewRoleAssignment(subject, [ADMIN], 1, actor);
    if a.Failure? {
      return Some(a.error);
    }
    ghost var t := repo.db.tables;
    err := repo.BootstrapAdmin(subject, actor);
    if err.None? {
      BootstrapKeepsIntegrity(t, repo.audience, subject, actor);
    }
  }
}
