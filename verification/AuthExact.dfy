/**
  Exactly when each account service succeeds, what it reports otherwise and what it then changes, on the
  fields of the tables alone.
 */
module AuthExact {
  import opened Wrappers
  import opened Text
  import opened PermissionCodes
  import opened RoleBindings
  import opened AuthTables
  import opened Accounts
  import opened Sessions
  import opened AuthRuns
  import opened AuthGuarantees

  /** The stored revision of an audience, 1 before its first row. */
  function StoredRevision(t: Tables, audience: string): int {
    if audience in t.states then t.states[audience].revision else 1
  }

  /** No audit row holds the next revision of the audience. */
  predicate AuditFree(t: Tables, audience: string) {
    forall a | a in t.audits && a.audience == audience :: a.revision != StoredRevision(t, audience) + 1
  }

  lemma AuditFreeMeans(t: Tables, audience: string)
    ensures StateOf(t, audience).revision == StoredRevision(t, audience)
    ensures AuditTaken(t, audience) <==> !AuditFree(t, audience)
    ensures StateOf(t, audience).adminInitialized <==> audience in t.states && t.states[audience].adminInitialized
  {
  }

  // ---------- login ----------

  /** Who may log in. */
  lemma LoginSucceedsIff(t: Tables, c: Call)
    requires Integrity(t) && c.event.Login?
    ensures var e, x := c.event, c.event.ext;
            var owner := if x.key in t.identities then t.identities[x.key].subject else e.candidate;
            Refusal(t, c).None? <==>
              && x.credentialHash != "" && x.expiresAt > c.now
              && !(x.credentialHash in t.used && t.used[x.credentialHash] > c.now)
              && e.candidate !in t.accounts
              && (x.key in t.identities ==> t.accounts[owner].status == 1)
              && e.session.id !in t.sessions
              && (forall i | i in t.sessions :: t.sessions[i].refreshHash != e.session.refreshHash)
              && ((owner, c.audience) in t.audiences || AuditFree(t, c.audience))
              && e.signs
  {
    AuditFreeMeans(t, c.audience);
  }

  /** What a login that fails reports. */
  lemma LoginErrors(t: Tables, c: Call)
    requires Integrity(t) && c.event.Login?
    ensures var e, x := c.event, c.event.ext;
            && (Refusal(t, c) == Some(InvalidIdToken) <==> x.credentialHash == "" || x.expiresAt <= c.now)
            && (Refusal(t, c) == Some(CredentialUsed) <==>
                  && x.credentialHash != "" && x.expiresAt > c.now
                  && x.credentialHash in t.used && t.used[x.credentialHash] > c.now)
            && (Refusal(t, c) == Some(AccountDisabled) ==>
                  x.key in t.identities && t.accounts[t.identities[x.key].subject].status != 1)
            && (Refusal(t, c) == Some(SigningFailed) ==> !e.signs)
  {
  }

  /** A login for an account that is not enabled never succeeds and leaves every table. */
  lemma DisabledNeverLogsIn(t: Tables, c: Call)
    requires Integrity(t) && c.event.Login? && c.event.ext.key in t.identities
    requires t.accounts[t.identities[c.event.ext.key].subject].status != 1
    ensures Refusal(t, c).Some? && Next(t, c) == t
  {
  }

  /** The rows a login writes, table by table. */
  lemma LoginWrites(t: Tables, c: Call)
    requires Integrity(t) && c.event.Login? && Refusal(t, c).None?
    ensures var e, x, u := c.event, c.event.ext, Next(t, c);
            var owner := if x.key in t.identities then t.identities[x.key].subject else e.candidate;
            && u.sessions == t.sessions[e.session.id := Session(x.key, c.audience, e.session.refreshHash,
                                                                c.now, e.session.expiresAt, None)]
            && u.identities == t.identities[x.key := Identity(owner, x.email, x.emailVerified, c.now)]
            && (forall h :: h in u.used <==> h == x.credentialHash || (h in t.used && t.used[h] > c.now))
            && (forall h | h in u.used :: u.used[h] == if h == x.credentialHash then x.expiresAt else t.used[h])
            && u.accounts.Keys == t.accounts.Keys + {owner}
            && (forall s | s in t.accounts && s != owner :: u.accounts[s] == t.accounts[s])
            && u.audiences == t.audiences + {(owner, c.audience)}
  {
    var e, x := c.event, c.event.ext;
    LoginSessions(t, c);
    JoinedKeepsAccounts(Identified(t, c.now, x, e.candidate), Owner(t, x.key, e.candidate), c.audience);
    JoinMarks(Identified(t, c.now, x, e.candidate), Owner(t, x.key, e.candidate), c.audience);
  }

  lemma JoinMarks(t: Tables, subject: string, audience: string)
    ensures Joined(t, subject, audience).audiences == t.audiences + {(subject, audience)}
  {
  }

  /** The account row after a login: a chosen name and the status stay, a non-empty avatar is taken over. */
  lemma LoginAccount(t: Tables, c: Call)
    requires Integrity(t) && c.event.Login? && Refusal(t, c).None?
    ensures var e, x, u := c.event, c.event.ext, Next(t, c);
            var owner := if x.key in t.identities then t.identities[x.key].subject else e.candidate;
            && owner in u.accounts && u.accounts[owner].status == 1
            && (owner !in t.accounts ==> u.accounts[owner] == Account(x.displayName, x.avatarUrl, 1))
            && (owner in t.accounts ==>
                  && u.accounts[owner].status == t.accounts[owner].status
                  && u.accounts[owner].displayName ==
                     (if t.accounts[owner].displayName == "" then x.displayName else t.accounts[owner].displayName)
                  && u.accounts[owner].avatarUrl ==
                     (if x.avatarUrl == "" then t.accounts[owner].avatarUrl else x.avatarUrl))
  {
    var e, x := c.event, c.event.ext;
    JoinedKeepsAccounts(Identified(t, c.now, x, e.candidate), Owner(t, x.key, e.candidate), c.audience);
  }

  /** The role rows a login writes: only the default role, only on a first entry, only for a subject without roles. */
  lemma LoginBindings(t: Tables, c: Call, s: string, a: string, r: string)
    requires Integrity(t) && c.event.Login? && Refusal(t, c).None?
    ensures var e, x, u := c.event, c.event.ext, Next(t, c);
            var owner := if x.key in t.identities then t.identities[x.key].subject else e.candidate;
            Binding(s, a, r) in u.bindings <==>
              || Binding(s, a, r) in t.bindings
              || (s == owner && a == c.audience && r == "user" && (owner, c.audience) !in t.audiences
                  && forall o :: Binding(owner, c.audience, o) !in t.bindings)
  {
    var owner := Owner(t, c.event.ext.key, c.event.candidate);
    RolesAndRows(t, s, a, r);
    RolesAndRows(Next(t, c), s, a, r);
    if (owner, c.audience) !in t.audiences && s == owner && a == c.audience {
      FirstEntryGivesDefault(t, c);
      forall o ensures o in RolesOf(t.bindings, owner, c.audience) <==> Binding(owner, c.audience, o) in t.bindings {
        RolesAndRows(t, owner, c.audience, o);
      }
    } else {
      LoginKeepsSettledRoles(t, c, s, a);
    }
  }

  /** A first entry appends one audit row under the next revision; any other login touches neither. */
  lemma LoginAudits(t: Tables, c: Call, r: string)
    requires Integrity(t) && c.event.Login? && Refusal(t, c).None?
    ensures var e, x, u := c.event, c.event.ext, Next(t, c);
            var owner := if x.key in t.identities then t.identities[x.key].subject else e.candidate;
            var next := StoredRevision(t, c.audience) + 1;
            if (owner, c.audience) in t.audiences then u.audits == t.audits && u.states == t.states
            else
              && u.states == t.states[c.audience :=
                                        RoleState(next, c.audience in t.states && t.states[c.audience].adminInitialized)]
              && |u.audits| == |t.audits| + 1 && t.audits <= u.audits
              && var row := u.audits[|t.audits|];
                 row.audience == c.audience && row.subject == owner && row.actor == owner && row.action == AudienceJoin
                 && row.revision == next
                 && (r in row.before <==> Binding(owner, c.audience, r) in t.bindings)
                 && (r in row.after <==>
                     (r == "user" && forall o :: Binding(owner, c.audience, o) !in t.bindings)
                     || Binding(owner, c.audience, r) in t.bindings)
  {
    var owner := Owner(t, c.event.ext.key, c.event.candidate);
    var t1 := Identified(t, c.now, c.event.ext, c.event.candidate);
    AuditFreeMeans(t, c.audience);
    JoinAudits(t1, owner, c.audience, r);
  }

  lemma JoinAudits(t: Tables, subject: string, audience: string, r: string)
    ensures var u, next := Joined(t, subject, audience), StoredRevision(t, audience) + 1;
            if (subject, audience) in t.audiences then u.audits == t.audits && u.states == t.states
            else
              && u.states == t.states[audience :=
                                        RoleState(next, audience in t.states && t.states[audience].adminInitialized)]
              && |u.audits| == |t.audits| + 1 && t.audits <= u.audits
              && var row := u.audits[|t.audits|];
                 row.audience == audience && row.subject == subject && row.actor == subject && row.action == AudienceJoin
                 && row.revision == next
                 && (r in row.before <==> Binding(subject, audience, r) in t.bindings)
                 && (r in row.after <==>
                     (r == "user" && forall o :: Binding(subject, audience, o) !in t.bindings)
                     || Binding(subject, audience, r) in t.bindings)
  {
    var before := RoleList(t, subject, audience);
    forall o ensures o in before <==> Binding(subject, audience, o) in t.bindings {
      RolesAndRows(t, subject, audience, o);
    }
    assert before == [] || before[0] in before;
  }

  lemma RolesAndRows(t: Tables, s: string, a: string, r: string)
    ensures r in RolesOf(t.bindings, s, a) <==> Binding(s, a, r) in t.bindings
  {
    if Binding(s, a, r) in t.bindings {
      assert Binding(s, a, r).role == r;
    }
  }

  /** The session's identity and account exist, and the account has status 1. */
  predicate SessionUnderEnabled(t: Tables, id: string) {
    && id in t.sessions && t.sessions[id].identity in t.identities
    && t.identities[t.sessions[id].identity].subject in t.accounts
    && t.accounts[t.identities[t.sessions[id].identity].subject].status == 1
  }

  /** Over any run every session that was not there at the start belongs to an account of status 1. */
  lemma {:induction false} SessionsOnlyForEnabledAccounts(t0: Tables, calls: seq<Call>, i: nat, id: string)
    requires Integrity(t0) && i <= |calls| && id in At(t0, calls, i).sessions && id !in t0.sessions
    ensures SessionUnderEnabled(At(t0, calls, i), id)
    decreases i
  {
    if i > 0 {
      RunKeepsIntegrity(t0, calls, i - 1);
      if id in At(t0, calls, i - 1).sessions {
        SessionsOnlyForEnabledAccounts(t0, calls, i - 1, id);
      }
      StaysUnderEnabled(At(t0, calls, i - 1), calls[i - 1], id);
    }
  }

  lemma StaysUnderEnabled(t: Tables, c: Call, id: string)
    requires Integrity(t) && id in Next(t, c).sessions && (id in t.sessions ==> SessionUnderEnabled(t, id))
    ensures SessionUnderEnabled(Next(t, c), id)
  {
    if id in t.sessions {
      NextGrows(t, c);
      EnabledForGood(t, Next(t, c), id);
    } else {
      NewSessionIsEnabled(t, c, id);
    }
  }

  lemma NewSessionIsEnabled(t: Tables, c: Call, id: string)
    requires Integrity(t) && id in Next(t, c).sessions && id !in t.sessions
    ensures SessionUnderEnabled(Next(t, c), id)
  {
    OnlyLoginsAddSessions(t, c, id);
    LoginWrites(t, c);
    LoginAccount(t, c);
  }

  lemma EnabledForGood(u: Tables, v: Tables, id: string)
    requires SessionUnderEnabled(u, id) && Grows(u, v)
    ensures SessionUnderEnabled(v, id)
  {
    assert SessionKept(u, v, id) && AccountKept(u, v, u.identities[u.sessions[id].identity].subject);
  }

  lemma OnlyLoginsAddSessions(t: Tables, c: Call, id: string)
    requires id in Next(t, c).sessions && id !in t.sessions
    ensures c.event.Login? && Refusal(t, c).None? && id == c.event.session.id
  {
    if Refusal(t, c).None? {
      if c.event.Login? {
        LoginSessions(t, c);
      } else if c.event.Replace? || c.event.Bootstrap? {
        RoleEffectKeepsSessions(t, c);
      }
    }
  }

  // ---------- rotation ----------

  /** A session that this refresh token may still rotate. */
  predicate Live(s: Session, hash: string, audience: string, now: int) {
    s.refreshHash == hash && s.audience == audience && s.revokedAt == None && s.expiresAt > now
  }

  lemma RotatableMeans(t: Tables, c: Call, i: string)
    requires c.event.Rotate?
    ensures i in Rotatable(t, c.audience, c.now, c.event.oldHash) <==>
            i in t.sessions && Live(t.sessions[i], c.event.oldHash, c.audience, c.now)
  {
  }

  lemma RotateSucceedsIff(t: Tables, c: Call)
    requires Integrity(t) && c.event.Rotate?
    ensures var e := c.event;
            Refusal(t, c).None? <==>
              && (exists i :: && i in t.sessions
                              && t.sessions[i].refreshHash == e.oldHash && t.sessions[i].audience == c.audience
                              && t.sessions[i].revokedAt == None && t.sessions[i].expiresAt > c.now
                              && t.accounts[t.identities[t.sessions[i].identity].subject].status == 1)
              && (e.newHash == e.oldHash || forall i | i in t.sessions :: t.sessions[i].refreshHash != e.newHash)
              && e.signs
  {
    var ids := Rotatable(t, c.audience, c.now, c.event.oldHash);
    forall i ensures i in ids <==> i in t.sessions && Live(t.sessions[i], c.event.oldHash, c.audience, c.now) {
      RotatableMeans(t, c, i);
    }
    forall i, j | i in ids && j in ids ensures i == j {
      HashIsUnique(t, i, j);
    }
    if ids != {} {
      var i :| i in ids;
      assert ids == {i};
    }
  }

  lemma RotateErrors(t: Tables, c: Call)
    requires Integrity(t) && c.event.Rotate?
    ensures var e := c.event;
            && (Refusal(t, c) == Some(InvalidRefreshToken) <==>
                  forall i | i in t.sessions && t.sessions[i].refreshHash == e.oldHash
                             && t.sessions[i].audience == c.audience ::
                    t.sessions[i].revokedAt != None || t.sessions[i].expiresAt <= c.now)
            && (Refusal(t, c) == Some(AccountDisabled) <==>
                  && (e.newHash == e.oldHash || forall i | i in t.sessions :: t.sessions[i].refreshHash != e.newHash)
                  && exists i :: && i in t.sessions
                                 && t.sessions[i].refreshHash == e.oldHash && t.sessions[i].audience == c.audience
                                 && t.sessions[i].revokedAt == None && t.sessions[i].expiresAt > c.now
                                 && t.accounts[t.identities[t.sessions[i].identity].subject].status != 1)
            && (Refusal(t, c).Some? ==> Next(t, c) == t)
  {
    var ids := Rotatable(t, c.audience, c.now, c.event.oldHash);
    forall i ensures i in ids <==> i in t.sessions && Live(t.sessions[i], c.event.oldHash, c.audience, c.now) {
      RotatableMeans(t, c, i);
    }
    if ids != {} {
      var i :| i in ids;
    }
  }

  /** A rotation gives exactly the one live session the new hash and expiry. */
  lemma RotateWrites(t: Tables, c: Call, i: string)
    requires Integrity(t) && c.event.Rotate? && Refusal(t, c).None? && i in t.sessions
    ensures var e, u := c.event, Next(t, c);
            && u == t.(sessions := u.sessions) && u.sessions.Keys == t.sessions.Keys
            && u.sessions[i] ==
               if t.sessions[i].refreshHash == e.oldHash
               then t.sessions[i].(refreshHash := e.newHash, expiresAt := e.expiresAt) else t.sessions[i]
  {
    var ids := Rotatable(t, c.audience, c.now, c.event.oldHash);
    var live :| live in ids;
    if t.sessions[i].refreshHash == c.event.oldHash {
      HashIsUnique(t, i, live);
    }
  }

  /** Over any run in clock order a session whose expiry has passed keeps its hash and expiry for good. */
  lemma {:induction false} ExpiredStaysExpired(t0: Tables, calls: seq<Call>, i: nat, j: nat, id: string)
    requires Integrity(t0) && InClockOrder(calls) && i < |calls| && i <= j <= |calls|
    requires id in At(t0, calls, i).sessions && At(t0, calls, i).sessions[id].expiresAt <= calls[i].now
    ensures var u, s := At(t0, calls, j), At(t0, calls, i).sessions[id];
            id in u.sessions && u.sessions[id].refreshHash == s.refreshHash && u.sessions[id].expiresAt == s.expiresAt
    decreases j
  {
    if i < j {
      ExpiredStaysExpired(t0, calls, i, j - 1, id);
      RunKeepsIntegrity(t0, calls, j - 1);
      assert calls[i].now <= calls[j - 1].now;
      ExpiredKeepsHash(At(t0, calls, j - 1), calls[j - 1], id);
    }
  }

  lemma ExpiredKeepsHash(t: Tables, c: Call, id: string)
    requires Integrity(t) && id in t.sessions && t.sessions[id].expiresAt <= c.now
    ensures var u := Next(t, c);
            && id in u.sessions && u.sessions[id].refreshHash == t.sessions[id].refreshHash
            && u.sessions[id].expiresAt == t.sessions[id].expiresAt
  {
    if Refusal(t, c).None? {
      if c.event.Login? {
        LoginSessions(t, c);
        LoginSucceedsIff(t, c);
      } else if c.event.Replace? || c.event.Bootstrap? {
        RoleEffectKeepsSessions(t, c);
      } else {
        ExpiredNotTouched(t, c, id);
      }
    }
  }

  lemma ExpiredNotTouched(t: Tables, c: Call, id: string)
    requires id in t.sessions && t.sessions[id].expiresAt <= c.now
    requires c.event.Rotate? || c.event.Revoke? || c.event.RevokeId?
    ensures var u := Effect(t, c);
            && id in u.sessions && u.sessions[id].refreshHash == t.sessions[id].refreshHash
            && u.sessions[id].expiresAt == t.sessions[id].expiresAt
  {
  }

  /** What a login or a rotation issues its token for. */
  lemma PrincipalOnFields(t: Tables, key: IdentityKey, audience: string, role: string)
    requires Integrity(t) && key in t.identities
    ensures var p, i := PrincipalOf(t, key, audience), t.identities[key];
            && p.subject == i.subject && p.key == key && p.email == i.email && p.emailVerified == i.emailVerified
            && p.displayName == t.accounts[i.subject].displayName && p.avatarUrl == t.accounts[i.subject].avatarUrl
            && StrictlySorted(p.roles) && (role in p.roles <==> Binding(i.subject, audience, role) in t.bindings)
  {
    RolesAndRows(t, t.identities[key].subject, audience, role);
  }

  // ---------- revocation and access ----------

  lemma RevokeOnFields(t: Tables, c: Call)
    requires Integrity(t) && c.event.Revoke?
    ensures Refusal(t, c) == (if exists i :: && i in t.sessions && t.sessions[i].refreshHash == c.event.hash
                                             && t.sessions[i].audience == c.audience && t.sessions[i].revokedAt == None
                              then None else Some(InvalidRefreshToken))
  {
    var ids := Revocable(t, c.audience, c.event.hash);
    forall i
      ensures i in ids <==> && i in t.sessions && t.sessions[i].refreshHash == c.event.hash
                            && t.sessions[i].audience == c.audience && t.sessions[i].revokedAt == None
    {
      assert i in ids <==> i in t.sessions && Selects(t.sessions[i], c.event.hash, c.audience);
    }
    if ids != {} {
      var i :| i in ids;
    }
  }

  lemma RevokeIdOnFields(t: Tables, c: Call)
    requires Integrity(t) && c.event.RevokeId?
    ensures var id := c.event.id;
            Refusal(t, c) == if id in t.sessions && t.sessions[id].audience == c.audience
                                && t.sessions[id].revokedAt == None
                                && t.identities[t.sessions[id].identity].subject == c.event.subject
                             then None else Some(SessionNotFound)
  {
  }

  /** Access is granted exactly to a live session of this audience and subject under an enabled account. */
  lemma AccessOnFields(t: Tables, audience: string, now: int, subject: string, id: string)
    requires Integrity(t)
    ensures var ours := id in t.sessions && t.sessions[id].audience == audience && t.sessions[id].revokedAt == None
                        && t.sessions[id].expiresAt > now && t.identities[t.sessions[id].identity].subject == subject;
            && (AccessRefusal(t, audience, now, subject, id) == None <==> ours && t.accounts[subject].status == 1)
            && (AccessRefusal(t, audience, now, subject, id) == Some(AccountDisabled) <==>
                  ours && t.accounts[subject].status != 1)
            && (AccessRefusal(t, audience, now, subject, id) == Some(SessionInactive) <==> !ours)
  {
  }

  // ---------- roles ----------

  /** A replacement is accepted exactly for valid fields, the current revision, and when an enabled admin remains. */
  lemma ReplaceSucceedsIff(t: Tables, c: Call)
    requires Integrity(t) && c.event.Replace?
    ensures var e := c.event;
            Refusal(t, c).None? <==>
              && 0 < |e.subject| <= 32 && 0 < |e.actor| <= 128 && e.revision > 0 && |e.roles| <= 32
              && (forall r | r in e.roles :: ValidRole(r))
              && e.subject in t.accounts && StoredRevision(t, c.audience) == e.revision
              && (|| t.accounts[e.subject].status != 1
                  || Binding(e.subject, c.audience, "admin") !in t.bindings
                  || "admin" in e.roles
                  || exists s :: && s != e.subject && Binding(s, c.audience, "admin") in t.bindings
                                 && t.accounts[s].status == 1)
              && AuditFree(t, c.audience)
  {
    AuditFreeMeans(t, c.audience);
    RolesGiven(c.event);
    assert OtherAdmin(t, c.audience, c.event.subject) <==>
           exists s :: && s != c.event.subject && Binding(s, c.audience, "admin") in t.bindings
                       && t.accounts[s].status == 1;
  }

  lemma RolesGiven(e: Event)
    requires e.Replace?
    ensures forall r :: r in Assigned(e).roles <==> r in e.roles
    ensures Distinct(Assigned(e).roles)
    ensures (forall r | r in e.roles :: ValidRole(r)) <==> forall i | 0 <= i < |e.roles| :: ValidRole(e.roles[i])
  {
    assert forall r :: r in Elements(e.roles) <==> r in e.roles;
  }

  lemma ReplaceErrors(t: Tables, c: Call)
    requires Integrity(t) && c.event.Replace? && Refusal(t, c) != Some(InvalidRoleAssignment)
    ensures var e := c.event;
            && (Refusal(t, c) == Some(AccountNotFound) <==> e.subject !in t.accounts)
            && (Refusal(t, c) == Some(RoleRevisionConflict) <==>
                  e.subject in t.accounts && StoredRevision(t, c.audience) != e.revision)
            && (Refusal(t, c) == Some(LastAdmin) <==>
                  && e.subject in t.accounts && StoredRevision(t, c.audience) == e.revision
                  && t.accounts[e.subject].status == 1 && Binding(e.subject, c.audience, "admin") in t.bindings
                  && "admin" !in e.roles
                  && forall s | s != e.subject && Binding(s, c.audience, "admin") in t.bindings ::
                       t.accounts[s].status != 1)
            && (Refusal(t, c).Some? ==> Next(t, c) == t)
  {
    AuditFreeMeans(t, c.audience);
    RolesGiven(c.event);
  }

  /** The rows a replacement writes. */
  lemma ReplaceWrites(t: Tables, c: Call, s: string, a: string, r: string)
    requires Integrity(t) && c.event.Replace? && Refusal(t, c).None?
    ensures var e, u := c.event, Next(t, c);
            && (Binding(s, a, r) in u.bindings <==>
                if s == e.subject && a == c.audience then r in e.roles else Binding(s, a, r) in t.bindings)
            && u.audiences == t.audiences + {(e.subject, c.audience)}
            && u.states == t.states[c.audience :=
                                      RoleState(e.revision + 1,
                                                c.audience in t.states && t.states[c.audience].adminInitialized)]
            && u == t.(bindings := u.bindings, audiences := u.audiences, states := u.states, audits := u.audits)
            && |u.audits| == |t.audits| + 1 && t.audits <= u.audits
            && var row := u.audits[|t.audits|];
               row.audience == c.audience && row.subject == e.subject && row.actor == e.actor && row.action == RolesReplace
               && row.revision == e.revision + 1 && (r in row.after <==> r in e.roles)
               && (r in row.before <==> Binding(e.subject, c.audience, r) in t.bindings)
  {
    AuditFreeMeans(t, c.audience);
    RolesGiven(c.event);
    ReplaceHitsItsTarget(t, c, s, a);
    RolesAndRows(t, s, a, r);
    RolesAndRows(Next(t, c), s, a, r);
    RolesAndRows(t, c.event.subject, c.audience, r);
  }

  /** A bootstrap is accepted exactly for an enabled account of an audience that has and had no admin. */
  lemma BootstrapSucceedsIff(t: Tables, c: Call)
    requires Integrity(t) && c.event.Bootstrap?
    ensures var e := c.event;
            Refusal(t, c).None? <==>
              && 0 < |e.subject| <= 32 && 0 < |e.actor| <= 128
              && e.subject in t.accounts && t.accounts[e.subject].status == 1
              && !(c.audience in t.states && t.states[c.audience].adminInitialized)
              && (forall s :: Binding(s, c.audience, "admin") !in t.bindings)
              && AuditFree(t, c.audience)
  {
    AuditFreeMeans(t, c.audience);
    AdminIsARole();
  }

  lemma AdminIsARole()
    ensures forall i | 0 <= i < |[ADMIN]| :: ValidRole([ADMIN][i])
  {
    assert [ADMIN][0] == ADMIN && IsLetter(ADMIN[0]);
    assert forall i | 0 <= i < |ADMIN| :: RoleByte(ADMIN[i]);
  }

  lemma BootstrapErrors(t: Tables, c: Call)
    requires Integrity(t) && c.event.Bootstrap? && Refusal(t, c) != Some(InvalidRoleAssignment)
    ensures var e := c.event;
            && (Refusal(t, c) == Some(AccountNotFound) <==> e.subject !in t.accounts)
            && (Refusal(t, c) == Some(AccountDisabled) <==>
                  e.subject in t.accounts && t.accounts[e.subject].status != 1)
            && (Refusal(t, c) == Some(AdminAlreadyInitialized) <==>
                  && e.subject in t.accounts && t.accounts[e.subject].status == 1
                  && ((c.audience in t.states && t.states[c.audience].adminInitialized)
                      || exists s :: Binding(s, c.audience, "admin") in t.bindings))
            && (Refusal(t, c).Some? ==> Next(t, c) == t)
  {
    AuditFreeMeans(t, c.audience);
  }

  /** The rows a bootstrap writes. */
  lemma BootstrapWrites(t: Tables, c: Call, s: string, a: string, r: string)
    requires Integrity(t) && c.event.Bootstrap? && Refusal(t, c).None?
    ensures var e, u := c.event, Next(t, c);
            && (Binding(s, a, r) in u.bindings <==>
                Binding(s, a, r) in t.bindings || (s == e.subject && a == c.audience && r == "admin"))
            && u.audiences == t.audiences + {(e.subject, c.audience)}
            && u.states == t.states[c.audience := RoleState(StoredRevision(t, c.audience) + 1, true)]
            && u == t.(bindings := u.bindings, audiences := u.audiences, states := u.states, audits := u.audits)
            && |u.audits| == |t.audits| + 1 && t.audits <= u.audits
            && var row := u.audits[|t.audits|];
               row.audience == c.audience && row.subject == e.subject && row.actor == e.actor
               && row.action == AdminBootstrap
               && row.revision == StoredRevision(t, c.audience) + 1
               && (r in row.after <==> r == "admin" || Binding(e.subject, c.audience, r) in t.bindings)
               && (r in row.before <==> Binding(e.subject, c.audience, r) in t.bindings)
  {
    AuditFreeMeans(t, c.audience);
    var e := c.event;
    var after := Listing(RolesOf(t.bindings, e.subject, c.audience) + {ADMIN});
    RolesAfterChange(t, c.audience, e.subject, e.actor, AdminBootstrap, after, true, s, a);
    RolesAndRows(t, s, a, r);
    RolesAndRows(Next(t, c), s, a, r);
    RolesAndRows(t, e.subject, c.audience, r);
  }
}
