/** What the account services promise over every run, from any well-formed tables. */
module AuthGuarantees {
  import opened Wrappers
  import opened Text
  import opened AuthTables
  import opened Accounts
  import opened Sessions
  import opened AuthRuns

  // ---------- the audit ----------

  lemma {:induction false} CountOverSkipped(log: seq<RoleAudit>, audience: string, i: nat, j: nat)
    requires i < j <= |log| && log[i].audience == audience
    requires forall m | i < m < j :: log[m].audience != audience
    ensures CountFor(log[..j], audience) == CountFor(log[..i], audience) + 1
  {
    assert log[..j][..j - 1] == log[..j - 1];
    if j > i + 1 {
      CountOverSkipped(log, audience, i, j - 1);
    }
  }

  lemma {:induction false} LastAfterSkipped(start: seq<string>, log: seq<RoleAudit>, audience: string, subject: string,
                                            i: nat, j: nat)
    requires i < j <= |log| && Concerns(log[i], audience, subject)
    requires forall m | i < m < j :: !Concerns(log[m], audience, subject)
    ensures LastAfter(start, log[..j], audience, subject) == log[i].after
  {
    assert log[..j][..j - 1] == log[..j - 1];
    if j > i + 1 {
      LastAfterSkipped(start, log, audience, subject, i, j - 1);
    }
  }

  lemma {:induction false} NothingBefore(start: seq<string>, log: seq<RoleAudit>, audience: string, subject: string)
    ensures (forall m | 0 <= m < |log| :: log[m].audience != audience) ==> CountFor(log, audience) == 0
    ensures (forall m | 0 <= m < |log| :: !Concerns(log[m], audience, subject)) ==>
              LastAfter(start, log, audience, subject) == start
  {
    if log != [] {
      NothingBefore(start, log[..|log| - 1], audience, subject);
    }
  }

  /** Neighbouring new rows of an audience carry neighbouring revisions, and the last one is the current revision. */
  lemma RevisionsAreConsecutive(base: Tables, t: Tables, i: nat, j: nat, audience: string)
    requires RoleHistory(base, t) && i < j <= |NewRows(base, t)| && NewRows(base, t)[i].audience == audience
    requires forall m | i < m < j :: NewRows(base, t)[m].audience != audience
    ensures var log := NewRows(base, t);
            && (j < |log| && log[j].audience == audience ==> log[j].revision == log[i].revision + 1)
            && (j == |log| ==> StateOf(t, audience).revision == log[i].revision)
  {
    var log := NewRows(base, t);
    CountOverSkipped(log, audience, i, j);
    RowOfLinkedLog(base, log, i);
    if j == |log| {
      assert log[..j] == log;
    } else {
      RowOfLinkedLog(base, log, j);
    }
  }

  /** Each row of a pair starts where the one before ended, and the last one ends at the current roles. */
  lemma EntriesAreChained(base: Tables, t: Tables, i: nat, j: nat, audience: string, subject: string)
    requires RoleHistory(base, t) && i < j <= |NewRows(base, t)| && Concerns(NewRows(base, t)[i], audience, subject)
    requires forall m | i < m < j :: !Concerns(NewRows(base, t)[m], audience, subject)
    ensures var log := NewRows(base, t);
            && (j < |log| && Concerns(log[j], audience, subject) ==>
                  log[j].before == log[i].after && !log[j].action.AudienceJoin?)
            && (j == |log| ==> RoleList(t, subject, audience) == log[i].after)
  {
    var log := NewRows(base, t);
    LastAfterSkipped(RoleList(base, subject, audience), log, audience, subject, i, j);
    if j == |log| {
      assert log[..j] == log;
    } else {
      RowOfLinkedLog(base, log, j);
    }
  }

  /** The chains start where the tables started: at the revision after theirs, and at the roles stored there. */
  lemma ChainsStartAtTheBase(base: Tables, t: Tables, j: nat, audience: string, subject: string)
    requires RoleHistory(base, t) && j <= |NewRows(base, t)|
    ensures var log := NewRows(base, t);
            && (j < |log| && log[j].audience == audience && (forall m | 0 <= m < j :: log[m].audience != audience) ==>
                  log[j].revision == StateOf(base, audience).revision + 1)
            && (j < |log| && Concerns(log[j], audience, subject)
                && (forall m | 0 <= m < j :: !Concerns(log[m], audience, subject)) ==>
                  log[j].before == RoleList(base, subject, audience))
            && ((forall m | 0 <= m < |log| :: !Concerns(log[m], audience, subject)) ==>
                  RoleList(t, subject, audience) == RoleList(base, subject, audience))
  {
    var log := NewRows(base, t);
    NothingBefore(RoleList(base, subject, audience), log[..j], audience, subject);
    NothingBefore(RoleList(base, subject, audience), log, audience, subject);
    assert forall m | 0 <= m < j :: log[..j][m] == log[m];
    if j < |log| {
      RowOfLinkedLog(base, log, j);
    }
  }

  /** A pair joins at most once and before anything else, so the default role is given at most once. */
  lemma JoinsAtMostOnce(base: Tables, t: Tables, i: nat, j: nat)
    requires RoleHistory(base, t) && i < j < |NewRows(base, t)| && NewRows(base, t)[j].action.AudienceJoin?
    ensures var log := NewRows(base, t);
            && !Concerns(log[i], log[j].audience, log[j].subject)
            && (log[j].subject, log[j].audience) !in base.audiences
  {
    RowOfLinkedLog(base, NewRows(base, t), j);
  }

  /** No audit row is ahead of its audience's revision. */
  ghost predicate RevisionsBounded(t: Tables) {
    forall a | a in t.audits :: a.revision <= StateOf(t, a.audience).revision
  }

  /** The unique key of the audit never refuses a role change, if no row is ahead at the start. */
  lemma AuditKeyNeverClashes(t0: Tables, calls: seq<Call>, i: nat, audience: string)
    requires RevisionsBounded(t0) && i <= |calls|
    ensures RevisionsBounded(At(t0, calls, i)) && !AuditTaken(At(t0, calls, i), audience)
  {
    RunKeepsHistory(t0, calls, i);
    var t := At(t0, calls, i);
    var log := NewRows(t0, t);
    forall a | a in t.audits ensures a.revision <= StateOf(t, a.audience).revision {
      if a in t0.audits {
        assert a.revision <= StateOf(t0, a.audience).revision;
      } else {
        var m :| 0 <= m < |log| && log[m] == a;
        NewRowIsBounded(t0, t, m);
      }
    }
  }

  lemma NewRowIsBounded(base: Tables, t: Tables, m: nat)
    requires RoleHistory(base, t) && m < |NewRows(base, t)|
    ensures var a := NewRows(base, t)[m]; a.revision <= StateOf(t, a.audience).revision
  {
    var log := NewRows(base, t);
    RowOfLinkedLog(base, log, m);
    CountGrows(log, m + 1, |log|, log[m].audience);
    assert log[..m + 1][..m] == log[..m] && log[..|log|] == log;
  }

  lemma {:induction false} CountGrows(log: seq<RoleAudit>, i: nat, j: nat, audience: string)
    requires i <= j <= |log|
    ensures CountFor(log[..i], audience) <= CountFor(log[..j], audience)
  {
    if i < j {
      assert log[..j][..j - 1] == log[..j - 1];
      CountGrows(log, i, j - 1, audience);
    }
  }

  // ---------- sessions and credentials across one call ----------

  lemma LoginSessions(t: Tables, c: Call)
    requires c.event.Login?
    ensures var e := c.event;
            Effect(t, c).sessions ==
            t.sessions[e.session.id :=
                         Session(e.ext.key, c.audience, e.session.refreshHash, c.now, e.session.expiresAt, None)]
    ensures Effect(t, c).used == Purged(t.used, c.now)[c.event.ext.credentialHash := c.event.ext.expiresAt]
  {
  }

  lemma RoleEffectKeepsSessions(t: Tables, c: Call)
    requires c.event.Replace? || c.event.Bootstrap?
    ensures Effect(t, c).sessions == t.sessions && Effect(t, c).used == t.used
  {
  }

  // ---------- ownership ----------

  /** An external identity belongs to its first account for good. */
  lemma OwnershipIsForever(t0: Tables, calls: seq<Call>, i: nat, j: nat, key: IdentityKey)
    requires Integrity(t0) && i <= j <= |calls| && key in At(t0, calls, i).identities
    ensures key in At(t0, calls, j).identities
    ensures Subject(At(t0, calls, j), key) == Subject(At(t0, calls, i), key)
  {
    RunGrows(t0, calls, i, j);
  }

  /** Unused candidates are removed: no run leaves an account without an identity. */
  lemma {:induction false} NoOrphansInAnyRun(t0: Tables, calls: seq<Call>, i: nat)
    requires Integrity(t0) && NoOrphans(t0) && i <= |calls|
    ensures NoOrphans(At(t0, calls, i))
    decreases i
  {
    if i > 0 {
      NoOrphansInAnyRun(t0, calls, i - 1);
      RunKeepsIntegrity(t0, calls, i - 1);
      NextKeepsNoOrphans(At(t0, calls, i - 1), calls[i - 1]);
    }
  }

  /** Taking a refused call out of a run changes no later state: it left no trace in any table. */
  lemma {:induction false} RefusedCallLeavesNoTrace(t0: Tables, calls: seq<Call>, i: nat, j: nat)
    requires i < j <= |calls| && !Succeeds(t0, calls, i)
    ensures At(t0, calls, j) == At(t0, calls[..i] + calls[i + 1..], j - 1)
    decreases j
  {
    var rest := calls[..i] + calls[i + 1..];
    if j == i + 1 {
      SamePrefix(t0, calls, rest, i);
    } else {
      RefusedCallLeavesNoTrace(t0, calls, i, j - 1);
      assert rest[j - 2] == calls[j - 1];
      SameStep(t0, calls, j - 1, rest, j - 2);
    }
  }

  lemma SameStep(t0: Tables, calls: seq<Call>, i: nat, others: seq<Call>, k: nat)
    requires i < |calls| && k < |others| && calls[i] == others[k] && At(t0, calls, i) == At(t0, others, k)
    ensures At(t0, calls, i + 1) == At(t0, others, k + 1)
  {
  }

  lemma {:induction false} SamePrefix(t0: Tables, calls: seq<Call>, others: seq<Call>, i: nat)
    requires i <= |calls| && i <= |others| && calls[..i] == others[..i]
    ensures At(t0, calls, i) == At(t0, others, i)
    decreases i
  {
    if i > 0 {
      assert calls[..i][..i - 1] == calls[..i - 1] && others[..i][..i - 1] == others[..i - 1];
      assert calls[i - 1] == calls[..i][i - 1] == others[..i][i - 1] == others[i - 1];
      SamePrefix(t0, calls, others, i - 1);
    }
  }

  /** A login or rotation whose signing failed succeeds when repeated, credential and refresh token included. */
  lemma FailedSigningCanBeRepeated(t: Tables, c: Call)
    requires Integrity(t) && (c.event.Login? || c.event.Rotate?)
    ensures Refusal(t, c) == Some(SigningFailed) <==>
            !c.event.signs && Refusal(Next(t, c), c.(event := c.event.(signs := true))).None?
  {
  }

  // ---------- administrators ----------

  /** An audience that has an enabled admin keeps one. */
  lemma AdminSurvives(t0: Tables, calls: seq<Call>, i: nat, j: nat, audience: string)
    requires Integrity(t0) && i <= j <= |calls| && HasEnabledAdmin(At(t0, calls, i), audience)
    ensures HasEnabledAdmin(At(t0, calls, j), audience)
  {
    RunGrows(t0, calls, i, j);
  }

  lemma BootstrapSucceedsOnce(t0: Tables, calls: seq<Call>, i: nat, j: nat)
    requires Integrity(t0) && i < j < |calls|
    requires calls[i].event.Bootstrap? && calls[j].event.Bootstrap? && calls[i].audience == calls[j].audience
    requires Succeeds(t0, calls, i)
    ensures HasEnabledAdmin(At(t0, calls, i + 1), calls[i].audience)
    ensures !Succeeds(t0, calls, j)
  {
    var t := At(t0, calls, i);
    var e := calls[i].event;
    BootstrapMakesAnAdmin(t, calls[i].audience, e.subject, e.actor, calls[i].audience);
    RunGrows(t0, calls, i + 1, j);
    assert StateOf(At(t0, calls, i + 1), calls[i].audience).adminInitialized;
  }

  /**
    A replacement takes effect only under the revision it names, leaves exactly the given roles to its
    subject, touches no other pair, and raises that audience's revision alone.
   */
  lemma ReplaceHitsItsTarget(t: Tables, c: Call, s: string, a: string)
    requires c.event.Replace? && Refusal(t, c).None?
    ensures StateOf(t, c.audience).revision == c.event.revision
    ensures StateOf(Next(t, c), a).revision == StateOf(t, a).revision + (if a == c.audience then 1 else 0)
    ensures RolesOf(Next(t, c).bindings, s, a) ==
            if s == c.event.subject && a == c.audience then Elements(c.event.roles) else RolesOf(t.bindings, s, a)
  {
    var x := Assigned(c.event);
    RolesAfterChange(t, c.audience, x.subject, x.actor, RolesReplace, x.roles,
                     StateOf(t, c.audience).adminInitialized, s, a);
    assert Elements(x.roles) == Elements(c.event.roles);
  }

  /** Of two replacements in one audience that both succeed the later named a later revision. */
  lemma RevisionIsTakenOnce(t0: Tables, calls: seq<Call>, i: nat, j: nat)
    requires Integrity(t0) && i < j < |calls|
    requires calls[i].event.Replace? && calls[j].event.Replace? && calls[i].audience == calls[j].audience
    requires Succeeds(t0, calls, i) && Succeeds(t0, calls, j)
    ensures calls[i].event.revision < calls[j].event.revision
  {
    var a := calls[i].audience;
    ReplaceHitsItsTarget(At(t0, calls, i), calls[i], "", a);
    ReplaceHitsItsTarget(At(t0, calls, j), calls[j], "", a);
    RunGrows(t0, calls, i + 1, j);
    assert StateOf(At(t0, calls, i + 1), a).revision <= StateOf(At(t0, calls, j), a).revision;
  }

  // ---------- initialised pairs ----------

  /** The first entry into an audience gives the default role to a subject without roles. */
  lemma FirstEntryGivesDefault(t: Tables, c: Call)
    requires c.event.Login? && Refusal(t, c).None?
    requires (Owner(t, c.event.ext.key, c.event.candidate), c.audience) !in t.audiences
    ensures var owner := Owner(t, c.event.ext.key, c.event.candidate);
            var roles := RolesOf(t.bindings, owner, c.audience);
            && (owner, c.audience) in Next(t, c).audiences
            && RolesOf(Next(t, c).bindings, owner, c.audience) == if roles == {} then {DEFAULT_ROLE} else roles
  {
    var t1 := Identified(t, c.now, c.event.ext, c.event.candidate);
    var owner := Owner(t, c.event.ext.key, c.event.candidate);
    var before := RoleList(t1, owner, c.audience);
    RolesAfterChange(t1, c.audience, owner, owner, AudienceJoin, InitialAudienceRoles(before),
                     StateOf(t1, c.audience).adminInitialized, owner, c.audience);
    assert Elements(before) == RolesOf(t.bindings, owner, c.audience);
    assert before == [] <==> RolesOf(t.bindings, owner, c.audience) == {} by {
      assert before != [] ==> before[0] in Elements(before);
    }
    assert Elements([DEFAULT_ROLE]) == {DEFAULT_ROLE};
  }

  /** A login leaves the roles of every initialised pair, and of every pair that is not its own, as they were. */
  lemma LoginKeepsSettledRoles(t: Tables, c: Call, s: string, a: string)
    requires c.event.Login?
    requires (s, a) in t.audiences || s != Owner(t, c.event.ext.key, c.event.candidate) || a != c.audience
    ensures RolesOf(Next(t, c).bindings, s, a) == RolesOf(t.bindings, s, a)
  {
    var t1 := Identified(t, c.now, c.event.ext, c.event.candidate);
    var owner := Owner(t, c.event.ext.key, c.event.candidate);
    if (owner, c.audience) !in t.audiences {
      RolesAfterChange(t1, c.audience, owner, owner, AudienceJoin, InitialAudienceRoles(RoleList(t1, owner, c.audience)),
                       StateOf(t1, c.audience).adminInitialized, s, a);
    }
  }

  predicate Administers(c: Call, s: string, a: string) {
    (c.event.Replace? || c.event.Bootstrap?) && c.event.subject == s && c.audience == a
  }

  lemma OtherCallsKeepRoles(t: Tables, c: Call, s: string, a: string)
    requires (s, a) in t.audiences && (Administers(c, s, a) ==> Refusal(t, c).Some?)
    ensures RolesOf(Next(t, c).bindings, s, a) == RolesOf(t.bindings, s, a)
  {
    if Refusal(t, c).None? {
      match c.event
      case Login(_, _, _, _) => LoginKeepsSettledRoles(t, c, s, a);
      case Rotate(_, _, _, _) =>
      case Revoke(_) =>
      case RevokeId(_, _) =>
      case Replace(_, _, _, _) => ReplaceHitsItsTarget(t, c, s, a);
      case Bootstrap(subject, actor) =>
        RolesAfterChange(t, c.audience, subject, actor, AdminBootstrap,
                         Listing(RolesOf(t.bindings, subject, c.audience) + {ADMIN}), true, s, a);
    }
  }

  /** Once a pair is initialised only an administrator changes its roles: an empty set stays empty. */
  lemma {:induction false} SettledRolesStay(t0: Tables, calls: seq<Call>, i: nat, j: nat, s: string, a: string)
    requires Integrity(t0) && i <= j <= |calls| && (s, a) in At(t0, calls, i).audiences
    requires forall m | i <= m < j && Administers(calls[m], s, a) :: !Succeeds(t0, calls, m)
    ensures (s, a) in At(t0, calls, j).audiences
    ensures RolesOf(At(t0, calls, j).bindings, s, a) == RolesOf(At(t0, calls, i).bindings, s, a)
    decreases j
  {
    if i < j {
      SettledRolesStay(t0, calls, i, j - 1, s, a);
      OtherCallsKeepRoles(At(t0, calls, j - 1), calls[j - 1], s, a);
      RunGrows(t0, calls, i, j);
    }
  }

  // ---------- credentials ----------

  /** Steps take effect in clock order. */
  predicate InClockOrder(calls: seq<Call>) {
    forall i, j | 0 <= i < j < |calls| :: calls[i].now <= calls[j].now
  }

  ghost predicate LogsIn(t0: Tables, calls: seq<Call>, i: nat, hash: string)
    requires i < |calls|
  {
    calls[i].event.Login? && calls[i].event.ext.credentialHash == hash && Succeeds(t0, calls, i)
  }

  lemma UsedAfter(t: Tables, c: Call)
    ensures Next(t, c).used ==
            if c.event.Login? && Refusal(t, c).None?
            then Purged(t.used, c.now)[c.event.ext.credentialHash := c.event.ext.expiresAt] else t.used
  {
    if c.event.Login? {
      LoginSessions(t, c);
    } else if c.event.Replace? || c.event.Bootstrap? {
      RoleEffectKeepsSessions(t, c);
    }
  }

  /** Until its expiry the record of a used credential survives every purge. */
  lemma {:induction false} RecordOutlivesPurges(t0: Tables, calls: seq<Call>, i: nat, j: nat, hash: string)
    requires InClockOrder(calls) && i < j <= |calls| && LogsIn(t0, calls, i, hash)
    requires calls[i].event.ext.expiresAt > calls[j - 1].now
    ensures hash in At(t0, calls, j).used && At(t0, calls, j).used[hash] == calls[i].event.ext.expiresAt
    decreases j
  {
    UsedAfter(At(t0, calls, j - 1), calls[j - 1]);
    if i < j - 1 {
      RecordOutlivesPurges(t0, calls, i, j - 1, hash);
    }
  }

  /** A credential logs in once: while the first login's expiry has not passed, and forever with that same expiry. */
  lemma CredentialWorksOnce(t0: Tables, calls: seq<Call>, i: nat, j: nat, hash: string)
    requires InClockOrder(calls) && i < j < |calls| && LogsIn(t0, calls, i, hash)
    requires calls[j].event.Login? && calls[j].event.ext.credentialHash == hash
    ensures calls[i].event.ext.expiresAt > calls[j].now ==> !Succeeds(t0, calls, j)
    ensures calls[i].event.ext.expiresAt == calls[j].event.ext.expiresAt ==> !Succeeds(t0, calls, j)
  {
    if calls[i].event.ext.expiresAt > calls[j].now {
      RecordOutlivesPurges(t0, calls, i, j, hash);
    }
  }

  /** The record blocks exactly until that expiry, as long as nobody logged in with the hash again. */
  lemma {:induction false} RecordBlocksUntilExpiry(t0: Tables, calls: seq<Call>, i: nat, j: nat, hash: string, now: int)
    requires InClockOrder(calls) && i < j <= |calls| && LogsIn(t0, calls, i, hash) && calls[j - 1].now <= now
    requires forall m | i < m < j :: !LogsIn(t0, calls, m, hash)
    ensures hash in Purged(At(t0, calls, j).used, now) <==> calls[i].event.ext.expiresAt > now
    decreases j
  {
    if calls[i].event.ext.expiresAt > now {
      RecordOutlivesPurges(t0, calls, i, j, hash);
    } else {
      RecordKeepsExpiry(t0, calls, i, j, hash);
    }
  }

  lemma {:induction false} RecordKeepsExpiry(t0: Tables, calls: seq<Call>, i: nat, j: nat, hash: string)
    requires i < j <= |calls| && LogsIn(t0, calls, i, hash)
    requires forall m | i < m < j :: !LogsIn(t0, calls, m, hash)
    ensures hash in At(t0, calls, j).used ==> At(t0, calls, j).used[hash] == calls[i].event.ext.expiresAt
    decreases j
  {
    UsedAfter(At(t0, calls, j - 1), calls[j - 1]);
    if i < j - 1 {
      RecordKeepsExpiry(t0, calls, i, j - 1, hash);
      assert !LogsIn(t0, calls, j - 1, hash);
    }
  }

  // ---------- refresh hashes ----------

  /** The refresh hash a call would introduce. */
  function NewHash(e: Event): Option<string> {
    match e
    case Login(_, _, session, _) => Some(session.refreshHash)
    case Rotate(_, newHash, _, _) => Some(newHash)
    case _ => None
  }

  /** Generated hashes are never reused: none was in use in any state so far. */
  ghost predicate FreshHashes(t0: Tables, calls: seq<Call>) {
    forall i, m | 0 <= m <= i < |calls| && NewHash(calls[i].event).Some? ::
      !HashInUse(At(t0, calls, m), NewHash(calls[i].event).value)
  }

  lemma SessionEffectHashes(t: Tables, c: Call, i: string)
    requires c.event.Rotate? || c.event.Revoke? || c.event.RevokeId?
    requires i in Effect(t, c).sessions
    ensures var hash := Effect(t, c).sessions[i].refreshHash;
            NewHash(c.event) == Some(hash) || (i in t.sessions && t.sessions[i].refreshHash == hash)
  {
  }

  lemma EffectHashes(t: Tables, c: Call, i: string)
    requires i in Effect(t, c).sessions
    ensures var hash := Effect(t, c).sessions[i].refreshHash;
            NewHash(c.event) == Some(hash) || (i in t.sessions && t.sessions[i].refreshHash == hash)
  {
    if c.event.Login? {
      LoginSessions(t, c);
    } else if c.event.Replace? || c.event.Bootstrap? {
      RoleEffectKeepsSessions(t, c);
    } else {
      SessionEffectHashes(t, c, i);
    }
  }

  lemma HashesComeFromCalls(t: Tables, c: Call, hash: string)
    requires HashInUse(Next(t, c), hash)
    ensures HashInUse(t, hash) || NewHash(c.event) == Some(hash)
  {
    if Refusal(t, c).None? {
      var u := Effect(t, c);
      var i :| i in u.sessions && u.sessions[i].refreshHash == hash;
      EffectHashes(t, c, i);
    }
  }

  lemma RotationSpendsHash(t: Tables, c: Call)
    requires Integrity(t) && c.event.Rotate? && Refusal(t, c).None? && !HashInUse(t, c.event.newHash)
    ensures HashInUse(t, c.event.oldHash) && !HashInUse(Next(t, c), c.event.oldHash)
    ensures HashInUse(Next(t, c), c.event.newHash)
  {
    var ids := Rotatable(t, c.audience, c.now, c.event.oldHash);
    var id :| id in ids;
    assert HashInUse(t, c.event.oldHash);
    assert Next(t, c).sessions[id].refreshHash == c.event.newHash;
    forall i | i in Next(t, c).sessions ensures Next(t, c).sessions[i].refreshHash != c.event.oldHash {
      if i != id {
        assert t.sessions[i].refreshHash != t.sessions[id].refreshHash;
      }
    }
  }

  lemma {:induction false} SpentHashStaysSpent(t0: Tables, calls: seq<Call>, i: nat, j: nat, hash: string)
    requires FreshHashes(t0, calls) && i < j <= |calls|
    requires HashInUse(At(t0, calls, i), hash) && !HashInUse(At(t0, calls, i + 1), hash)
    ensures !HashInUse(At(t0, calls, j), hash)
    decreases j
  {
    if i + 1 < j {
      SpentHashStaysSpent(t0, calls, i, j - 1, hash);
      if HashInUse(At(t0, calls, j), hash) {
        HashesComeFromCalls(At(t0, calls, j - 1), calls[j - 1], hash);
      }
    }
  }

  /** A refresh token rotates once; afterwards every service and audience rejects it, for rotation and revocation. */
  lemma RefreshHashRotatesOnce(t0: Tables, calls: seq<Call>, i: nat, j: nat)
    requires Integrity(t0) && FreshHashes(t0, calls) && i < j < |calls|
    requires calls[i].event.Rotate? && Succeeds(t0, calls, i)
    requires (calls[j].event.Rotate? && calls[j].event.oldHash == calls[i].event.oldHash)
          || (calls[j].event.Revoke? && calls[j].event.hash == calls[i].event.oldHash)
    ensures Refusal(At(t0, calls, j), calls[j]) == Some(InvalidRefreshToken)
  {
    var hash := calls[i].event.oldHash;
    RunKeepsIntegrity(t0, calls, i);
    RotationSpendsHash(At(t0, calls, i), calls[i]);
    SpentHashStaysSpent(t0, calls, i, j, hash);
    var t := At(t0, calls, j);
    assert forall id | id in t.sessions :: t.sessions[id].refreshHash != hash;
    assert Rotatable(t, calls[j].audience, calls[j].now, hash) == {};
    assert Revocable(t, calls[j].audience, hash) == {};
  }

  // ---------- revoked sessions ----------

  /** A successful revocation ends exactly the session it names. */
  lemma RevocationEndsTheSession(t: Tables, c: Call, id: string)
    requires Integrity(t) && (c.event.Revoke? || c.event.RevokeId?) && Refusal(t, c).None? && id in t.sessions
    ensures Next(t, c).sessions.Keys == t.sessions.Keys
    ensures var named := if c.event.Revoke? then t.sessions[id].refreshHash == c.event.hash else id == c.event.id;
            Next(t, c).sessions[id] == if named then t.sessions[id].(revokedAt := Some(c.now)) else t.sessions[id]
  {
    if c.event.Revoke? && t.sessions[id].refreshHash == c.event.hash {
      var other :| other in Revocable(t, c.audience, c.event.hash);
      HashIsUnique(t, id, other);
    }
  }

  /** A revoked session stays as it is: never rotated or revoked again, never owned, listed or accepted for access. */
  lemma RevokedForGood(t0: Tables, calls: seq<Call>, i: nat, j: nat, id: string,
                       audience: string, now: int, hash: string, subject: string)
    requires Integrity(t0) && i <= j <= |calls|
    requires id in At(t0, calls, i).sessions && At(t0, calls, i).sessions[id].revokedAt.Some?
    ensures var t := At(t0, calls, j);
            && id in t.sessions && t.sessions[id] == At(t0, calls, i).sessions[id]
            && id !in Rotatable(t, audience, now, hash) && id !in Revocable(t, audience, hash)
            && !OwnsSession(t, audience, subject, id)
            && AccessRefusal(t, audience, now, subject, id) == Some(SessionInactive)
  {
    RunGrows(t0, calls, i, j);
    assert SessionKept(At(t0, calls, i), At(t0, calls, j), id);
  }

  // ---------- services that read more than once ----------

  /** What the access check reads in three statements: the session, then its identity, then the account. */
  ghost function AccessByReads(t1: Tables, t2: Tables, t3: Tables, audience: string, now: int, subject: string, id: string)
    : Option<AuthError>
  {
    if id !in t1.sessions || t1.sessions[id].audience != audience then Some(SessionInactive)
    else
      var session := t1.sessions[id];
      if session.revokedAt.Some? || session.expiresAt <= now then Some(SessionInactive)
      else if session.identity !in t2.identities || t2.identities[session.identity].subject != subject
      then Some(SessionInactive)
      else if subject !in t3.accounts then Some(SessionInactive)
      else if t3.accounts[subject].status != ENABLED then Some(AccountDisabled)
      else None
  }

  /** Commits between the three reads change nothing: the answer is the one at the moment of the first read. */
  lemma AccessChecksAtOneMoment(t0: Tables, calls: seq<Call>, i: nat, j: nat, k: nat,
                                audience: string, now: int, subject: string, id: string)
    requires Integrity(t0) && i <= j <= k <= |calls|
    ensures AccessByReads(At(t0, calls, i), At(t0, calls, j), At(t0, calls, k), audience, now, subject, id) ==
            AccessRefusal(At(t0, calls, i), audience, now, subject, id)
  {
    var t1, t2, t3 := At(t0, calls, i), At(t0, calls, j), At(t0, calls, k);
    RunKeepsIntegrity(t0, calls, i);
    RunGrows(t0, calls, i, j);
    RunGrows(t0, calls, i, k);
    assert subject in t1.accounts ==> AccountKept(t1, t3, subject);
  }

  /**
    Revocation by id and the session list first read the account's identities. Commits before the second
    statement do not matter for an account that exists; for any other the first read already ends the
    call with the answer of that moment.
   */
  lemma IdentitiesReadEarlyAreCurrent(t0: Tables, calls: seq<Call>, i: nat, j: nat, subject: string)
    requires Integrity(t0) && i <= j <= |calls|
    ensures subject in At(t0, calls, i).accounts ==>
              KeysOf(At(t0, calls, i), subject) == KeysOf(At(t0, calls, j), subject)
    ensures subject !in At(t0, calls, i).accounts ==> KeysOf(At(t0, calls, i), subject) == {}
  {
    RunKeepsIntegrity(t0, calls, i);
    RunGrows(t0, calls, i, j);
  }
}
