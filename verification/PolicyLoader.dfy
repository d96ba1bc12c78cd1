/**
  Reading a consistent policy while others write: the double-version read of the storage adapter and of
  the repository's snapshots, the enforcer that installs what was loaded, and the repository that
  reloads after its own commits.
 */
module PolicyLoader {
  import opened Wrappers
  import opened AccessErrors
  import opened PermissionCodes
  import opened RoleBindings
  import opened PolicyHistory
  import opened PolicyStores
  import ReloadProtocol
  import opened Decisions
  import opened Text

  datatype LoadError = ReadFailed | PolicyChangedDuringLoad | RoleLinksFailed | Cancelled

  /** What lies outside the loader: the caller gave up waiting for the token, or the role links cannot be built. */
  datatype Trouble = Trouble(cancelled: bool, linksFail: bool)

  /** Casbin's in-memory model. */
  class Model {
    var rules: set<Rule>

    constructor ()
      ensures rules == {}
    {
      rules := {};
    }
  }

  /** Equal versions around a read of the rows mean the rows are the ones committed at that version. */
  lemma StableRead(base: PolicyDb, before: PolicyDb, read: PolicyDb, after: PolicyDb)
    requires Evolves(base, before, read) && Evolves(base, read, after) && before.version == after.version
    ensures read.rules == RulesAt(base, after, after.version)
  {
    assert before.audits == read.audits == after.audits;
    RulesNow(base, after);
  }

  /** One attempt: the rows, the version read after them, and whether it is the one read before them. */
  datatype Attempt = Attempt(rows: set<Rule>, version: nat, stable: bool)

  method ReadBetweenVersions(source: PolicyStore)
    returns (r: Option<Attempt>, ghost first: PolicyDb, ghost second: PolicyDb)
    requires source.Valid()
    modifies source
    ensures source.Valid() && Evolves(source.base, old(source.View()), source.View())
    ensures r.None? <==> source.failedReads > old(source.failedReads)
    ensures r.Some? ==> source.failedReads == old(source.failedReads)
    ensures source.readCount <= old(source.readCount) + 3
    ensures r.Some? ==> source.readCount == old(source.readCount) + 3
    ensures r.Some? && r.value.stable ==>
              && r.value.version == source.version
              && r.value.rows == RulesAt(source.base, source.View(), source.version)
    ensures r.Some? && !r.value.stable ==> source.version > old(source.version)
    ensures r.None? ==> CommitsLead(source.Known(), old(source.View()), source.View())
    ensures r.Some? ==>
              && CommitsLead(source.Known(), old(source.View()), first)
              && CommitsLead(source.Known(), first, second)
              && CommitsLead(source.Known(), second, source.View())
              && r.value == Attempt(second.rules, source.version, first.version == source.version)
  {
    ghost var db0 := source.View();
    first, second := db0, db0;
    var before := source.PolicyVersion();
    if before.None? {
      return None, first, second;
    }
    first := source.View();
    var read := source.LoadPolicyRows();
    if read.None? {
      CommitsAreTransitive(source.Known(), db0, first, source.View());
      return None, first, second;
    }
    second := source.View();
    var after := source.PolicyVersion();
    if after.None? {
      CommitsAreTransitive(source.Known(), db0, first, second);
      CommitsAreTransitive(source.Known(), db0, second, source.View());
      return None, first, second;
    }
    if before.value == after.value {
      StableRead(source.base, first, second, source.View());
    }
    r := Some(Attempt(read.value, after.value, before.value == after.value));
  }

  /** The same attempt as a stretch of the reload that makes it. */
  method ReadInside(source: PolicyStore, ghost db0: PolicyDb, ghost s: ReloadProtocol.State,
                    ghost mid: ReloadProtocol.State)
    returns (r: Option<Attempt>, ghost reached: ReloadProtocol.State)
    requires source.Valid() && Evolves(source.base, db0, source.View())
    requires ReloadProtocol.LeadsInside(source.Known(), s, mid)
    requires mid.db == source.View() && mid.phase.Loading? && mid.phase.attempt < LOAD_ATTEMPTS
    modifies source
    ensures source.Valid() && Evolves(source.base, db0, source.View())
    ensures r.None? <==> source.failedReads > old(source.failedReads)
    ensures r.Some? ==> source.failedReads == old(source.failedReads)
    ensures source.readCount <= old(source.readCount) + 3
    ensures r.Some? ==> source.readCount == old(source.readCount) + 3
    ensures r.Some? && r.value.stable ==>
              && r.value.version == source.version
              && r.value.rows == RulesAt(source.base, source.View(), source.version)
    ensures r.Some? && !r.value.stable ==> source.version > old(source.version)
    ensures ReloadProtocol.LeadsInside(source.Known(), s, reached)
    ensures reached == if r.None? then mid.(db := source.View())
                       else ReloadProtocol.AfterAttempt(mid, source.View(), r.value.rows, r.value.stable)
  {
    ghost var first, second;
    r, first, second := ReadBetweenVersions(source);
    if r.None? {
      ReloadProtocol.CommitsLeadInside(source.Known(), s, mid, source.View());
      reached := mid.(db := source.View());
    } else {
      ReloadProtocol.AttemptInside(source.Known(), s, mid, first, second, source.View());
      reached := ReloadProtocol.AfterAttempt(mid, source.View(), r.value.rows, r.value.stable);
    }
  }

  /** Up to five attempts; the rows of the first stable one with their version. */
  method ReadStable(source: PolicyStore, ghost s: ReloadProtocol.State)
    returns (r: Result<Attempt, LoadError>, ghost reached: ReloadProtocol.State)
    requires source.Valid() && s.db == source.View() && s.phase.Loading? && s.phase.attempt == 0
    modifies source
    ensures source.Valid() && Evolves(source.base, old(source.View()), source.View())
    ensures r.Success? ==>
              && old(source.version) <= r.value.version == source.version
              && r.value.rows == RulesAt(source.base, source.View(), source.version)
    ensures source.failedReads == old(source.failedReads) && source.version < old(source.version) + 5 ==> r.Success?
    ensures source.readCount <= old(source.readCount) + 5 * 3
    ensures r == Failure(PolicyChangedDuringLoad) ==>
              reached.phase == ReloadProtocol.Loading(s.phase.start, 5) &&
              source.readCount == old(source.readCount) + 5 * 3
    ensures r.Failure? ==> r.error in {ReadFailed, PolicyChangedDuringLoad}
    ensures r == Failure(ReadFailed) <==> source.failedReads > old(source.failedReads)
    ensures ReloadProtocol.LeadsInside(source.Known(), s, reached)
    ensures reached.db == source.View() && reached.e == s.e && reached.loadedVersion == s.loadedVersion
    ensures if r.Success?
            then reached.adapterVersion == r.value.version &&
                 reached.phase == ReloadProtocol.Built(s.phase.start, r.value.rows)
            else reached.adapterVersion == s.adapterVersion &&
                 reached.phase.Loading? && reached.phase.start == s.phase.start
  {
    ghost var db0, failed0, reads0 := source.View(), source.failedReads, source.readCount;
    reached := s;
    ReloadProtocol.StandsStill(source.Known(), s);
    for attempt := 0 to LOAD_ATTEMPTS
      invariant source.Valid() && Evolves(source.base, db0, source.View())
      invariant source.failedReads == failed0 && source.version >= db0.version + attempt
      invariant source.readCount == reads0 + 3 * attempt
      invariant ReloadProtocol.LeadsInside(source.Known(), s, reached)
      invariant reached.db == source.View() && reached.e == s.e && reached.loadedVersion == s.loadedVersion
      invariant reached.adapterVersion == s.adapterVersion
      invariant reached.phase == ReloadProtocol.Loading(s.phase.start, attempt)
    {
      ghost var mid := reached;
      var read;
      read, reached := ReadInside(source, db0, s, mid);
      if read.None? {
        return Failure(ReadFailed), reached;
      }
      if read.value.stable {
        return Success(read.value), reached;
      }
    }
    r := Failure(PolicyChangedDuringLoad);
  }

  class StorageAdapter {
    const source: PolicyStore
    var loadedVersion: nat

    constructor (source: PolicyStore)
      ensures this.source == source && loadedVersion == 0
    {
      this.source := source;
      loadedVersion := 0;
    }

    /**
      Fills the model with the rules of one committed version and records that version. Reports a
      changing policy only after five reads that each saw at least one commit.
     */
    method LoadPolicyContext(m: Model, ghost s: ReloadProtocol.State)
      returns (err: Option<LoadError>, ghost reached: ReloadProtocol.State)
      requires source.Valid() && Begins(s)
      modifies source, m, this`loadedVersion
      ensures source.Valid() && Evolves(source.base, old(source.View()), source.View())
      ensures err.None? ==>
                && old(source.version) <= loadedVersion <= source.version
                && m.rules == old(m.rules) + RulesAt(source.base, source.View(), loadedVersion)
      ensures err.Some? ==> m.rules == old(m.rules) && loadedVersion == old(loadedVersion)
      ensures source.failedReads == old(source.failedReads) && source.version < old(source.version) + 5 ==> err.None?
      ensures source.readCount <= old(source.readCount) + 5 * 3
      ensures err == Some(PolicyChangedDuringLoad) ==>
                reached.phase == ReloadProtocol.Loading(s.phase.start, 5) &&
                source.readCount == old(source.readCount) + 5 * 3
      ensures err.Some? ==> err.value in {ReadFailed, PolicyChangedDuringLoad}
      ensures err == Some(ReadFailed) <==> source.failedReads > old(source.failedReads)
      ensures Loads(s, reached)
      ensures err.None? ==> reached.phase.Built? && m.rules == old(m.rules) + reached.phase.rows
    {
      var read;
      read, reached := ReadStable(source, s);
      if read.Failure? {
        return Some(read.error), reached;
      }
      m.rules := m.rules + read.value.rows;
      loadedVersion := read.value.version;
      err := None;
    }

    /** The reload that calls the loader has just taken its token. */
    ghost predicate Begins(s: ReloadProtocol.State)
      reads this, source
    {
      s.db == source.View() && s.adapterVersion == loadedVersion && s.phase.Loading? && s.phase.attempt == 0
    }

    /** What the loader did, as steps of that reload; the installed rules and their version are not its business. */
    ghost predicate Loads(s: ReloadProtocol.State, reached: ReloadProtocol.State)
      requires s.phase.Loading?
      reads this, source
    {
      && ReloadProtocol.LeadsInside(source.Known(), s, reached)
      && reached == s.(db := source.View(), adapterVersion := loadedVersion, phase := reached.phase)
      && !reached.phase.Idle? && ReloadProtocol.LockFree(reached) && reached.phase.start == s.phase.start
    }
  }

  /** The same read for any query over the rows: the value and the version belong together. */
  method StablePolicySnapshot<T>(store: PolicyStore, load: set<Rule> -> T)
    returns (r: Result<(T, nat), AccessError>)
    requires store.Valid()
    modifies store
    ensures store.Valid() && Evolves(store.base, old(store.View()), store.View())
    ensures r.Success? ==>
              && old(store.version) <= r.value.1 <= store.version
              && r.value.0 == load(RulesAt(store.base, store.View(), r.value.1))
    ensures store.failedReads == old(store.failedReads) && store.version < old(store.version) + 5 ==> r.Success?
    ensures store.readCount <= old(store.readCount) + 5 * 3
    ensures r == Failure(ConcurrentModification) ==> store.readCount == old(store.readCount) + 5 * 3
    ensures r.Failure? ==> r.error in {ConcurrentModification, StorageFailure}
    ensures r == Failure(StorageFailure) <==> store.failedReads > old(store.failedReads)
  {
    for attempt := 0 to LOAD_ATTEMPTS
      invariant store.Valid() && Evolves(store.base, old(store.View()), store.View())
      invariant store.version >= old(store.version) + attempt && store.failedReads == old(store.failedReads)
      invariant store.readCount == old(store.readCount) + 3 * attempt
    {
      var read, _, _ := ReadBetweenVersions(store);
      if read.None? {
        return Failure(StorageFailure);
      }
      var value := load(read.value.rows);
      if read.value.stable {
        return Success((value, read.value.version));
      }
    }
    r := Failure(ConcurrentModification);
  }

  class Enforcer {
    var e: Model
    var loadedVersion: nat
    const adapter: StorageAdapter

    /** The instance as the reload protocol sees it between reloads. */
    ghost function Snapshot(): ReloadProtocol.State
      reads this, e, adapter, adapter.source
    {
      ReloadProtocol.State(adapter.source.View(), e.rules, loadedVersion, adapter.loadedVersion, ReloadProtocol.Idle)
    }

    /** The installed rules are the ones committed at the version the enforcer reports. */
    ghost predicate Current()
      reads this, e, adapter, adapter.source
    {
      && adapter.source.Valid()
      && adapter.source.base.version <= loadedVersion <= adapter.loadedVersion <= adapter.source.version
      && e.rules == RulesAt(adapter.source.base, adapter.source.View(), loadedVersion)
    }

    /** That is the invariant which every step of every run keeps. */
    lemma CurrentIsInv()
      requires Current()
      ensures ReloadProtocol.Inv(adapter.source.base, Snapshot())
    {
    }

    /** Where only the repository writes, the installed rules are well-formed. */
    lemma ServesWellFormed()
      requires Current() && adapter.source.repositoryOnly
      ensures WellFormedRules(e.rules)
    {
      assert VersionsWellFormed(adapter.source.base, adapter.source.View());
    }

    /** Installs what the adapter loaded last. */
    constructor (adapter: StorageAdapter, initial: Model)
      requires adapter.source.Valid()
      requires adapter.source.base.version <= adapter.loadedVersion <= adapter.source.version
      requires initial.rules == RulesAt(adapter.source.base, adapter.source.View(), adapter.loadedVersion)
      ensures Current() && this.adapter == adapter && loadedVersion == adapter.loadedVersion && e == initial
    {
      this.adapter := adapter;
      this.e := initial;
      this.loadedVersion := adapter.loadedVersion;
    }

    /** Whether any of the roles may use the code. */
    method AllowContext(roles: seq<string>, perm: string) returns (ok: bool)
      ensures ok <==> Allows(e.rules, roles, perm)
    {
      for i := 0 to |roles|
        invariant !Allows(e.rules, roles[..i], perm)
      {
        assert roles[..i + 1] == roles[..i] + [roles[i]];
        AllowsAppend(e.rules, roles[..i], roles[i], perm);
        EnforceIsReachability(e.rules, roles[i], perm);
        if Enforce(e.rules, roles[i], perm) {
          AllowsPrefix(e.rules, roles, i + 1, perm);
          return true;
        }
      }
      assert roles[..|roles|] == roles;
      ok := false;
    }

    /** All codes of the roles, inherited ones included, without repetitions and in no particular order. */
    method PermissionsOf(roles: seq<string>) returns (out: seq<string>)
      ensures Distinct(out)
      ensures forall c :: c in out <==> Holds(e.rules, roles, c)
    {
      var seen: set<string> := {};
      out := [];
      for i := 0 to |roles|
        invariant seen == Elements(out) && Distinct(out)
        invariant forall c :: c in out <==> Holds(e.rules, roles[..i], c)
      {
        ghost var before := out;
        var todo := ImplicitPermissions(e.rules, roles[i]);
        while todo != {}
          invariant todo <= ImplicitPermissions(e.rules, roles[i])
          invariant seen == Elements(out) && Distinct(out)
          invariant forall c :: c in out <==>
                      c in before || (c in ImplicitPermissions(e.rules, roles[i]) && c !in todo)
          decreases |todo|
        {
          var code :| code in todo;
          todo := todo - {code};
          if code in seen {
            continue;
          }
          seen := seen + {code};
          out := out + [code];
        }
        assert roles[..i + 1] == roles[..i] + [roles[i]];
        forall c
          ensures Holds(e.rules, roles[..i + 1], c) <==>
                  Holds(e.rules, roles[..i], c) || c in ImplicitPermissions(e.rules, roles[i])
        {
          HoldsAppend(e.rules, roles[..i], roles[i], c);
          ImplicitIsHeld(e.rules, roles[i], c);
        }
      }
      assert roles[..|roles|] == roles;
    }

    /**
      Loads into a new model and installs it together with its version; a failure installs nothing. Once
      the token is taken the call is one whole reload of the protocol.
     */
    method ReloadPolicy(t: Trouble) returns (err: Option<LoadError>)
      requires Current()
      modifies this, adapter, adapter.source
      ensures Current() && Evolves(adapter.source.base, old(adapter.source.View()), adapter.source.View())
      ensures loadedVersion >= old(loadedVersion)
      ensures err.None? ==> loadedVersion >= old(adapter.source.version) && fresh(e)
      ensures err.Some? ==> e == old(e) && e.rules == old(e.rules) && loadedVersion == old(loadedVersion)
      ensures (!t.cancelled && !t.linksFail && adapter.source.failedReads == old(adapter.source.failedReads)
               && adapter.source.version < old(adapter.source.version) + 5) ==>
                err.None?
      ensures t.cancelled ==> err == Some(Cancelled) && Snapshot() == old(Snapshot())
      ensures !t.cancelled ==>
                ReloadProtocol.Reload(adapter.source.Known(), old(Snapshot()), Snapshot(), err.None?)
    {
      ghost var s0 := Snapshot();
      if t.cancelled {
        return Some(Cancelled);
      }
      ghost var begun := s0.(phase := ReloadProtocol.Loading(s0.db.version, 0));
      var replacement, built := BuildEnforcer(adapter, t.linksFail, begun);
      RulesAtStable(adapter.source.base, s0.db, adapter.source.View(), s0.loadedVersion);
      if replacement.Failure? {
        assert ReloadProtocol.Concludes(built, Snapshot(), false);
        return Some(replacement.error);
      }
      e := replacement.value;
      loadedVersion := adapter.loadedVersion;
      assert ReloadProtocol.Concludes(built, Snapshot(), true);
      err := None;
    }
  }

  /** Loads a new model; building the role links afterwards may fail. */
  method BuildEnforcer(adapter: StorageAdapter, linksFail: bool, ghost s: ReloadProtocol.State)
    returns (r: Result<Model, LoadError>, ghost reached: ReloadProtocol.State)
    requires adapter.source.Valid() && adapter.Begins(s)
    modifies adapter.source, adapter`loadedVersion
    ensures adapter.source.Valid()
    ensures Evolves(adapter.source.base, old(adapter.source.View()), adapter.source.View())
    ensures r.Success? ==>
              && fresh(r.value)
              && old(adapter.source.version) <= adapter.loadedVersion <= adapter.source.version
              && r.value.rules == RulesAt(adapter.source.base, adapter.source.View(), adapter.loadedVersion)
    ensures r.Failure? ==> adapter.loadedVersion == old(adapter.loadedVersion) ||
                           old(adapter.source.version) <= adapter.loadedVersion <= adapter.source.version
    ensures (!linksFail && adapter.source.failedReads == old(adapter.source.failedReads)
             && adapter.source.version < old(adapter.source.version) + 5) ==>
              r.Success?
    ensures adapter.Loads(s, reached)
    ensures r.Success? ==> reached.phase.Built? && reached.phase.rows == r.value.rules
  {
    var m := new Model();
    var err;
    err, reached := adapter.LoadPolicyContext(m, s);
    if err.Some? {
      return Failure(err.value), reached;
    }
    if linksFail {
      return Failure(RoleLinksFailed), reached;
    }
    r := Success(m);
  }

  /** An enforcer starts with a committed version, or does not start. */
  method NewEnforcer(adapter: StorageAdapter, linksFail: bool) returns (r: Result<Enforcer, LoadError>)
    requires adapter.source.Valid()
    modifies adapter.source, adapter`loadedVersion
    ensures adapter.source.Valid()
    ensures Evolves(adapter.source.base, old(adapter.source.View()), adapter.source.View())
    ensures r.Success? ==>
              && r.value.adapter == adapter && r.value.Current()
              && r.value.loadedVersion >= old(adapter.source.version)
    ensures (!linksFail && adapter.source.failedReads == old(adapter.source.failedReads)
             && adapter.source.version < old(adapter.source.version) + 5) ==>
              r.Success?
  {
    ghost var s := ReloadProtocol.State(adapter.source.View(), {}, 0, adapter.loadedVersion,
                                        ReloadProtocol.Loading(adapter.source.version, 0));
    var built, _ := BuildEnforcer(adapter, linksFail, s);
    if built.Failure? {
      return Failure(built.error);
    }
    var en := new Enforcer(adapter, built.value);
    r := Success(en);
  }

  /** A write that committed at some moment, followed by whatever other writers did. */
  ghost predicate CommittedThen(base: PolicyDb, known: set<string>, db: PolicyDb, op: Op,
                                r: Result<nat, AccessError>, db': PolicyDb) {
    exists mid: PolicyDb :: Write(db, known, op, mid, r) && Evolves(base, mid, db')
  }

  lemma CommittedBefore(base: PolicyDb, known: set<string>, db: PolicyDb, op: Op,
                        r: Result<nat, AccessError>, mid: PolicyDb, db': PolicyDb)
    requires Write(db, known, op, mid, r) && Evolves(base, mid, db')
    ensures CommittedThen(base, known, db, op, r, db')
  {
  }

  lemma AllowsPrefix(rules: set<Rule>, roles: seq<string>, n: nat, perm: string)
    requires n <= |roles| && Allows(rules, roles[..n], perm)
    ensures Allows(rules, roles, perm)
  {
  }

  class PolicyRepo {
    const enforcer: Enforcer
    const store: PolicyStore

    constructor (enforcer: Enforcer)
      ensures this.enforcer == enforcer && store == enforcer.adapter.source
    {
      this.enforcer := enforcer;
      this.store := enforcer.adapter.source;
    }

    /** After a commit the local instance reloads; a failed reload is not the write's failure. */
    method CommitPolicy(written: Result<nat, AccessError>, t: Trouble) returns (r: Result<nat, AccessError>, reloaded: bool)
      requires store == enforcer.adapter.source && enforcer.Current()
      requires written.Success? ==> written.value == store.version
      modifies enforcer, enforcer.adapter, store
      ensures r == written
      ensures written.Failure? ==> enforcer.Snapshot() == old(enforcer.Snapshot())
      ensures enforcer.Current() && Evolves(store.base, old(store.View()), store.View())
      ensures enforcer.loadedVersion >= old(enforcer.loadedVersion)
      ensures reloaded ==> r.Success? && enforcer.loadedVersion >= r.value
      ensures !reloaded ==> enforcer.e == old(enforcer.e) && enforcer.loadedVersion == old(enforcer.loadedVersion)
      ensures (r.Success? && !t.cancelled && !t.linksFail && store.failedReads == old(store.failedReads)
               && store.version < r.value + 5) ==>
                reloaded
    {
      if written.Failure? {
        return written, false;
      }
      var err := enforcer.ReloadPolicy(t);
      r, reloaded := written, err.None?;
    }

    method SaveBinding(b: RoleBinding, expected: Option<int>, meta: Meta, t: Trouble)
      returns (r: Result<nat, AccessError>, reloaded: bool)
      requires store == enforcer.adapter.source && enforcer.Current()
      modifies enforcer, enforcer.adapter, store
      ensures enforcer.Current()
      ensures !ValidActor(meta.actorSubject) ==>
                r == Failure(InvalidPolicyActor) && enforcer.Snapshot() == old(enforcer.Snapshot())
      ensures ValidActor(meta.actorSubject) ==>
                CommittedThen(store.base, store.Known(), old(store.View()),
                              Op.Replace(b.role, b.CodeStrings(), expected, meta), r, store.View())
      ensures reloaded ==> r.Success? && enforcer.loadedVersion >= r.value
      ensures (r.Success? && !t.cancelled && !t.linksFail && store.failedReads == old(store.failedReads)
               && store.version < r.value + 5) ==>
                reloaded
      ensures expected.Some? && expected.value != old(store.version) && ValidActor(meta.actorSubject) ==>
                r == Failure(ConcurrentModification) && store.View() == old(store.View())
      ensures enforcer.loadedVersion >= old(enforcer.loadedVersion)
    {
      var invalid := ValidateActor(meta.actorSubject);
      if invalid.Some? {
        return Failure(invalid.value), false;
      }
      ghost var db0 := store.View();
      var codes := b.CodeStrings();
      var written := store.ReplaceRolePermissions(b.role, codes, expected, meta);
      RulesAtStable(store.base, db0, store.View(), enforcer.loadedVersion);
      ghost var mid := store.View();
      r, reloaded := CommitPolicy(written, t);
      CommittedBefore(store.base, store.Known(), db0, Op.Replace(b.role, codes, expected, meta),
                      r, mid, store.View());
    }

    method SaveInheritance(ri: RoleInheritance, expected: Option<int>, meta: Meta, t: Trouble)
      returns (r: Result<nat, AccessError>, reloaded: bool)
      requires store == enforcer.adapter.source && enforcer.Current()
      requires store.repositoryOnly ==> NewRoleInheritance(ri.child, ri.parent).Success?
      modifies enforcer, enforcer.adapter, store
      ensures enforcer.Current()
      ensures !ValidActor(meta.actorSubject) ==>
                r == Failure(InvalidPolicyActor) && enforcer.Snapshot() == old(enforcer.Snapshot())
      ensures ValidActor(meta.actorSubject) ==>
                CommittedThen(store.base, store.Known(), old(store.View()),
                              Op.Add(ri.child, ri.parent, expected, meta), r, store.View())
      ensures reloaded ==> r.Success? && enforcer.loadedVersion >= r.value
      ensures (r.Success? && !t.cancelled && !t.linksFail && store.failedReads == old(store.failedReads)
               && store.version < r.value + 5) ==>
                reloaded
      ensures expected.Some? && expected.value != old(store.version) && ValidActor(meta.actorSubject) ==>
                r == Failure(ConcurrentModification) && store.View() == old(store.View())
      ensures enforcer.loadedVersion >= old(enforcer.loadedVersion)
    {
      var invalid := ValidateActor(meta.actorSubject);
      if invalid.Some? {
        return Failure(invalid.value), false;
      }
      ghost var db0 := store.View();
      var written := store.AddRoleInheritance(ri.child, ri.parent, expected, meta);
      RulesAtStable(store.base, db0, store.View(), enforcer.loadedVersion);
      ghost var mid := store.View();
      r, reloaded := CommitPolicy(written, t);
      CommittedBefore(store.base, store.Known(), db0, Op.Add(ri.child, ri.parent, expected, meta),
                      r, mid, store.View());
    }

    method DeleteInheritance(ri: RoleInheritance, expected: Option<int>, meta: Meta, t: Trouble)
      returns (r: Result<nat, AccessError>, reloaded: bool)
      requires store == enforcer.adapter.source && enforcer.Current()
      requires store.repositoryOnly ==> NewRoleInheritance(ri.child, ri.parent).Success?
      modifies enforcer, enforcer.adapter, store
      ensures enforcer.Current()
      ensures !ValidActor(meta.actorSubject) ==>
                r == Failure(InvalidPolicyActor) && enforcer.Snapshot() == old(enforcer.Snapshot())
      ensures ValidActor(meta.actorSubject) ==>
                CommittedThen(store.base, store.Known(), old(store.View()),
                              Op.Delete(ri.child, ri.parent, expected, meta), r, store.View())
      ensures reloaded ==> r.Success? && enforcer.loadedVersion >= r.value
      ensures (r.Success? && !t.cancelled && !t.linksFail && store.failedReads == old(store.failedReads)
               && store.version < r.value + 5) ==>
                reloaded
      ensures expected.Some? && expected.value != old(store.version) && ValidActor(meta.actorSubject) ==>
                r == Failure(ConcurrentModification) && store.View() == old(store.View())
      ensures enforcer.loadedVersion >= old(enforcer.loadedVersion)
    {
      var invalid := ValidateActor(meta.actorSubject);
      if invalid.Some? {
        return Failure(invalid.value), false;
      }
      ghost var db0 := store.View();
      var written := store.DeleteRoleInheritance(ri.child, ri.parent, expected, meta);
      RulesAtStable(store.base, db0, store.View(), enforcer.loadedVersion);
      ghost var mid := store.View();
      r, reloaded := CommitPolicy(written, t);
      CommittedBefore(store.base, store.Known(), db0, Op.Delete(ri.child, ri.parent, expected, meta),
                      r, mid, store.View());
    }

    /**
      The direct grants of a role as of one committed version, sorted and without empty codes. A stored
      code that is no code fails the call.
     */
    method FindBinding(role: string) returns (r: Result<(RoleBinding, nat), AccessError>)
      requires store.Valid()
      modifies store
      ensures store.Valid() && Evolves(store.base, old(store.View()), store.View())
      ensures r.Success? ==>
                && role != "" && r.value.0.role == role
                && old(store.version) <= r.value.1 <= store.version
                && var grants := GrantsOf(RulesAt(store.base, store.View(), r.value.1), role);
                   (forall c | c in grants :: ValidCode(c)) && r.value.0.CodeStrings() == Listing(grants - {""})
      ensures r == Failure(InvalidPermissionCode) ==>
                exists v, c :: (old(store.version) <= v <= store.version
                                && c in GrantsOf(RulesAt(store.base, store.View(), v), role) && !ValidCode(c))
      ensures r == Failure(EmptyRole) ==> role == ""
      ensures store.failedReads == old(store.failedReads) && store.version < old(store.version) + 5 ==>
                r.Success? || r.error == InvalidPermissionCode || r.error == EmptyRole
    {
      var snapshot := StablePolicySnapshot(store, (rules: set<Rule>) => GrantsOf(rules, role));
      if snapshot.Failure? {
        return Failure(snapshot.error);
      }
      var raw := InSomeOrder(snapshot.value.0);
      var codes := ParsePermissionCodes(raw);
      if codes.Failure? {
        return Failure(codes.error);
      }
      var binding := NewRoleBinding(role, codes.value);
      if binding.Failure? {
        return Failure(binding.error);
      }
      assert Values(codes.value) == snapshot.value.0 - {""} by {
        forall c ensures c in Values(codes.value) <==> c in raw && c != "" {
          if c in raw && c != "" { assert PermissionCode(c) in codes.value; }
        }
      }
      r := Success((binding.value, snapshot.value.1));
    }
  }

  /** Rows as a query without an order may return them. */
  method InSomeOrder(rows: set<string>) returns (s: seq<string>)
    ensures forall x :: x in s <==> x in rows
  {
    s := [];
    var left := rows;
    while left != {}
      invariant left <= rows && forall x :: x in s <==> x in rows - left
      decreases |left|
    {
      var x :| x in left;
      s, left := s + [x], left - {x};
    }
  }

  /**
    Saving a binding and reading it back at the committed version gives the same codes: a binding lists its
    codes, the write stores exactly those, and the version it returns keeps them whatever is written later.
   */
  lemma SavedBindingIsFound(base: PolicyDb, known: set<string>, db: PolicyDb, mid: PolicyDb, later: PolicyDb,
                            b: RoleBinding, expected: Option<int>, meta: Meta, v: nat)
    requires History(base, db) && Write(db, known, Op.Replace(b.role, b.CodeStrings(), expected, meta), mid, Success(v))
    requires Evolves(base, mid, later) && StrictlySorted(b.CodeStrings()) && "" !in b.CodeStrings()
    ensures base.version <= v <= later.version
    ensures Listing(GrantsOf(RulesAt(base, later, v), b.role) - {""}) == b.CodeStrings()
    ensures forall role | role != b.role ::
              GrantsOf(RulesAt(base, later, v), role) == GrantsOf(RulesAt(base, later, v - 1), role)
    ensures Edges(RulesAt(base, later, v)) == Edges(RulesAt(base, later, v - 1))
  {
    WriteKeepsHistory(base, db, known, Op.Replace(b.role, b.CodeStrings(), expected, meta), mid, Success(v));
    BothVersionsKept(base, db, mid, later);
    ReplacedGrants(db.rules, b.role, Elements(b.CodeStrings()));
    assert Elements(b.CodeStrings()) - {""} == Elements(b.CodeStrings());
    StrictlySortedUnique(Listing(Elements(b.CodeStrings())), b.CodeStrings());
  }

  lemma BothVersionsKept(base: PolicyDb, db: PolicyDb, mid: PolicyDb, later: PolicyDb)
    requires Evolves(base, db, mid) && Evolves(base, mid, later)
    ensures base.version <= db.version <= mid.version <= later.version
    ensures RulesAt(base, later, db.version) == db.rules && RulesAt(base, later, mid.version) == mid.rules
  {
    RulesNow(base, db);
    RulesNow(base, mid);
    RulesAtStable(base, db, mid, db.version);
    RulesAtStable(base, mid, later, db.version);
    RulesAtStable(base, mid, later, mid.version);
  }

  /** Replacing a role's grants sets them, and touches no other role and no inheritance. */
  lemma ReplacedGrants(rules: set<Rule>, role: string, codes: set<string>)
    ensures var after := WithoutGrants(rules, role) + GrantRules(role, codes);
            && GrantsOf(after, role) == codes
            && (forall other | other != role :: GrantsOf(after, other) == GrantsOf(rules, other))
            && Edges(after) == Edges(rules)
  {
  }
}
