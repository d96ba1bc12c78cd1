/**
  The policy tables behind one locked state row. A write works on transaction copies of the tables and
  assigns the fields when it commits; returning earlier is the rollback. A read sees one committed state,
  and before each read any number of other writers may have committed.
 */
module PolicyStores {
  import opened Wrappers
  import opened AccessErrors
  import opened PermissionCodes
  import opened RoleBindings
  import opened RoleGraph
  import opened Text
  import opened PolicyHistory

  const LOAD_ATTEMPTS := 5

  /** What other writers may do to the tables between two steps of a reader. */
  ghost predicate Evolves(base: PolicyDb, db: PolicyDb, db': PolicyDb) {
    History(base, db) && History(base, db') && db.audits <= db'.audits
  }

  /** Later commits never change what was committed at an earlier version. */
  lemma RulesAtStable(base: PolicyDb, db: PolicyDb, db': PolicyDb, v: nat)
    requires Evolves(base, db, db') && base.version <= v <= db.version
    ensures v <= db'.version
    ensures RulesAt(base, db, v) == RulesAt(base, db', v)
  {
    var n := v - base.version;
    assert db.audits[..n] == db'.audits[..n];
  }

  lemma RulesNow(base: PolicyDb, db: PolicyDb)
    requires History(base, db)
    ensures RulesAt(base, db, db.version) == db.rules
  {
    assert db.audits[..|db.audits|] == db.audits;
  }

  lemma ReplacedRules(rules: set<Rule>, role: string, perms: seq<string>)
    ensures var after := WithoutGrants(rules, role) + GrantRules(role, Elements(perms));
            && (forall who, code :: Grant(who, code) in after <==>
                                    if who == role then code in perms else Grant(who, code) in rules)
            && (forall c, p :: Inherit(c, p) in after <==> Inherit(c, p) in rules)
  {
  }

  class PolicyStore {
    var rules: set<Rule>
    var version: nat
    var audits: seq<Audit>
    /** The rows (code, status) of `permission_definition`; migrations maintain them. */
    const catalog: seq<(string, int)>
    ghost const base: PolicyDb
    /** Every writer is the repository, which only stores well-formed rules. */
    const repositoryOnly: bool
    /** How many reads have failed so far. */
    ghost var failedReads: nat
    /** How many reads there have been. */
    ghost var readCount: nat

    ghost function View(): PolicyDb
      reads this
    {
      PolicyDb(rules, version, audits)
    }

    ghost predicate Valid()
      reads this
    {
      History(base, View()) && (repositoryOnly ==> VersionsWellFormed(base, View()))
    }

    ghost predicate MayWrite(op: Op) {
      repositoryOnly ==> FromRepository(op)
    }

    ghost function Known(): set<string> {
      set row | row in catalog && row.1 == 1 :: row.0
    }

    constructor (rules: set<Rule>, version: nat, catalog: seq<(string, int)>, repositoryOnly: bool)
      requires Acyclic(Edges(rules)) && (repositoryOnly ==> WellFormedRules(rules))
      ensures Valid() && View() == base == PolicyDb(rules, version, [])
      ensures this.catalog == catalog && this.repositoryOnly == repositoryOnly
    {
      failedReads, readCount := 0, 0;
      this.rules, this.version, this.audits, this.catalog := rules, version, [], catalog;
      this.repositoryOnly := repositoryOnly;
      base := PolicyDb(rules, version, []);
      new;
      assert RulesAt(base, base, version) == rules;
    }

    method LockPolicyState(expected: Option<int>) returns (r: Result<nat, AccessError>)
      ensures r == if expected.Some? && expected.value != version then Failure(ConcurrentModification)
                   else Success(version)
    {
      if expected.Some? && expected.value != version {
        return Failure(ConcurrentModification);
      }
      r := Success(version);
    }

    /** The catalogue check inside the write transaction. */
    method ValidateBindingCatalog(role: string, perms: seq<string>) returns (err: Option<AccessError>)
      ensures err == if !AllCodes(perms) then Some(InvalidPermissionCode)
                     else if role == "" then Some(EmptyRole)
                     else if exists p | p in perms :: p != "" && WILDCARD !in p && p !in Known()
                     then Some(UnknownPermissionCode)
                     else None
    {
      var codes := ParsePermissionCodes(perms);
      if codes.Failure? {
        return Some(codes.error);
      }
      var binding := NewRoleBinding(role, codes.value);
      if binding.Failure? {
        return Some(binding.error);
      }
      var known := EnabledCodes();
      BindingCodes(binding.value, codes.value, perms);
      UnknownCodes(binding.value, perms, known);
      err := EnsureCodesKnown(binding.value, known);
    }

    method EnabledCodes() returns (known: set<string>)
      ensures known == Known()
    {
      known := {};
      for i := 0 to |catalog|
        invariant known == set row | row in catalog[..i] && row.1 == 1 :: row.0
      {
        assert catalog[..i + 1] == catalog[..i] + [catalog[i]];
        if catalog[i].1 == 1 {
          known := known + {catalog[i].0};
        }
      }
      assert catalog[..|catalog|] == catalog;
    }

    /** Inserts the codes one by one under the unique index. */
    method InsertGrants(rest: set<Rule>, role: string, perms: seq<string>) returns (r: Option<set<Rule>>)
      requires GrantsOf(rest, role) == {}
      ensures r == if Distinct(perms) then Some(rest + GrantRules(role, Elements(perms))) else None
    {
      var tx := rest;
      for i := 0 to |perms|
        invariant tx == rest + GrantRules(role, Elements(perms[..i]))
        invariant Distinct(perms[..i])
      {
        assert perms[..i + 1] == perms[..i] + [perms[i]];
        assert Elements(perms[..i + 1]) == Elements(perms[..i]) + {perms[i]};
        var row := Grant(role, perms[i]);
        assert row.code !in GrantsOf(rest, role);
        assert row in tx <==> perms[i] in perms[..i];
        if row in tx {
          return None;
        }
        tx := tx + {row};
      }
      assert perms[..|perms|] == perms;
      r := Some(tx);
    }

    /** Replaces the direct grants of a role, advances the version and logs the change. */
    method ReplaceRolePermissions(role: string, perms: seq<string>, expected: Option<int>, meta: Meta)
      returns (r: Result<nat, AccessError>)
      requires Valid()
      modifies this`rules, this`version, this`audits
      ensures Valid() && Evolves(base, old(View()), View())
      ensures expected.Some? && expected.value != old(version) ==>
                r == Failure(ConcurrentModification) && View() == old(View())
      ensures r.Failure? ==> View() == old(View())
      ensures r.Success? <==>
                && (expected.None? || expected.value == old(version))
                && role != "" && Distinct(perms)
                && forall p | p in perms :: ValidCode(p) && (p == "" || '*' in p || (p, 1) in catalog)
      ensures r.Success? ==>
                && r.value == version == old(version) + 1
                && audits == old(audits) + [Audit(version, Action.ReplaceRolePermissions, role,
                                                  set g | g in old(rules) && g.Grant? && g.role == role :: g.code,
                                                  perms, meta)]
                && (forall who, code :: Grant(who, code) in rules <==>
                                        if who == role then code in perms else Grant(who, code) in old(rules))
                && (forall c, p :: Inherit(c, p) in rules <==> Inherit(c, p) in old(rules))
      ensures Write(old(View()), Known(), Op.Replace(role, perms, expected, meta), View(), r)
    {
      ghost var db := View();
      var state := LockPolicyState(expected);
      if state.Failure? {
        return Failure(state.error);
      }
      AllKnownMeans(perms);
      var err := ValidateBindingCatalog(role, perms);
      if err.Some? {
        return Failure(err.value);
      }
      var before := GrantsOf(rules, role);
      var rows := InsertGrants(WithoutGrants(rules, role), role, perms);
      if rows.None? {
        return Failure(StorageFailure);
      }
      rules := rows.value;
      ReplacedRules(db.rules, role, perms);
      r := RecordPolicyMutation(Action.ReplaceRolePermissions, role, before, perms, meta);
      AfterWrite(db, Op.Replace(role, perms, expected, meta), r);
    }

    /** Stores an inheritance edge unless the parent already reaches the child. */
    method AddRoleInheritance(child: string, parent: string, expected: Option<int>, meta: Meta)
      returns (r: Result<nat, AccessError>)
      requires Valid() && MayWrite(Op.Add(child, parent, expected, meta))
      modifies this`rules, this`version, this`audits
      ensures Valid() && Evolves(base, old(View()), View())
      ensures expected.Some? && expected.value != old(version) ==>
                r == Failure(ConcurrentModification) && View() == old(View())
      ensures r.Failure? ==> View() == old(View())
      ensures expected.None? || expected.value == old(version) ==>
                && (r.Success? <==> !Reaches(Edges(old(rules)), parent, child))
                && (r.Failure? ==> r.error == RoleInheritanceCycle)
      ensures r.Success? ==>
                && r.value == version && rules == old(rules) + {Inherit(child, parent)}
                && if Inherit(child, parent) in old(rules) then View() == old(View())
                   else version == old(version) + 1 &&
                        audits == old(audits) + [Audit(version, Action.AddRoleInheritance, child, {}, [parent], meta)]
      ensures Write(old(View()), Known(), Op.Add(child, parent, expected, meta), View(), r)
    {
      ghost var db := View();
      var state := LockPolicyState(expected);
      if state.Failure? {
        return Failure(state.error);
      }
      var graph := BuildGraph(rules);
      var path := RolePathExists(graph, parent, child);
      if path {
        return Failure(RoleInheritanceCycle);
      }
      if Inherit(child, parent) in rules {
        return Success(state.value);
      }
      rules := rules + {Inherit(child, parent)};
      r := RecordPolicyMutation(Action.AddRoleInheritance, child, {}, [parent], meta);
      AfterWrite(db, Op.Add(child, parent, expected, meta), r);
    }

    /** Deletes an inheritance edge; deleting an absent one is a success without a version step. */
    method DeleteRoleInheritance(child: string, parent: string, expected: Option<int>, meta: Meta)
      returns (r: Result<nat, AccessError>)
      requires Valid() && MayWrite(Op.Delete(child, parent, expected, meta))
      modifies this`rules, this`version, this`audits
      ensures Valid() && Evolves(base, old(View()), View())
      ensures expected.Some? && expected.value != old(version) ==>
                r == Failure(ConcurrentModification) && View() == old(View())
      ensures r.Failure? ==> View() == old(View())
      ensures r.Success? <==> expected.None? || expected.value == old(version)
      ensures r.Success? ==>
                && r.value == version && rules == old(rules) - {Inherit(child, parent)}
                && if Inherit(child, parent) !in old(rules) then View() == old(View())
                   else version == old(version) + 1 &&
                        audits == old(audits) + [Audit(version, Action.DeleteRoleInheritance, child, {parent}, [], meta)]
      ensures Write(old(View()), Known(), Op.Delete(child, parent, expected, meta), View(), r)
    {
      ghost var db := View();
      var state := LockPolicyState(expected);
      if state.Failure? {
        return Failure(state.error);
      }
      var row := Inherit(child, parent);
      var deleted := if row in rules then 1 else 0;
      if deleted == 0 {
        return Success(state.value);
      }
      rules := rules - {row};
      r := RecordPolicyMutation(Action.DeleteRoleInheritance, child, {parent}, [], meta);
      AfterWrite(db, Op.Delete(child, parent, expected, meta), r);
    }

    lemma AllKnownMeans(perms: seq<string>)
      ensures (!exists p | p in perms :: p != "" && WILDCARD !in p && p !in Known()) <==>
              forall p | p in perms :: p == "" || '*' in p || (p, 1) in catalog
    {
      forall p ensures p in Known() <==> (p, 1) in catalog {
        if (p, 1) in catalog { assert (p, 1).0 in Known(); }
      }
    }

    /** What every committed write leaves behind. */
    lemma AfterWrite(db: PolicyDb, op: Op, r: Result<nat, AccessError>)
      requires History(base, db) && (repositoryOnly ==> VersionsWellFormed(base, db)) && MayWrite(op)
      requires Write(db, Known(), op, View(), r)
      ensures Valid() && Evolves(base, db, View())
    {
      WriteKeepsHistory(base, db, Known(), op, View(), r);
      if repositoryOnly {
        WriteKeepsVersionsWellFormed(base, db, Known(), op, View(), r);
      }
    }

    /** Advances the version and appends the audit row in the same transaction. */
    method RecordPolicyMutation(action: Action, target: string, before: set<string>, after: seq<string>, meta: Meta)
      returns (r: Result<nat, AccessError>)
      modifies this`version, this`audits
      ensures version == old(version) + 1 && r == Success(version)
      ensures audits == old(audits) + [Audit(version, action, target, before, after, meta)]
    {
      version := version + 1;
      audits := audits + [Audit(version, action, target, before, after, meta)];
      r := Success(version);
    }

    /** One write by somebody else. */
    method OtherWriter(op: Op)
      requires Valid() && MayWrite(op)
      modifies this`rules, this`version, this`audits
      ensures Valid() && Evolves(base, old(View()), View())
      ensures exists r :: Write(old(View()), Known(), op, View(), r)
    {
      match op
      case Replace(role, perms, expected, meta) => var r := ReplaceRolePermissions(role, perms, expected, meta);
      case Add(child, parent, expected, meta) => var r := AddRoleInheritance(child, parent, expected, meta);
      case Delete(child, parent, expected, meta) => var r := DeleteRoleInheritance(child, parent, expected, meta);
    }

    /** Any number of commits by other writers. */
    method OtherWriters()
      requires Valid()
      modifies this`rules, this`version, this`audits
      ensures Valid() && Evolves(base, old(View()), View())
      ensures CommitsLead(Known(), old(View()), View())
    {
      ghost var db0 := View();
      var n: nat := *;
      NoCommits(Known(), db0);
      while n > 0
        invariant Valid() && Evolves(base, db0, View())
        invariant CommitsLead(Known(), db0, View())
      {
        var op := SomeWrite();
        ghost var db := View();
        OtherWriter(op);
        ghost var r :| Write(db, Known(), op, View(), r);
        OneMoreCommit(Known(), db0, db, op, View(), r);
        n := n - 1;
      }
    }

    /** Any write the writers may issue. */
    method SomeWrite() returns (op: Op)
      ensures MayWrite(op)
    {
      op := *;
      if repositoryOnly && !FromRepository(op) {
        op := Replace("", [], None, Meta("", "", ""));
      }
    }

    /** One read of the version; it may fail. */
    method PolicyVersion() returns (r: Option<nat>)
      requires Valid()
      modifies this
      ensures Valid() && Evolves(base, old(View()), View())
      ensures r.Some? ==> r.value == version
      ensures CommitsLead(Known(), old(View()), View())
      ensures failedReads == old(failedReads) + if r.None? then 1 else 0
      ensures readCount == old(readCount) + 1
    {
      OtherWriters();
      var fails: bool := *;
      failedReads, readCount := failedReads + (if fails then 1 else 0), readCount + 1;
      r := if fails then None else Some(version);
    }

    /** One read of all rows; it may fail. */
    method LoadPolicyRows() returns (r: Option<set<Rule>>)
      requires Valid()
      modifies this
      ensures Valid() && Evolves(base, old(View()), View())
      ensures r.Some? ==> r.value == rules
      ensures CommitsLead(Known(), old(View()), View())
      ensures failedReads == old(failedReads) + if r.None? then 1 else 0
      ensures readCount == old(readCount) + 1
    {
      OtherWriters();
      var fails: bool := *;
      failedReads, readCount := failedReads + (if fails then 1 else 0), readCount + 1;
      r := if fails then None else Some(rules);
    }
  }

  /** Adjacency lists of the `g` rows, in whatever order the rows come. */
  method BuildGraph(rules: set<Rule>) returns (graph: Graph)
    ensures EdgesOf(graph) == Edges(rules)
  {
    graph := map[];
    var todo := set r | r in rules && r.Inherit?;
    while todo != {}
      invariant todo <= rules && forall r | r in todo :: r.Inherit?
      invariant EdgesOf(graph) == Edges(rules - todo)
      decreases |todo|
    {
      var rule :| rule in todo;
      ghost var done := rules - todo;
      ghost var old_ := graph;
      graph := graph[rule.child := Neighbours(graph, rule.child) + [rule.parent]];
      AppendNeighbour(old_, rule.child, rule.parent);
      todo := todo - {rule};
      assert rules - todo == done + {rule};
      EdgesPlus(done, rule.child, rule.parent);
    }
    assert Edges(rules - todo) == Edges(rules);
  }

  lemma AppendNeighbour(g: Graph, child: string, parent: string)
    ensures EdgesOf(g[child := Neighbours(g, child) + [parent]]) == EdgesOf(g) + {(child, parent)}
  {
    var h := g[child := Neighbours(g, child) + [parent]];
    forall a, b ensures (a, b) in EdgesOf(h) <==> (a, b) in EdgesOf(g) + {(child, parent)} {
      NeighboursAreEdges(h, a, b);
      NeighboursAreEdges(g, a, b);
    }
    assert EdgesOf(h) == EdgesOf(g) + {(child, parent)} by {
      forall x ensures x in EdgesOf(h) <==> x in EdgesOf(g) + {(child, parent)} {
        assert x == (x.0, x.1);
      }
    }
  }

  lemma UnknownCodes(b: RoleBinding, perms: seq<string>, known: set<string>)
    requires forall c :: c in b.codes <==> !c.IsZero() && c.value in perms
    ensures (forall c | c in b.codes :: c.HasWildcard() || c.value in known) <==>
            !exists p | p in perms :: p != "" && WILDCARD !in p && p !in known
  {
    forall p | p in perms && p != "" ensures PermissionCode(p) in b.codes {
    }
  }

  /** A binding of parsed codes holds exactly the non-empty strings given. */
  lemma BindingCodes(b: RoleBinding, codes: seq<PermissionCode>, perms: seq<string>)
    requires codes == Parsed(perms) && b.CodeStrings() == Listing(Values(codes))
    ensures forall c :: c in b.codes <==> !c.IsZero() && c.value in perms
  {
    var strings := b.CodeStrings();
    forall c ensures c in b.codes <==> !c.IsZero() && c.value in perms {
      if c in b.codes {
        var i :| 0 <= i < |b.codes| && b.codes[i] == c;
        assert strings[i] in Listing(Values(codes));
      }
      if !c.IsZero() && c.value in perms {
        assert c in codes;
        assert c.value in Values(codes);
        var i :| 0 <= i < |strings| && strings[i] == c.value;
        assert b.codes[i] == c;
      }
    }
  }
}
