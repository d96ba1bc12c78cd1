/**
  Writes to the permission tree under one locked state row with an optional expected revision. Whatever
  mix of creates, updates and deletes is run, the stored parent pointers stay a forest.
 */
module PermissionRepos {
  import opened Wrappers
  import opened AccessErrors
  import opened PermissionCodes
  import opened ParentMaps
  import opened PermissionTrees

  datatype TreeDb = TreeDb(nodes: map<int, Permission>, revision: nat)

  datatype TreeOp =
    | Create(node: Permission)
    | Update(node: Permission, expected: Option<int>)
    | Delete(id: int, expected: Option<int>)

  ghost predicate WellFormedTree(db: TreeDb) {
    && Forest(Parents(db.nodes))
    && (forall id | id in db.nodes :: db.nodes[id].id == id)
    && UniqueCodes(db.nodes)
  }

  predicate UniqueCodes(nodes: map<int, Permission>) {
    forall a, b | a in nodes && b in nodes && a != b ::
      nodes[a].code.IsZero() || nodes[a].code != nodes[b].code
  }

  /** The unique index on the code column, violated by a row other than `id`. */
  predicate CodeTaken(nodes: map<int, Permission>, id: int, code: PermissionCode) {
    !code.IsZero() && exists a :: a in nodes && a != id && nodes[a].code == code
  }

  predicate Stale(db: TreeDb, expected: Option<int>) {
    expected.Some? && expected.value != db.revision
  }

  /** Every row is a node. */
  predicate Readable(nodes: map<int, Permission>) {
    forall id | id in nodes :: nodes[id].Violation().None?
  }

  /** The first check the write fails, in the order the checks run, on rows that are all nodes. */
  ghost function Refusal(db: TreeDb, enabled: set<string>, op: TreeOp): Option<AccessError> {
    match op
    case Create(p) =>
      if p.parentId != ROOT && p.parentId !in db.nodes then Some(PermissionNotFound)
      else if !p.code.IsZero() && p.code.value !in enabled then Some(UnknownPermissionCode)
      else if CodeTaken(db.nodes, p.id, p.code) then Some(PermissionCodeDuplicated)
      else p.Violation()
    case Update(p, expected) =>
      var climb := Others(db.nodes, p.id);
      if Stale(db, expected) then Some(ConcurrentModification)
      else if exists x :: x != ROOT && x != p.id && EndsAt(climb, p.parentId, x) then Some(PermissionNotFound)
      else if !EndsAt(climb, p.parentId, ROOT) then Some(PermissionCycle)
      else if !p.code.IsZero() && p.code.value !in enabled then Some(UnknownPermissionCode)
      else if p.id !in db.nodes then Some(PermissionNotFound)
      else if CodeTaken(db.nodes, p.id, p.code) then Some(PermissionCodeDuplicated)
      else p.Violation()
    case Delete(id, expected) =>
      if Stale(db, expected) then Some(ConcurrentModification)
      else if exists a :: a in db.nodes && db.nodes[a].parentId == id && id != ROOT then Some(PermissionHasChildren)
      else if id !in db.nodes then Some(PermissionNotFound)
      else None
  }

  /** An update reads all rows first, in any order, and reports one that is no node. */
  ghost predicate Answers(db: TreeDb, enabled: set<string>, op: TreeOp, err: Option<AccessError>) {
    if op.Update? && !Stale(db, op.expected) && !Readable(db.nodes)
    then err.Some? && exists id :: id in db.nodes && db.nodes[id].Violation() == err
    else err == Refusal(db, enabled, op)
  }

  /** A refused write changes nothing; any other sets or removes one row and raises the revision by one. */
  ghost predicate Write(db: TreeDb, enabled: set<string>, op: TreeOp, db': TreeDb, err: Option<AccessError>) {
    && Answers(db, enabled, op, err)
    && (err.Some? ==> db' == db)
    && (err.None? ==>
          && db'.revision == db.revision + 1
          && db'.nodes == match op
                          case Create(p) => db.nodes[p.id := p]
                          case Update(p, _) => db.nodes[p.id := p]
                          case Delete(id, _) => db.nodes - {id})
  }

  /** The database numbers a new row with an id that no row has; zero stands for the root and is never used. */
  predicate FreshId(db: TreeDb, op: TreeOp) {
    op.Create? ==> op.node.id != ROOT && op.node.id !in db.nodes
  }

  lemma ParentsOfUpdate(nodes: map<int, Permission>, p: Permission)
    ensures Parents(nodes[p.id := p]) == Parents(nodes)[p.id := p.parentId]
  {
  }

  lemma ParentsOfRemoval(nodes: map<int, Permission>, id: int)
    ensures Parents(nodes - {id}) == Parents(nodes) - {id}
  {
  }

  lemma WriteKeepsTree(db: TreeDb, enabled: set<string>, op: TreeOp, db': TreeDb, err: Option<AccessError>)
    requires WellFormedTree(db) && FreshId(db, op) && Write(db, enabled, op, db', err)
    ensures WellFormedTree(db')
  {
    if err.None? {
      match op
      case Create(p) =>
        ParentsOfUpdate(db.nodes, p);
        LeafKeepsForest(Parents(db.nodes), p.id, p.parentId);
        CodesAfter(db.nodes, p);
      case Update(p, _) =>
        ParentsOfUpdate(db.nodes, p);
        assert p.id in Parents(db.nodes);
        ReparentKeepsForest(Parents(db.nodes), p.id, p.parentId);
        CodesAfter(db.nodes, p);
      case Delete(id, _) =>
        ParentsOfRemoval(db.nodes, id);
        assert id in Parents(db.nodes);
        RemoveLeafKeepsForest(Parents(db.nodes), id);
    }
  }

  lemma CodesAfter(nodes: map<int, Permission>, p: Permission)
    requires UniqueCodes(nodes) && !CodeTaken(nodes, p.id, p.code)
    ensures UniqueCodes(nodes[p.id := p])
  {
  }

  /** The keys of the table; the id column never holds the root's. */
  ghost predicate Keyed(db: TreeDb) {
    ROOT !in db.nodes && (forall id | id in db.nodes :: db.nodes[id].id == id) && UniqueCodes(db.nodes)
  }

  lemma WriteKeepsKeys(db: TreeDb, enabled: set<string>, op: TreeOp, db': TreeDb, err: Option<AccessError>)
    requires Keyed(db) && FreshId(db, op) && Write(db, enabled, op, db', err)
    ensures Keyed(db')
  {
    if err.None? {
      match op
      case Create(p) => CodesAfter(db.nodes, p);
      case Update(p, _) => CodesAfter(db.nodes, p);
      case Delete(_, _) =>
    }
  }

  /** No write stores a row that could not be read back. */
  lemma WriteKeepsReadable(db: TreeDb, enabled: set<string>, op: TreeOp, db': TreeDb, err: Option<AccessError>)
    requires Readable(db.nodes) && Write(db, enabled, op, db', err)
    ensures Readable(db'.nodes)
  {
  }

  /** On reachable trees a re-parenting is refused as a cycle exactly when it would break the forest. */
  lemma UpdateRefusedIffNotForest(db: TreeDb, enabled: set<string>, p: Permission, expected: Option<int>)
    requires WellFormedTree(db) && p.id != ROOT && !Stale(db, expected)
    ensures Refusal(db, enabled, Update(p, expected)) == Some(PermissionCycle) <==>
            p.parentId == p.id || (p.parentId in db.nodes && !Forest(Parents(db.nodes)[p.id := p.parentId]))
  {
    CheckIsExactOnForests(db.nodes, p.id, p.parentId);
    if p.parentId == p.id {
      AboveSelf(Others(db.nodes, p.id), p.id);
      if EndsAt(Others(db.nodes, p.id), p.id, ROOT) { EndIsUnique(Others(db.nodes, p.id), p.id, p.id, ROOT); }
      forall x | EndsAt(Others(db.nodes, p.id), p.id, x) ensures x == p.id {
        EndIsUnique(Others(db.nodes, p.id), p.id, p.id, x);
      }
    }
  }

  // ---------- on the fields ----------

  /** What a row must be to be read back as a node. */
  lemma NodesOnFields(p: Permission)
    ensures p.Violation().None? <==>
              && p.name != "" && p.typ in {1, 2, 3} && p.status in {0, 1}
              && ValidCode(p.code.value) && '*' !in p.code.value && (p.typ == 3 ==> p.code.value != "")
  {
  }

  /** A code that another row may not carry. */
  lemma CodeFree(nodes: map<int, Permission>, enabled: set<string>, p: Permission)
    ensures (p.code.IsZero() || (p.code.value in enabled && !CodeTaken(nodes, p.id, p.code))) <==>
            (p.code.value == "" || (p.code.value in enabled &&
                                    forall a | a in nodes && a != p.id :: nodes[a].code.value != p.code.value))
  {
  }

  lemma CreateOnFields(db: TreeDb, enabled: set<string>, p: Permission, db': TreeDb, err: Option<AccessError>)
    requires Write(db, enabled, TreeOp.Create(p), db', err)
    ensures err.None? <==>
              && (p.parentId == 0 || p.parentId in db.nodes)
              && (p.code.value == "" || (p.code.value in enabled &&
                                         forall a | a in db.nodes && a != p.id :: db.nodes[a].code.value != p.code.value))
              && p.Violation().None?
    ensures p.parentId != 0 && p.parentId !in db.nodes ==> err == Some(PermissionNotFound)
    ensures db' == if err.Some? then db else TreeDb(db.nodes[p.id := p], db.revision + 1)
  {
    CodeFree(db.nodes, enabled, p);
  }

  /** On a readable forest an update succeeds exactly when the row exists and its new fields fit the tree. */
  lemma UpdateOnFields(db: TreeDb, enabled: set<string>, p: Permission, expected: Option<int>,
                       db': TreeDb, err: Option<AccessError>)
    requires WellFormedTree(db) && Readable(db.nodes) && p.id != 0
    requires Write(db, enabled, TreeOp.Update(p, expected), db', err)
    ensures expected.Some? && expected.value != db.revision ==> err == Some(ConcurrentModification)
    ensures err.None? <==>
              && (expected.None? || expected.value == db.revision)
              && p.id in db.nodes
              && (p.parentId == 0 || (p.parentId in db.nodes && Forest(Parents(db.nodes)[p.id := p.parentId])))
              && (p.code.value == "" || (p.code.value in enabled &&
                                         forall a | a in db.nodes && a != p.id :: db.nodes[a].code.value != p.code.value))
              && p.Violation().None?
    ensures db' == if err.Some? then db else TreeDb(db.nodes[p.id := p], db.revision + 1)
  {
    CodeFree(db.nodes, enabled, p);
    CheckIsExactOnForests(db.nodes, p.id, p.parentId);
    var climb := Others(db.nodes, p.id);
    if x :| x != ROOT && x != p.id && EndsAt(climb, p.parentId, x) && EndsAt(climb, p.parentId, ROOT) {
      EndIsUnique(climb, p.parentId, x, ROOT);
    }
  }

  lemma DeleteOnFields(db: TreeDb, enabled: set<string>, id: int, expected: Option<int>,
                       db': TreeDb, err: Option<AccessError>)
    requires Keyed(db) && Write(db, enabled, TreeOp.Delete(id, expected), db', err)
    ensures expected.Some? && expected.value != db.revision ==> err == Some(ConcurrentModification)
    ensures err.None? <==>
              && (expected.None? || expected.value == db.revision)
              && id in db.nodes && forall a | a in db.nodes :: db.nodes[a].parentId != id
    ensures db' == if err.Some? then db else TreeDb(db.nodes - {id}, db.revision + 1)
  {
  }

  // ---------- runs ----------

  ghost predicate Run(enabled: set<string>, states: seq<TreeDb>, ops: seq<TreeOp>, errs: seq<Option<AccessError>>) {
    && |states| == |ops| + 1 && |errs| == |ops|
    && forall i | 0 <= i < |ops| ::
         FreshId(states[i], ops[i]) && Write(states[i], enabled, ops[i], states[i + 1], errs[i])
  }

  lemma {:induction false} RunsKeepTheForest(enabled: set<string>, states: seq<TreeDb>, ops: seq<TreeOp>,
                                             errs: seq<Option<AccessError>>, i: nat)
    requires Run(enabled, states, ops, errs) && WellFormedTree(states[0]) && i < |states|
    ensures WellFormedTree(states[i])
    decreases i
  {
    if i > 0 {
      RunsKeepTheForest(enabled, states, ops, errs, i - 1);
      assert FreshId(states[i - 1], ops[i - 1]);
      WriteKeepsTree(states[i - 1], enabled, ops[i - 1], states[i], errs[i - 1]);
    }
  }

  function Successes(errs: seq<Option<AccessError>>): nat {
    if errs == [] then 0 else Successes(errs[..|errs| - 1]) + (if errs[|errs| - 1].None? then 1 else 0)
  }

  /** The revision counts the successes since the start. */
  lemma {:induction false} RevisionCountsSuccesses(enabled: set<string>, states: seq<TreeDb>, ops: seq<TreeOp>,
                                                   errs: seq<Option<AccessError>>, i: nat)
    requires Run(enabled, states, ops, errs) && i < |states|
    ensures states[i].revision == states[0].revision + Successes(errs[..i])
    decreases i
  {
    if i > 0 {
      RevisionCountsSuccesses(enabled, states, ops, errs, i - 1);
      assert errs[..i][..i - 1] == errs[..i - 1];
      assert Write(states[i - 1], enabled, ops[i - 1], states[i], errs[i - 1]);
    }
  }

  lemma {:induction false} SuccessesMonotone(errs: seq<Option<AccessError>>, i: nat, j: nat)
    requires i <= j <= |errs|
    ensures Successes(errs[..i]) <= Successes(errs[..j])
    decreases j
  {
    if i < j {
      assert errs[..j][..j - 1] == errs[..j - 1];
      SuccessesMonotone(errs, i, j - 1);
    }
  }

  function Expected(op: TreeOp): Option<int> {
    if op.Create? then None else op.expected
  }

  /** Of all updates and deletes of a run that carry the same expected revision, at most one commits. */
  lemma OneCommitPerExpectedRevision(enabled: set<string>, states: seq<TreeDb>, ops: seq<TreeOp>,
                                     errs: seq<Option<AccessError>>, i: nat, j: nat)
    requires Run(enabled, states, ops, errs) && i < j < |ops|
    requires Expected(ops[i]).Some? && Expected(ops[i]) == Expected(ops[j])
    ensures errs[i].Some? || errs[j].Some?
  {
    assert Write(states[i], enabled, ops[i], states[i + 1], errs[i]);
    assert Write(states[j], enabled, ops[j], states[j + 1], errs[j]);
    RevisionCountsSuccesses(enabled, states, ops, errs, i + 1);
    RevisionCountsSuccesses(enabled, states, ops, errs, j);
    SuccessesMonotone(errs, i + 1, j);
  }

  // ---------- the repository ----------

  lemma AfterWrite(db: TreeDb, enabled: set<string>, op: TreeOp, db': TreeDb, err: Option<AccessError>)
    requires Keyed(db) && FreshId(db, op) && Write(db, enabled, op, db', err)
    ensures Keyed(db')
    ensures WellFormedTree(db) ==> WellFormedTree(db')
  {
    WriteKeepsKeys(db, enabled, op, db', err);
    if WellFormedTree(db) {
      WriteKeepsTree(db, enabled, op, db', err);
    }
  }

  /** Lists the rows in whatever order the query returns them. */
  method RowsOf(nodes: map<int, Permission>) returns (rows: seq<Permission>)
    requires forall id | id in nodes :: nodes[id].id == id
    ensures IndexById(rows) == nodes && forall p :: p in rows <==> p.id in nodes && nodes[p.id] == p
  {
    rows := [];
    var left := nodes.Keys;
    while left != {}
      invariant left <= nodes.Keys
      invariant IndexById(rows) == nodes - left
      invariant forall p :: p in rows <==> p.id in nodes && p.id !in left && nodes[p.id] == p
      decreases |left|
    {
      HasMember(left);
      var id :| id in left;
      IndexSnoc(rows, nodes[id]);
      assert (nodes - left)[id := nodes[id]] == nodes - (left - {id});
      rows := rows + [nodes[id]];
      left := left - {id};
    }
    assert nodes - left == nodes;
  }

  lemma IndexSnoc(rows: seq<Permission>, p: Permission)
    ensures IndexById(rows + [p]) == IndexById(rows)[p.id := p]
  {
    assert (rows + [p])[..|rows|] == rows;
  }

  lemma RowsAreNodes(nodes: map<int, Permission>, rows: seq<Permission>)
    requires forall id | id in nodes :: nodes[id].id == id
    requires forall p :: p in rows <==> p.id in nodes && nodes[p.id] == p
    ensures FirstViolation(rows).None? <==> Readable(nodes)
    ensures FirstViolation(rows).Some? ==> exists id :: id in nodes && nodes[id].Violation() == FirstViolation(rows)
  {
    FirstViolationFacts(rows);
    forall id | id in nodes ensures nodes[id] in rows {
    }
    if FirstViolation(rows).Some? {
      var p :| p in rows && p.Violation() == FirstViolation(rows);
      assert nodes[p.id] == p;
    }
  }

  class PermissionRepo {
    var nodes: map<int, Permission>
    var revision: nat
    /** The enabled codes of `permission_definition`. */
    const enabled: set<string>

    ghost function View(): TreeDb
      reads this
    {
      TreeDb(nodes, revision)
    }

    ghost predicate Valid()
      reads this
    {
      Keyed(View())
    }

    constructor (nodes: map<int, Permission>, revision: nat, enabled: set<string>)
      requires Keyed(TreeDb(nodes, revision))
      ensures Valid() && View() == TreeDb(nodes, revision) && this.enabled == enabled
    {
      this.nodes, this.revision, this.enabled := nodes, revision, enabled;
    }

    method LockPermissionTree(expected: Option<int>) returns (r: Result<nat, AccessError>)
      ensures r == if Stale(View(), expected) then Failure(ConcurrentModification) else Success(revision)
    {
      if expected.Some? && expected.value != revision {
        return Failure(ConcurrentModification);
      }
      r := Success(revision);
    }

    method RequirePermissionDefinition(code: PermissionCode) returns (err: Option<AccessError>)
      ensures err == if code.IsZero() || code.value in enabled then None else Some(UnknownPermissionCode)
    {
      if code.IsZero() {
        return None;
      }
      err := if code.value in enabled then None else Some(UnknownPermissionCode);
    }

    method Create(p: Permission, id: int) returns (r: Result<(Permission, nat), AccessError>)
      requires Valid() && FreshId(View(), TreeOp.Create(p.(id := id)))
      modifies this
      ensures Valid()
      ensures old(WellFormedTree(View())) ==> WellFormedTree(View())
      ensures Write(old(View()), enabled, TreeOp.Create(p.(id := id)), View(), if r.Success? then None else Some(r.error))
      ensures r.Success? ==> r.value == (p.(id := id), revision)
    {
      ghost var db := View();
      ghost var op := TreeOp.Create(p.(id := id));
      var state := LockPermissionTree(None);
      if !p.IsRoot() && p.parentId !in nodes {
        return Failure(PermissionNotFound);
      }
      var unknown := RequirePermissionDefinition(p.code);
      if unknown.Some? {
        return Failure(unknown.value);
      }
      if CodeTaken(nodes, id, p.code) {
        return Failure(PermissionCodeDuplicated);
      }
      if p.Violation().Some? {
        return Failure(p.Violation().value);
      }
      nodes := nodes[id := p.(id := id)];
      revision := state.value + 1;
      AfterWrite(db, enabled, op, View(), None);
      r := Success((p.(id := id), revision));
    }

    method Update(p: Permission, expected: Option<int>) returns (r: Result<(Permission, nat), AccessError>)
      requires Valid()
      modifies this
      ensures Valid()
      ensures old(WellFormedTree(View())) ==> WellFormedTree(View())
      ensures Write(old(View()), enabled, TreeOp.Update(p, expected), View(), if r.Success? then None else Some(r.error))
      ensures r.Success? ==> r.value == (p, revision)
    {
      ghost var db := View();
      ghost var op := TreeOp.Update(p, expected);
      var state := LockPermissionTree(expected);
      if state.Failure? {
        return Failure(state.error);
      }
      var rows := RowsOf(nodes);
      var perms := RehydrateRows(rows);
      RowsAreNodes(nodes, rows);
      if perms.Failure? {
        return Failure(perms.error);
      }
      var tree := NewPermissionTree(perms.value);
      var cycle := EnsureNoCycle(tree, p.id, p.parentId);
      if cycle.Some? {
        return Failure(cycle.value);
      }
      var unknown := RequirePermissionDefinition(p.code);
      if unknown.Some? {
        return Failure(unknown.value);
      }
      if p.id !in nodes {
        return Failure(PermissionNotFound);
      }
      if CodeTaken(nodes, p.id, p.code) {
        return Failure(PermissionCodeDuplicated);
      }
      if p.Violation().Some? {
        return Failure(p.Violation().value);
      }
      nodes := nodes[p.id := p];
      revision := state.value + 1;
      AfterWrite(db, enabled, op, View(), None);
      r := Success((p, revision));
    }

    method Delete(id: int, expected: Option<int>) returns (err: Option<AccessError>)
      requires Valid()
      modifies this
      ensures Valid()
      ensures old(WellFormedTree(View())) ==> WellFormedTree(View())
      ensures Write(old(View()), enabled, TreeOp.Delete(id, expected), View(), err)
    {
      ghost var db := View();
      var state := LockPermissionTree(expected);
      if state.Failure? {
        return Some(state.error);
      }
      // The parent column of a top-level row is NULL, so no id counts those rows as children.
      var children := set a | a in nodes && nodes[a].parentId == id && id != ROOT;
      HasMember(children);
      assert forall a | a in nodes && nodes[a].parentId == id && id != ROOT :: a in children;
      if |children| > 0 {
        return Some(PermissionHasChildren);
      }
      if id !in nodes {
        return Some(PermissionNotFound);
      }
      nodes := nodes - {id};
      revision := state.value + 1;
      err := None;
      AfterWrite(db, enabled, TreeOp.Delete(id, expected), View(), err);
    }
  }
}
