/**
  The permission tree as a view of a flat node list: the cycle check for re-parenting and the menu
  selection with its ancestor completion. Both run on any stored data, well-formed or not.
 */
module PermissionTrees {
  import opened Wrappers
  import opened AccessErrors
  import opened PermissionCodes
  import opened ParentMaps

  const TYPE_DIR := 1
  const TYPE_BUTTON := 3
  const STATUS_DISABLED := 0
  const STATUS_ENABLED := 1

  datatype Attributes = Attributes(path: string, component: string, icon: string, sort: int, visible: bool)

  datatype Permission = Permission(id: int, parentId: int, name: string, code: PermissionCode,
                                   typ: int, status: int, attributes: Attributes) {
    predicate IsRoot() { parentId == ROOT }
    predicate IsMenuNode() { typ != TYPE_BUTTON }
    predicate Enabled() { status == STATUS_ENABLED }

    /** The first invariant of a node that these fields break, read back from a stored row. */
    function Violation(): Option<AccessError> {
      if !ValidCode(code.value) then Some(InvalidPermissionCode)
      else if name == "" then Some(EmptyPermissionName)
      else if !(TYPE_DIR <= typ <= TYPE_BUTTON) then Some(InvalidPermissionType)
      else if status != STATUS_DISABLED && status != STATUS_ENABLED then Some(InvalidPermissionStatus)
      else if code.HasWildcard() then Some(InvalidPermissionCode)
      else if !IsMenuNode() && code.IsZero() then Some(ButtonRequiresCode)
      else None
    }
  }

  /** The error of the first row that is no node, in row order. */
  function FirstViolation(rows: seq<Permission>): Option<AccessError> {
    if rows == [] then None
    else if rows[0].Violation().Some? then rows[0].Violation()
    else FirstViolation(rows[1..])
  }

  lemma {:induction false} FirstViolationFacts(rows: seq<Permission>)
    ensures FirstViolation(rows).None? <==> forall p | p in rows :: p.Violation().None?
    ensures FirstViolation(rows).Some? ==> exists p :: p in rows && p.Violation() == FirstViolation(rows)
  {
    if rows != [] {
      FirstViolationFacts(rows[1..]);
      assert rows == [rows[0]] + rows[1..];
    }
  }

  /** Reads the rows back one by one and stops at the first that is no node. */
  method RehydrateRows(rows: seq<Permission>) returns (r: Result<seq<Permission>, AccessError>)
    ensures match FirstViolation(rows) case Some(e) => r == Failure(e) case None => r == Success(rows)
  {
    var out: seq<Permission> := [];
    for i := 0 to |rows|
      invariant out == rows[..i] && FirstViolation(rows) == FirstViolation(rows[i..])
    {
      assert rows[i..][0] == rows[i] && rows[i..][1..] == rows[i + 1..];
      if rows[i].Violation().Some? {
        return Failure(rows[i].Violation().value);
      }
      out := out + [rows[i]];
    }
    assert rows[|rows|..] == [] && rows[..|rows|] == rows;
    r := Success(out);
  }

  datatype PermissionTree = PermissionTree(byId: map<int, Permission>, all: seq<Permission>)

  /** The node of each id; the last one listed wins. */
  function IndexById(perms: seq<Permission>): map<int, Permission> {
    if perms == [] then map[]
    else
      var last := perms[|perms| - 1];
      IndexById(perms[..|perms| - 1])[last.id := last]
  }

  lemma {:induction false} IndexFacts(perms: seq<Permission>)
    ensures forall id | id in IndexById(perms) :: IndexById(perms)[id].id == id && IndexById(perms)[id] in perms
    ensures forall p | p in perms :: p.id in IndexById(perms)
    decreases |perms|
  {
    if perms != [] {
      var n := |perms| - 1;
      assert perms == perms[..n] + [perms[n]];
      IndexFacts(perms[..n]);
    }
  }

  predicate Indexed(t: PermissionTree) {
    t.byId == IndexById(t.all)
  }

  method NewPermissionTree(perms: seq<Permission>) returns (t: PermissionTree)
    ensures Indexed(t) && t.all == perms
  {
    var byId: map<int, Permission> := map[];
    for i := 0 to |perms|
      invariant byId == IndexById(perms[..i])
    {
      assert perms[..i + 1][..i] == perms[..i];
      byId := byId[perms[i].id := perms[i]];
    }
    assert perms[..|perms|] == perms;
    t := PermissionTree(byId, perms);
  }

  /** The index holds an entry per listed id: the last node listed with it. */
  lemma {:induction false} LastWins(perms: seq<Permission>, k: nat)
    requires k < |perms| && forall j | k < j < |perms| :: perms[j].id != perms[k].id
    ensures perms[k].id in IndexById(perms) && IndexById(perms)[perms[k].id] == perms[k]
    decreases |perms|
  {
    if k < |perms| - 1 {
      LastWins(perms[..|perms| - 1], k);
    }
  }

  function Parents(byId: map<int, Permission>): map<int, int> {
    map id | id in byId :: byId[id].parentId
  }

  // ---------- the cycle check ----------

  /** The pointers a climb may follow when `id` is about to be moved. */
  function Others(byId: map<int, Permission>, id: int): map<int, int> {
    Parents(byId) - {ROOT, id}
  }

  /**
    Whether `id` may hang below `newParent`, for any stored pointers. The climb from `newParent` that
    stops at `id` and at the root decides: it reaches the root, it meets a missing node, or it comes back
    to `id` or runs in circles.
   */
  method EnsureNoCycle(t: PermissionTree, id: int, newParent: int) returns (err: Option<AccessError>)
    requires Indexed(t)
    ensures err == None <==> EndsAt(Others(t.byId, id), newParent, ROOT)
    ensures err == Some(PermissionNotFound) <==>
            exists x :: x != ROOT && x != id && EndsAt(Others(t.byId, id), newParent, x)
    ensures err == None || err == Some(PermissionNotFound) || err == Some(PermissionCycle)
  {
    ghost var m := Others(t.byId, id);
    AboveSelf(m, newParent);
    if newParent == ROOT {
      EndDecides(m, newParent, ROOT);
      return None;
    }
    if newParent == id {
      EndDecides(m, newParent, id);
      return Some(PermissionCycle);
    }
    var visited: set<int> := {};
    var cursor := newParent;
    while true
      invariant cursor != ROOT && cursor != id
      invariant visited <= m.Keys
      invariant Above(m, newParent, cursor)
      invariant newParent in visited + {cursor}
      invariant forall v | v in visited :: m[v] in visited + {cursor}
      decreases |m.Keys - visited|
    {
      if cursor in visited {
        NeverEnds(m, visited, newParent);
        return Some(PermissionCycle);
      }
      if cursor !in t.byId {
        EndDecides(m, newParent, cursor);
        assert cursor != ROOT && cursor != id && EndsAt(m, newParent, cursor);
        return Some(PermissionNotFound);
      }
      assert cursor in m.Keys - visited;
      assert m.Keys - (visited + {cursor}) == (m.Keys - visited) - {cursor};
      visited := visited + {cursor};
      var node := t.byId[cursor];
      assert m[cursor] == node.parentId;
      AboveSnoc(m, newParent, cursor);
      if node.parentId == ROOT {
        EndDecides(m, newParent, ROOT);
        return None;
      }
      if node.parentId == id {
        EndDecides(m, newParent, id);
        return Some(PermissionCycle);
      }
      cursor := node.parentId;
    }
  }

  lemma EndDecides(m: map<int, int>, a: int, x: int)
    requires EndsAt(m, a, x)
    ensures forall y :: EndsAt(m, a, y) <==> y == x
  {
    forall y | EndsAt(m, a, y) ensures y == x {
      EndIsUnique(m, a, x, y);
    }
  }

  lemma NeverEnds(m: map<int, int>, s: set<int>, a: int)
    requires s <= m.Keys && a in s && forall v | v in s :: m[v] in s
    ensures forall y :: !EndsAt(m, a, y)
  {
    forall y ensures !EndsAt(m, a, y) {
      if EndsAt(m, a, y) {
        var k: nat :| Climbs(m, a, y, k);
        ClosedKeepsClimb(m, s, a, y, k);
      }
    }
  }

  /**
    On well-formed data the check accepts exactly the moves that leave a forest, and calls the parent
    missing exactly when it is missing.
   */
  lemma CheckIsExactOnForests(byId: map<int, Permission>, id: int, newParent: int)
    requires Forest(Parents(byId)) && id != ROOT
    ensures EndsAt(Others(byId, id), newParent, ROOT) <==>
            newParent == ROOT || (newParent in byId && Forest(Parents(byId)[id := newParent]))
    ensures (exists x :: x != ROOT && x != id && EndsAt(Others(byId, id), newParent, x)) <==>
            newParent != ROOT && newParent != id && newParent !in byId
  {
    var m, n := Parents(byId), Others(byId, id);
    AboveSelf(n, newParent);
    if newParent in m {
      assert EndsAt(m, newParent, ROOT);
      var k: nat :| Climbs(m, newParent, ROOT, k);
      AvoidsOrVisits(m, id, newParent, k);
      if EndsAt(n, newParent, ROOT) {
        EndDecides(n, newParent, ROOT);
        ReparentKeepsForest(m, id, newParent);
      } else {
        EndDecides(n, newParent, id);
        if Forest(m[id := newParent]) { ForestAvoids(m, id, newParent); }
      }
    } else {
      assert EndsAt(n, newParent, newParent);
      EndDecides(n, newParent, newParent);
    }
  }

  // ---------- visible menus ----------

  /** Some granted code covers the target. */
  predicate GrantedCovers(granted: seq<PermissionCode>, target: PermissionCode) {
    exists i :: 0 <= i < |granted| && granted[i].Covers(target)
  }

  predicate IsHit(p: Permission, granted: seq<PermissionCode>) {
    !p.code.IsZero() && p.Enabled() && GrantedCovers(granted, p.code)
  }

  function Hits(all: seq<Permission>, granted: seq<PermissionCode>): set<int> {
    set p | p in all && IsHit(p, granted) :: p.id
  }

  /** The pointers to parents that exist. */
  function FoundParents(byId: map<int, Permission>): map<int, int> {
    map id | id in byId && !byId[id].IsRoot() && byId[id].parentId in byId :: byId[id].parentId
  }

  /** The given nodes and everything above them. */
  ghost function UpFrom(byId: map<int, Permission>, hits: set<int>): set<int> {
    set a | a in byId && exists h :: h in hits && Above(FoundParents(byId), h, a)
  }

  /** The non-button nodes among the given ids, in listing order. */
  function SelectMenus(all: seq<Permission>, ids: set<int>): seq<Permission> {
    if all == [] then []
    else
      var n := |all| - 1;
      SelectMenus(all[..n], ids) + (if all[n].id in ids && all[n].IsMenuNode() then [all[n]] else [])
  }

  /** Selection keeps order and multiplicity: it works node by node. */
  lemma {:induction false} SelectMenusConcat(a: seq<Permission>, b: seq<Permission>, ids: set<int>)
    ensures SelectMenus(a + b, ids) == SelectMenus(a, ids) + SelectMenus(b, ids)
    decreases |b|
  {
    if b == [] {
      assert a + b == a;
    } else {
      var n := |b| - 1;
      assert (a + b)[..|a| + n] == a + b[..n];
      SelectMenusConcat(a, b[..n], ids);
    }
  }

  lemma {:induction false} SelectMenusMembers(all: seq<Permission>, ids: set<int>, p: Permission)
    ensures p in SelectMenus(all, ids) <==> p in all && p.id in ids && p.IsMenuNode()
    ensures multiset(SelectMenus(all, ids))[p] <= multiset(all)[p]
    decreases |all|
  {
    if all != [] {
      var n := |all| - 1;
      assert all == all[..n] + [all[n]];
      SelectMenusMembers(all[..n], ids, p);
    }
  }

  /**
    The menus of a principal. The second phase ranges over the set while inserting into it: an inserted
    id may or may not be ranged itself, and the ids come in any order.
   */
  method VisibleMenus(t: PermissionTree, granted: seq<PermissionCode>) returns (out: seq<Permission>)
    requires Indexed(t)
    ensures out == SelectMenus(t.all, UpFrom(t.byId, Hits(t.all, granted)))
    ensures forall p | p in t.all && p.typ in {1, 2} && p.status == 1 && p.code.value != ""
                       && (exists g | g in granted :: g.Covers(p.code)) :: p in out
    ensures forall p | p in out :: p.typ != 3
    ensures forall p ::
              p in out <==>
              && p in t.all && p.typ != 3
              && exists q | q in t.all && q.status == 1 && q.code.value != ""
                            && (exists g | g in granted :: g.Covers(q.code)) :: Above(ParentRows(t), q.id, p.id)
  {
    var visible := DirectHits(t, granted);
    IndexFacts(t.all);
    ghost var hits := visible;
    UpFromClosed(t.byId, hits);
    visible := CompleteAncestors(t.byId, visible, UpFrom(t.byId, hits));
    ClosedIsUpFrom(t.byId, hits, visible);
    out := ListMenus(t.all, visible);
    VisibleOnFields(t, granted, out);
  }

  /** The same, on the fields of the nodes. */
  lemma VisibleOnFields(t: PermissionTree, granted: seq<PermissionCode>, out: seq<Permission>)
    requires Indexed(t) && out == SelectMenus(t.all, UpFrom(t.byId, Hits(t.all, granted)))
    ensures forall p | p in t.all && p.typ in {1, 2} && p.status == 1 && p.code.value != ""
                       && (exists g | g in granted :: g.Covers(p.code)) :: p in out
    ensures forall p | p in out :: p.typ != 3
    ensures forall p ::
              p in out <==>
              && p in t.all && p.typ != 3
              && exists q | q in t.all && q.status == 1 && q.code.value != ""
                            && (exists g | g in granted :: g.Covers(q.code)) :: Above(ParentRows(t), q.id, p.id)
  {
    forall p
      ensures p in out <==>
              && p in t.all && p.typ != 3
              && exists q | q in t.all && q.status == 1 && q.code.value != ""
                            && (exists g | g in granted :: g.Covers(q.code)) :: Above(ParentRows(t), q.id, p.id)
    {
      VisibleNode(t, granted, out, p);
    }
    forall p | p in t.all && p.typ in {1, 2} && p.status == 1 && p.code.value != ""
               && (exists g | g in granted :: g.Covers(p.code))
      ensures p in out
    {
      AboveSelf(ParentRows(t), p.id);
      VisibleNode(t, granted, out, p);
    }
  }

  lemma VisibleNode(t: PermissionTree, granted: seq<PermissionCode>, out: seq<Permission>, p: Permission)
    requires Indexed(t) && out == SelectMenus(t.all, UpFrom(t.byId, Hits(t.all, granted)))
    ensures p in out <==>
            && p in t.all && p.typ != 3
            && exists q | q in t.all && GrantedNode(q, granted) :: Above(ParentRows(t), q.id, p.id)
  {
    SelectMenusMembers(t.all, UpFrom(t.byId, Hits(t.all, granted)), p);
    if p in t.all {
      IndexFacts(t.all);
      HitsOnFields(t, granted);
      AboveAHit(t, granted, p.id);
    }
  }

  /** The pointers a climb follows: to parents that are rows of the table. */
  function ParentRows(t: PermissionTree): (m: map<int, int>)
    ensures forall id :: id in m <==> id in t.byId && t.byId[id].parentId != 0 && t.byId[id].parentId in t.byId
    ensures forall id | id in m :: m[id] == t.byId[id].parentId
  {
    FoundParents(t.byId)
  }

  predicate GrantedNode(p: Permission, granted: seq<PermissionCode>) {
    p.status == 1 && p.code.value != "" && exists g | g in granted :: g.Covers(p.code)
  }

  lemma HitsOnFields(t: PermissionTree, granted: seq<PermissionCode>)
    ensures forall p :: IsHit(p, granted) <==> GrantedNode(p, granted)
  {
    forall p: Permission ensures GrantedCovers(granted, p.code) <==> exists g | g in granted :: g.Covers(p.code) {
      if g :| g in granted && g.Covers(p.code) {
        var i :| 0 <= i < |granted| && granted[i] == g;
      }
    }
  }

  lemma AboveAHit(t: PermissionTree, granted: seq<PermissionCode>, id: int)
    requires id in t.byId && forall p :: IsHit(p, granted) <==> GrantedNode(p, granted)
    ensures id in UpFrom(t.byId, Hits(t.all, granted)) <==>
            exists q | q in t.all && GrantedNode(q, granted) :: Above(ParentRows(t), q.id, id)
  {
    var hits := Hits(t.all, granted);
    if id in UpFrom(t.byId, hits) {
      var h :| h in hits && Above(FoundParents(t.byId), h, id);
      var q :| q in t.all && IsHit(q, granted) && q.id == h;
    }
    if q :| q in t.all && GrantedNode(q, granted) && Above(ParentRows(t), q.id, id) {
      assert q.id in hits;
    }
  }

  method ListMenus(all: seq<Permission>, visible: set<int>) returns (out: seq<Permission>)
    ensures out == SelectMenus(all, visible)
  {
    out := [];
    for i := 0 to |all|
      invariant out == SelectMenus(all[..i], visible)
    {
      assert all[..i + 1][..i] == all[..i];
      if all[i].id in visible && all[i].IsMenuNode() {
        out := out + [all[i]];
      }
    }
    assert all[..|all|] == all;
  }

  method DirectHits(t: PermissionTree, granted: seq<PermissionCode>) returns (visible: set<int>)
    ensures visible == Hits(t.all, granted)
  {
    visible := {};
    for i := 0 to |t.all|
      invariant visible == Hits(t.all[..i], granted)
    {
      assert t.all[..i + 1] == t.all[..i] + [t.all[i]];
      var p := t.all[i];
      if p.code.IsZero() || !p.Enabled() {
        assert Hits(t.all[..i + 1], granted) == Hits(t.all[..i], granted);
        continue;
      }
      if GrantedCovers(granted, p.code) {
        assert IsHit(p, granted);
        visible := visible + {p.id};
      }
    }
    assert t.all[..|t.all|] == t.all;
  }

  /** What holds between climbs: every mark is wanted, and a marked id not to be ranged has its parent marked. */
  ghost predicate Climbing(up: map<int, int>, goal: set<int>, visible: set<int>, todo: set<int>, cur: set<int>) {
    && todo <= visible <= goal
    && forall v | v in visible && v in up && v !in cur :: up[v] in visible || v in todo
  }

  /** A set of nodes of the tree that holds the parent of each of its members. */
  ghost predicate UpClosed(byId: map<int, Permission>, goal: set<int>) {
    && goal <= byId.Keys
    && forall v | v in goal && v in FoundParents(byId) :: FoundParents(byId)[v] in goal
  }

  method CompleteAncestors(byId: map<int, Permission>, hits: set<int>, ghost goal: set<int>)
    returns (visible: set<int>)
    requires (forall id | id in byId :: byId[id].id == id) && UpClosed(byId, goal) && hits <= goal
    ensures hits <= visible && Climbing(FoundParents(byId), goal, visible, {}, {})
  {
    visible := hits;
    var todo := visible;
    while todo != {}
      invariant hits <= visible && Climbing(FoundParents(byId), goal, visible, todo, {})
      decreases |byId.Keys - visible|, |todo|
    {
      HasMember(todo);
      var id :| id in todo;
      ghost var before := visible;
      visible, todo := ClimbFrom(byId, id, visible, todo - {id}, goal);
      Fewer(byId.Keys, before, visible);
    }
  }

  /** The inner loop: mark parents until a root, a missing parent or a marked one. */
  method ClimbFrom(byId: map<int, Permission>, id: int, visible0: set<int>, todo0: set<int>, ghost goal: set<int>)
    returns (visible: set<int>, todo: set<int>)
    requires (forall i | i in byId :: byId[i].id == i) && UpClosed(byId, goal)
    requires id in visible0 && Climbing(FoundParents(byId), goal, visible0, todo0, {id})
    ensures Climbing(FoundParents(byId), goal, visible, todo, {})
    ensures visible0 <= visible && (visible == visible0 ==> todo == todo0)
  {
    ghost var up := FoundParents(byId);
    visible, todo := visible0, todo0;
    var cur := byId[id];
    while !cur.IsRoot()
      invariant Climbing(up, goal, visible, todo, {cur.id})
      invariant cur.id in visible && byId[cur.id] == cur
      invariant visible0 <= visible && (visible == visible0 ==> todo == todo0)
      decreases |byId.Keys - visible|
    {
      if cur.parentId !in byId {
        break;
      }
      var parent := byId[cur.parentId];
      if parent.id in visible {
        break;
      }
      assert up[cur.id] == parent.id;
      Fewer(byId.Keys, visible, visible + {parent.id});
      visible := visible + {parent.id};
      var ranged: bool := *;
      if ranged {
        todo := todo + {parent.id};
      }
      cur := parent;
    }
  }

  lemma HasMember(s: set<int>)
    ensures s == {} || exists x :: x in s
  {
    if forall x :: x !in s {
      assert s == {};
    }
  }

  lemma Fewer(keys: set<int>, a: set<int>, b: set<int>)
    requires a <= b <= keys
    ensures a == b || |keys - b| < |keys - a|
  {
    if a != b {
      assert keys - a == (keys - b) + (b - a);
      assert b - a != {};
    }
  }

  lemma UpFromClosed(byId: map<int, Permission>, hits: set<int>)
    requires hits <= byId.Keys
    ensures UpClosed(byId, UpFrom(byId, hits)) && hits <= UpFrom(byId, hits)
  {
    var up := FoundParents(byId);
    forall h | h in hits ensures h in UpFrom(byId, hits) {
      AboveSelf(up, h);
    }
    forall v | v in UpFrom(byId, hits) && v in up ensures up[v] in UpFrom(byId, hits) {
      var h :| h in hits && Above(up, h, v);
      AboveSnoc(up, h, v);
    }
  }

  lemma ClosedIsUpFrom(byId: map<int, Permission>, hits: set<int>, visible: set<int>)
    requires hits <= visible && Climbing(FoundParents(byId), UpFrom(byId, hits), visible, {}, {})
    ensures visible == UpFrom(byId, hits)
  {
    var up := FoundParents(byId);
    forall a | a in UpFrom(byId, hits) ensures a in visible {
      var h :| h in hits && Above(up, h, a);
      var k: nat :| Climbs(up, h, a, k);
      ClosedKeepsClimb(up, visible, h, a, k);
    }
  }
}
