/**
  Role inheritance as a finite directed graph of (child, parent) edges: the stack search that guards
  new edges, acyclicity, and the depth-limited search the enforcer uses.
 */
module RoleGraph {

  type Edge = (string, string)

  /** A walk of exactly `k` edges from `a` to `b`. */
  ghost predicate Walk(e: set<Edge>, a: string, b: string, k: nat)
    decreases k
  {
    if k == 0 then a == b else exists m :: (a, m) in e && Walk(e, m, b, k - 1)
  }

  /** The reflexive and transitive closure of the edges. */
  ghost predicate Reaches(e: set<Edge>, a: string, b: string) {
    exists k: nat :: Walk(e, a, b, k)
  }

  /** No edge can be closed into a cycle; in particular no role is its own parent. */
  ghost predicate Acyclic(e: set<Edge>) {
    forall a, b | (a, b) in e :: !Reaches(e, b, a)
  }

  lemma ReachesSelf(e: set<Edge>, a: string)
    ensures Reaches(e, a, a)
  {
    assert Walk(e, a, a, 0);
  }

  lemma ReachesStep(e: set<Edge>, a: string, m: string, b: string)
    requires (a, m) in e && Reaches(e, m, b)
    ensures Reaches(e, a, b)
  {
    var k: nat :| Walk(e, m, b, k);
    assert Walk(e, a, b, k + 1);
  }

  lemma {:induction false} WalkThenReaches(e: set<Edge>, a: string, m: string, b: string, k: nat)
    requires Walk(e, a, m, k) && Reaches(e, m, b)
    ensures Reaches(e, a, b)
    decreases k
  {
    if k > 0 {
      var n :| (a, n) in e && Walk(e, n, m, k - 1);
      WalkThenReaches(e, n, m, b, k - 1);
      ReachesStep(e, a, n, b);
    }
  }

  lemma ReachesTransitive(e: set<Edge>, a: string, m: string, b: string)
    requires Reaches(e, a, m) && Reaches(e, m, b)
    ensures Reaches(e, a, b)
  {
    var k: nat :| Walk(e, a, m, k);
    WalkThenReaches(e, a, m, b, k);
  }

  lemma {:induction false} WalkMonotone(e: set<Edge>, f: set<Edge>, a: string, b: string, k: nat)
    requires e <= f && Walk(e, a, b, k)
    ensures Walk(f, a, b, k)
    decreases k
  {
    if k > 0 {
      var m :| (a, m) in e && Walk(e, m, b, k - 1);
      WalkMonotone(e, f, m, b, k - 1);
      assert (a, m) in f;
    }
  }

  lemma ReachesMonotone(e: set<Edge>, f: set<Edge>, a: string, b: string)
    requires e <= f && Reaches(e, a, b)
    ensures Reaches(f, a, b)
  {
    var k: nat :| Walk(e, a, b, k);
    WalkMonotone(e, f, a, b, k);
  }

  /** A set of nodes closed under the edges keeps every walk that starts in it. */
  lemma {:induction false} ClosedKeepsWalk(e: set<Edge>, s: set<string>, a: string, b: string, k: nat)
    requires forall x, y | (x, y) in e && x in s :: y in s
    requires a in s && Walk(e, a, b, k)
    ensures b in s
    decreases k
  {
    if k > 0 {
      var m :| (a, m) in e && Walk(e, m, b, k - 1);
      ClosedKeepsWalk(e, s, m, b, k - 1);
    }
  }

  /** A walk over one more edge (c, p) either avoids that edge or gets to c first and leaves from p last. */
  lemma {:induction false} WalkOverNewEdge(e: set<Edge>, c: string, p: string, a: string, b: string, k: nat)
    requires Walk(e + {(c, p)}, a, b, k)
    ensures Reaches(e, a, b) || (Reaches(e, a, c) && Reaches(e, p, b))
    decreases k
  {
    if k == 0 {
      ReachesSelf(e, a);
    } else {
      var m :| (a, m) in e + {(c, p)} && Walk(e + {(c, p)}, m, b, k - 1);
      WalkOverNewEdge(e, c, p, m, b, k - 1);
      if (a, m) in e {
        if Reaches(e, m, b) { ReachesStep(e, a, m, b); } else { ReachesStep(e, a, m, c); }
      } else {
        ReachesSelf(e, a);
      }
    }
  }

  /** Adding an edge to an acyclic graph keeps it acyclic exactly when the parent does not already reach the child. */
  lemma AddKeepsAcyclicIff(e: set<Edge>, c: string, p: string)
    requires Acyclic(e)
    ensures Acyclic(e + {(c, p)}) <==> !Reaches(e, p, c)
  {
    var f := e + {(c, p)};
    if Reaches(e, p, c) {
      ReachesMonotone(e, f, p, c);
      assert (c, p) in f;
    } else {
      forall a, b | (a, b) in f ensures !Reaches(f, b, a) {
        if Reaches(f, b, a) {
          var k: nat :| Walk(f, b, a, k);
          WalkOverNewEdge(e, c, p, b, a, k);
          if !Reaches(e, b, a) {
            if (a, b) in e { ReachesStep(e, a, b, c); }
            ReachesTransitive(e, p, a, c);
          }
        }
      }
    }
  }

  lemma RemoveKeepsAcyclic(e: set<Edge>, f: set<Edge>)
    requires Acyclic(f) && e <= f
    ensures Acyclic(e)
  {
    forall a, b | (a, b) in e ensures !Reaches(e, b, a) {
      if Reaches(e, b, a) { ReachesMonotone(e, f, b, a); }
    }
  }

  // ---------- the stack search ----------

  /** Adjacency lists, as built from the stored rows; a role without a list has no parents. */
  type Graph = map<string, seq<string>>

  function Neighbours(g: Graph, n: string): seq<string> {
    if n in g then g[n] else []
  }

  ghost function EdgesOf(g: Graph): set<Edge> {
    set n, i | n in g && 0 <= i < |g[n]| :: (n, g[n][i])
  }

  lemma NeighboursAreEdges(g: Graph, n: string, m: string)
    ensures m in Neighbours(g, n) <==> (n, m) in EdgesOf(g)
  {
  }

  ghost function NodesOf(g: Graph): set<string> {
    set n, i | n in g && 0 <= i < |g[n]| :: g[n][i]
  }

  /** Decides reflexive-transitive reachability, on cyclic graphs and with repeated neighbours too. */
  method RolePathExists(graph: Graph, from: string, target: string) returns (found: bool)
    ensures found <==> Reaches(EdgesOf(graph), from, target)
  {
    ghost var e := EdgesOf(graph);
    ghost var nodes := NodesOf(graph) + {from};
    var seen: set<string> := {};
    var stack := [from];
    ReachesSelf(e, from);
    while |stack| > 0
      invariant forall n | n in stack :: n in nodes && Reaches(e, from, n)
      invariant from in seen || from in stack
      invariant target !in seen
      invariant forall x, y | (x, y) in e && x in seen :: y in seen || y in stack
      decreases |nodes - seen|, |stack|
    {
      var last := |stack| - 1;
      var current := stack[last];
      ghost var before := stack;
      stack := stack[..last];
      assert before == stack + [current];
      if current == target {
        return true;
      }
      if current in seen {
        continue;
      }
      assert nodes - (seen + {current}) < nodes - seen by { assert current in nodes - seen; }
      SmallerSet(nodes - (seen + {current}), nodes - seen);
      seen := seen + {current};
      forall m | m in Neighbours(graph, current) ensures m in nodes && Reaches(e, from, m) {
        NeighboursAreEdges(graph, current, m);
        ReachesSelf(e, m);
        ReachesStep(e, current, m, m);
        ReachesTransitive(e, from, current, m);
      }
      forall y | (current, y) in e ensures y in Neighbours(graph, current) {
        NeighboursAreEdges(graph, current, y);
      }
      stack := stack + Neighbours(graph, current);
    }
    if Reaches(e, from, target) {
      ghost var k: nat :| Walk(e, from, target, k);
      ClosedKeepsWalk(e, seen, from, target, k);
      assert false;
    }
    found := false;
  }

  lemma SmallerSet<T>(a: set<T>, b: set<T>)
    requires a < b
    ensures |a| < |b|
  {
    assert b == a + (b - a);
    assert b - a != {};
  }

  // ---------- the depth-limited search ----------

  function Targets(e: set<Edge>): set<string> {
    set x | x in e :: x.1
  }

  /** The parents of a set of roles. */
  function ParentsOf(e: set<Edge>, roles: set<string>): set<string> {
    set x | x in e && x.0 in roles :: x.1
  }

  /** The level-by-level search of Casbin's role manager: give up below level zero or when a level is empty. */
  function LevelSearch(e: set<Edge>, level: set<string>, target: string, depth: nat): bool
    decreases depth
  {
    target in level || (depth > 0 && level != {} && LevelSearch(e, ParentsOf(e, level), target, depth - 1))
  }

  /** `g(child, role)` under the limit that `rebuildRoleLinks` sets: one more than the number of rules. */
  function HasLink(e: set<Edge>, child: string, role: string): bool {
    LevelSearch(e, {child}, role, |e| + 1)
  }

  lemma {:induction false} LevelSearchIsWalk(e: set<Edge>, level: set<string>, target: string, depth: nat)
    ensures LevelSearch(e, level, target, depth) <==>
            exists a, k: nat :: a in level && k <= depth && Walk(e, a, target, k)
    decreases depth
  {
    if target in level {
      assert Walk(e, target, target, 0);
    } else if depth > 0 {
      var next := ParentsOf(e, level);
      LevelSearchIsWalk(e, next, target, depth - 1);
      if LevelSearch(e, level, target, depth) {
        var m, k: nat :| m in next && k <= depth - 1 && Walk(e, m, target, k);
        var x :| x in e && x.0 in level && x.1 == m;
        assert (x.0, m) in e;
        assert Walk(e, x.0, target, k + 1);
      }
      if a, k: nat :| a in level && k <= depth && Walk(e, a, target, k) {
        var m :| (a, m) in e && Walk(e, m, target, k - 1);
        var x := (a, m);
        assert x in e && x.0 in level;
        assert m in next && k - 1 <= depth - 1 && Walk(e, m, target, k - 1);
        assert LevelSearch(e, next, target, depth - 1);
        assert level != {};
        assert LevelSearch(e, level, target, depth);
      }
    }
  }

  /** Everything within `n` edges of `a`. */
  ghost function Ball(e: set<Edge>, a: string, n: nat): set<string> {
    if n == 0 then {a} else Ball(e, a, n - 1) + ParentsOf(e, Ball(e, a, n - 1))
  }

  lemma {:induction false} BallIsWalks(e: set<Edge>, a: string, n: nat, b: string)
    requires b in Ball(e, a, n)
    ensures exists k: nat :: k <= n && Walk(e, a, b, k)
  {
    if n == 0 || b in Ball(e, a, n - 1) {
      if n == 0 { assert Walk(e, a, b, 0); } else { BallIsWalks(e, a, n - 1, b); }
    } else {
      var x :| x in e && x.0 in Ball(e, a, n - 1) && x.1 == b;
      BallIsWalks(e, a, n - 1, x.0);
      var k: nat :| k <= n - 1 && Walk(e, a, x.0, k);
      WalkSnoc(e, a, x.0, b, k);
    }
  }

  lemma {:induction false} WalkSnoc(e: set<Edge>, a: string, m: string, b: string, k: nat)
    requires Walk(e, a, m, k) && (m, b) in e
    ensures Walk(e, a, b, k + 1)
    decreases k
  {
    if k == 0 {
      assert Walk(e, b, b, 0);
    } else {
      var n :| (a, n) in e && Walk(e, n, m, k - 1);
      WalkSnoc(e, n, m, b, k - 1);
    }
  }

  /** The balls stop growing within |e| steps: each growth adds the target of an edge. */
  lemma {:induction false} BallGrowsOrCloses(e: set<Edge>, a: string, n: nat)
    ensures Ball(e, a, n) <= {a} + Targets(e)
    ensures a in Ball(e, a, n)
    ensures Ball(e, a, n + 1) == Ball(e, a, n) || |Ball(e, a, n + 1)| >= n + 2
  {
    if n > 0 {
      BallGrowsOrCloses(e, a, n - 1);
    }
    if Ball(e, a, n + 1) != Ball(e, a, n) {
      SmallerSet(Ball(e, a, n), Ball(e, a, n + 1));
    }
  }

  lemma {:induction false} TargetsBound(e: set<Edge>)
    ensures |Targets(e)| <= |e|
  {
    if e != {} {
      var x :| x in e;
      TargetsBound(e - {x});
      assert Targets(e) == Targets(e - {x}) + {x.1};
    }
  }

  /** Any reachable role is reached within as many edges as there are rules. */
  lemma ReachesWithinEdgeCount(e: set<Edge>, a: string, b: string)
    requires Reaches(e, a, b)
    ensures exists k: nat :: k <= |e| && Walk(e, a, b, k)
  {
    var n := |e|;
    BallGrowsOrCloses(e, a, n);
    BallGrowsOrCloses(e, a, n + 1);
    TargetsBound(e);
    assert |{a} + Targets(e)| <= 1 + |Targets(e)|;
    if Ball(e, a, n + 1) != Ball(e, a, n) {
      CardinalityBound(Ball(e, a, n + 1), {a} + Targets(e));
      assert false;
    }
    forall x, y | (x, y) in e && x in Ball(e, a, n) ensures y in Ball(e, a, n) {
      assert (x, y).1 in ParentsOf(e, Ball(e, a, n));
    }
    var k: nat :| Walk(e, a, b, k);
    ClosedKeepsWalk(e, Ball(e, a, n), a, b, k);
    BallIsWalks(e, a, n, b);
  }

  lemma CardinalityBound<T>(a: set<T>, b: set<T>)
    requires a <= b
    ensures |a| <= |b|
  {
    assert b == a + (b - a);
  }

  /** The limit never cuts an inheritance chain short: any depth from the number of rules up decides reachability. */
  lemma DepthLimitIsExact(e: set<Edge>, child: string, role: string, depth: nat)
    requires depth >= |e|
    ensures LevelSearch(e, {child}, role, depth) <==> Reaches(e, child, role)
  {
    LevelSearchIsWalk(e, {child}, role, depth);
    if Reaches(e, child, role) {
      ReachesWithinEdgeCount(e, child, role);
    }
  }

  lemma HasLinkIsReaches(e: set<Edge>, child: string, role: string)
    ensures HasLink(e, child, role) <==> Reaches(e, child, role)
  {
    DepthLimitIsExact(e, child, role, |e| + 1);
  }
}
