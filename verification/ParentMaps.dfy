/** Parent pointers as a finite map: climbing them, where a climb ends, and forests. */
module ParentMaps {

  const ROOT := 0

  /** Following exactly `k` pointers from `a` arrives at `b`. */
  ghost predicate Climbs(m: map<int, int>, a: int, b: int, k: nat)
    decreases k
  {
    if k == 0 then a == b else a in m && Climbs(m, m[a], b, k - 1)
  }

  ghost predicate Above(m: map<int, int>, a: int, b: int) {
    exists k: nat :: Climbs(m, a, b, k)
  }

  /** The climb from `a` stops at `x`, which has no pointer. */
  ghost predicate EndsAt(m: map<int, int>, a: int, x: int) {
    x !in m && Above(m, a, x)
  }

  /** Every node climbs to the root in finitely many steps: every parent exists and there is no cycle. */
  ghost predicate Forest(m: map<int, int>) {
    ROOT !in m && forall a | a in m :: EndsAt(m, a, ROOT)
  }

  lemma AboveSelf(m: map<int, int>, a: int)
    ensures Above(m, a, a)
  {
    assert Climbs(m, a, a, 0);
  }

  lemma AboveStep(m: map<int, int>, a: int, b: int)
    requires a in m && Above(m, m[a], b)
    ensures Above(m, a, b)
  {
    var k: nat :| Climbs(m, m[a], b, k);
    assert Climbs(m, a, b, k + 1);
  }

  lemma {:induction false} ClimbsSnoc(m: map<int, int>, a: int, b: int, k: nat)
    requires Climbs(m, a, b, k) && b in m
    ensures Climbs(m, a, m[b], k + 1)
    decreases k
  {
    if k == 0 {
      assert Climbs(m, m[b], m[b], 0);
    } else {
      ClimbsSnoc(m, m[a], b, k - 1);
    }
  }

  lemma AboveSnoc(m: map<int, int>, a: int, b: int)
    requires Above(m, a, b) && b in m
    ensures Above(m, a, m[b])
  {
    var k: nat :| Climbs(m, a, b, k);
    ClimbsSnoc(m, a, b, k);
  }

  lemma {:induction false} ClimbsUnique(m: map<int, int>, a: int, x: int, i: nat, y: int, j: nat)
    requires Climbs(m, a, x, i) && Climbs(m, a, y, j) && x !in m && y !in m
    ensures x == y
    decreases i
  {
    if i > 0 && j > 0 {
      ClimbsUnique(m, m[a], x, i - 1, y, j - 1);
    }
  }

  lemma EndIsUnique(m: map<int, int>, a: int, x: int, y: int)
    requires EndsAt(m, a, x) && EndsAt(m, a, y)
    ensures x == y
  {
    var i: nat :| Climbs(m, a, x, i);
    var j: nat :| Climbs(m, a, y, j);
    ClimbsUnique(m, a, x, i, y, j);
  }

  /** A set that holds the parent of each of its nodes holds every climb that starts in it. */
  lemma {:induction false} ClosedKeepsClimb(m: map<int, int>, s: set<int>, a: int, b: int, k: nat)
    requires forall x | x in s && x in m :: m[x] in s
    requires a in s && Climbs(m, a, b, k)
    ensures b in s
    decreases k
  {
    if k > 0 {
      ClosedKeepsClimb(m, s, m[a], b, k - 1);
    }
  }

  /** A climb that avoids `id` is the same climb without and with another pointer at `id`. */
  lemma {:induction false} ClimbsElsewhere(m: map<int, int>, id: int, p: int, a: int, b: int, k: nat)
    requires Climbs(m - {ROOT, id}, a, b, k)
    ensures Climbs(m[id := p], a, b, k) && Climbs(m, a, b, k)
    decreases k
  {
    if k > 0 {
      ClimbsElsewhere(m, id, p, m[a], b, k - 1);
    }
  }

  /** A climb to the root either never uses the pointer of `id` or visits `id`. */
  lemma {:induction false} AvoidsOrVisits(m: map<int, int>, id: int, a: int, k: nat)
    requires ROOT !in m && id != ROOT && Climbs(m, a, ROOT, k)
    ensures EndsAt(m - {ROOT, id}, a, ROOT) || EndsAt(m - {ROOT, id}, a, id)
    decreases k
  {
    var n := m - {ROOT, id};
    if k == 0 || a == id {
      AboveSelf(n, a);
    } else {
      AvoidsOrVisits(m, id, m[a], k - 1);
      assert n[a] == m[a];
      if EndsAt(n, m[a], ROOT) { AboveStep(n, a, ROOT); } else { AboveStep(n, a, id); }
    }
  }

  lemma {:induction false} ClimbsConcat(m: map<int, int>, a: int, b: int, c: int, k: nat)
    requires Climbs(m, a, b, k) && Above(m, b, c)
    ensures Above(m, a, c)
    decreases k
  {
    if k > 0 {
      ClimbsConcat(m, m[a], b, c, k - 1);
      AboveStep(m, a, c);
    }
  }

  /** Pointing `id` at the root, or at a node whose climb to the root avoids `id`, keeps a forest a forest. */
  lemma ReparentKeepsForest(m: map<int, int>, id: int, p: int)
    requires Forest(m) && id != ROOT && EndsAt(m - {ROOT, id}, p, ROOT)
    ensures Forest(m[id := p])
  {
    var n, f := m - {ROOT, id}, m[id := p];
    var i: nat :| Climbs(n, p, ROOT, i);
    ClimbsElsewhere(m, id, p, p, ROOT, i);
    assert Above(f, f[id], ROOT);
    AboveStep(f, id, ROOT);
    forall a | a in f ensures EndsAt(f, a, ROOT) {
      if a != id {
        var k: nat :| Climbs(m, a, ROOT, k);
        AvoidsOrVisits(m, id, a, k);
        if EndsAt(n, a, ROOT) {
          var j: nat :| Climbs(n, a, ROOT, j);
          ClimbsElsewhere(m, id, p, a, ROOT, j);
        } else {
          var j: nat :| Climbs(n, a, id, j);
          ClimbsElsewhere(m, id, p, a, id, j);
          ClimbsConcat(f, a, id, ROOT, j);
        }
      }
    }
  }

  /** Conversely, a forest with `id` below `p` has a climb from `p` to the root that avoids `id`. */
  lemma ForestAvoids(m: map<int, int>, id: int, p: int)
    requires id != ROOT && Forest(m[id := p])
    ensures EndsAt(m - {ROOT, id}, p, ROOT)
  {
    var n, f := m - {ROOT, id}, m[id := p];
    assert EndsAt(f, id, ROOT);
    var k: nat :| Climbs(f, id, ROOT, k);
    assert Climbs(f, p, ROOT, k - 1);
    AvoidsOrVisits(f, id, p, k - 1);
    assert f - {ROOT, id} == n;
    if !EndsAt(n, p, ROOT) {
      var j: nat :| Climbs(n, p, id, j);
      ClimbsElsewhere(m, id, p, p, id, j);
      assert Climbs(f, id, id, j + 1);
      NoCycleToRoot(f, id, j + 1, k);
    }
  }

  /** A node on a cycle never climbs to the root. */
  lemma {:induction false} NoCycleToRoot(m: map<int, int>, a: int, n: nat, k: nat)
    requires ROOT !in m && n > 0 && Climbs(m, a, a, n) && Climbs(m, a, ROOT, k)
    ensures false
    decreases k
  {
    if k > 0 {
      // The next node lies on the same cycle and is one step nearer.
      ClimbsSnoc(m, m[a], a, n - 1);
      NoCycleToRoot(m, m[a], n, k - 1);
    }
  }

  /** A new leaf under an existing node or the root. */
  lemma LeafKeepsForest(m: map<int, int>, id: int, p: int)
    requires Forest(m) && id != ROOT && id !in m && (p == ROOT || p in m)
    ensures Forest(m[id := p])
  {
    AboveSelf(m, ROOT);
    assert EndsAt(m, p, ROOT);
    assert m - {ROOT, id} == m;
    ReparentKeepsForest(m, id, p);
  }

  /** Removing a node without children. */
  lemma RemoveLeafKeepsForest(m: map<int, int>, id: int)
    requires Forest(m) && forall a | a in m :: m[a] != id
    ensures Forest(m - {id})
  {
    var n := m - {id};
    forall a | a in n ensures EndsAt(n, a, ROOT) {
      var k: nat :| Climbs(m, a, ROOT, k);
      ClimbsWithoutLeaf(m, id, a, k);
    }
  }

  lemma {:induction false} ClimbsWithoutLeaf(m: map<int, int>, id: int, a: int, k: nat)
    requires ROOT !in m && a != id && (forall x | x in m :: m[x] != id) && Climbs(m, a, ROOT, k)
    ensures Climbs(m - {id}, a, ROOT, k)
    decreases k
  {
    if k > 0 {
      ClimbsWithoutLeaf(m, id, m[a], k - 1);
    }
  }
}
