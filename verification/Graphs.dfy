/** Finite directed graphs given by successor lists: paths, cycles, and what a depth-first walk finds. */
module Graphs {
  type Graph<T(==)> = map<T, seq<T>>

  /** Successors are nodes. */
  ghost predicate Closed<T>(g: Graph<T>) {
    forall x, i | x in g && 0 <= i < |g[x]| :: g[x][i] in g
  }

  /** A walk along the edges. */
  ghost predicate Path<T>(g: Graph<T>, older p: seq<T>) {
    && p != []
    && (forall i | 0 <= i < |p| :: p[i] in g)
    && (forall i | 0 <= i < |p| - 1 :: p[i + 1] in g[p[i]])
  }

  ghost predicate Cycle<T>(g: Graph<T>, older p: seq<T>) {
    Path(g, p) && |p| > 1 && p[0] == p[|p| - 1]
  }

  ghost predicate Acyclic<T>(g: Graph<T>) {
    forall p :: !Cycle(g, p)
  }

  /** Some walk from `x` comes back to a node it has left. */
  ghost predicate ReachesCycle<T>(g: Graph<T>, x: T) {
    exists p, i, j :: Repeats(g, x, p, i, j)
  }

  ghost predicate Repeats<T>(g: Graph<T>, x: T, older p: seq<T>, i: int, j: int) {
    Path(g, p) && p[0] == x && 0 <= i < j < |p| && p[i] == p[j]
  }

  /**
   * Every walk from `x` stays within `avail` and visits no node twice.  This is the order in
   * which a depth-first walk explores, with the complement of its stack as `avail`.
   */
  ghost predicate Unfolds<T>(g: Graph<T>, x: T, avail: set<T>)
    decreases avail
  {
    x in avail && x in g &&
    forall i | 0 <= i < |g[x]| :: Unfolds(g, g[x][i], avail - {x})
  }

  ghost predicate Distinct<T>(p: seq<T>) {
    forall i, j | 0 <= i < j < |p| :: p[i] != p[j]
  }

  lemma PathTail<T>(g: Graph<T>, p: seq<T>)
    requires Path(g, p) && |p| > 1
    ensures Path(g, p[1..]) && exists i | 0 <= i < |g[p[0]]| :: g[p[0]][i] == p[1]
  {
    assert p[0 + 1] in g[p[0]];
  }

  lemma {:induction false} UnfoldsSimple<T>(g: Graph<T>, x: T, avail: set<T>, p: seq<T>)
    requires Unfolds(g, x, avail) && Path(g, p) && p[0] == x
    ensures Distinct(p) && forall i | 0 <= i < |p| :: p[i] in avail
    decreases avail
  {
    if |p| > 1 {
      PathTail(g, p);
      UnfoldsSimple(g, p[1], avail - {x}, p[1..]);
      assert forall i | 1 <= i < |p| :: p[i] == p[1..][i - 1];
    }
  }

  /** If a walk from `x` is confined to nodes outside `stack` and `x` does not unfold, one goes wrong. */
  lemma {:induction false} StuckWalk<T>(g: Graph<T>, x: T, avail: set<T>) returns (p: seq<T>)
    requires Closed(g) && x in g && !Unfolds(g, x, avail)
    ensures Path(g, p) && p[0] == x
    ensures !Distinct(p) || p[|p| - 1] !in avail
    decreases avail
  {
    p := [x];
    if x in avail {
      var i :| 0 <= i < |g[x]| && !Unfolds(g, g[x][i], avail - {x});
      var q := StuckWalk(g, g[x][i], avail - {x});
      p := [x] + q;
      if Distinct(q) && q[|q| - 1] == x {
        assert p[0] == p[|p| - 1];
      } else if !Distinct(q) {
        var a, b :| 0 <= a < b < |q| && q[a] == q[b];
        assert p[a + 1] == p[b + 1];
      }
    }
  }

  /** The depth-first walk from `x` with an empty stack succeeds iff it can meet no cycle. */
  lemma UnfoldsIff<T>(g: Graph<T>, x: T)
    requires Closed(g) && x in g
    ensures Unfolds(g, x, g.Keys) <==> !ReachesCycle(g, x)
  {
    if Unfolds(g, x, g.Keys) {
      forall p, i, j | Path(g, p) && p[0] == x && 0 <= i < j < |p|
        ensures !Repeats(g, x, p, i, j)
      {
        UnfoldsSimple(g, x, g.Keys, p);
      }
    } else {
      var p := StuckWalk(g, x, g.Keys);
      assert p[|p| - 1] in g.Keys;
      var i, j :| 0 <= i < j < |p| && p[i] == p[j];
      assert Repeats(g, x, p, i, j);
    }
  }

  lemma RepeatIsCycle<T>(g: Graph<T>, x: T, p: seq<T>, i: int, j: int)
    requires Repeats(g, x, p, i, j)
    ensures Cycle(g, p[i..j + 1])
  {
    var q := p[i..j + 1];
    forall k | 0 <= k < |q| - 1
      ensures q[k + 1] in g[q[k]]
    {
      assert q[k] == p[i + k] && q[k + 1] == p[i + k + 1];
    }
  }

  lemma AcyclicUnfolds<T>(g: Graph<T>, x: T)
    requires Closed(g) && Acyclic(g) && x in g
    ensures Unfolds(g, x, g.Keys) && !ReachesCycle(g, x)
  {
    if p, i, j :| Repeats(g, x, p, i, j) {
      RepeatIsCycle(g, x, p, i, j);
    }
    UnfoldsIff(g, x);
  }

  /** `g` with one more edge, from `b` to `n`. */
  ghost function WithEdge<T>(g: Graph<T>, b: T, n: T): Graph<T>
    requires b in g
  {
    g[b := g[b] + [n]]
  }

  /** A cycle that leaves `b` can be entered at `b`. */
  lemma CycleFrom<T>(g: Graph<T>, p: seq<T>, k: nat)
    requires Cycle(g, p) && k < |p| - 1
    ensures ReachesCycle(g, p[k])
  {
    var q := p[k..] + p[1..k + 1];
    forall i | 0 <= i < |q| - 1
      ensures q[i + 1] in g[q[i]]
    {
      if i < |p| - 1 - k {
        assert q[i] == p[i + k] && q[i + 1] == p[i + k + 1];
      } else {
        var m := i - (|p| - 1 - k);
        assert q[i] == p[m] && q[i + 1] == p[m + 1];
      }
    }
    assert q[|q| - 1] == p[k] == q[0];
    assert Repeats(g, p[k], q, 0, |q| - 1);
  }

  /** After one edge has been added, a walk from its source finds any cycle there is. */
  lemma EdgeCycle<T>(g: Graph<T>, b: T, n: T)
    requires Closed(g) && Acyclic(g) && b in g && n in g
    ensures Acyclic(WithEdge(g, b, n)) <==> !ReachesCycle(WithEdge(g, b, n), b)
  {
    var h := WithEdge(g, b, n);
    if Acyclic(h) {
      AcyclicUnfolds(h, b);
    } else {
      var p :| Cycle(h, p);
      if k :| 0 <= k < |p| - 1 && p[k] == b {
        CycleFrom(h, p, k);
      } else {
        assert forall i | 0 <= i < |p| - 1 :: h[p[i]] == g[p[i]];
        assert Cycle(g, p);
      }
    }
  }

  lemma {:induction false} DistinctWithin<T>(p: seq<T>, s: set<T>)
    requires Distinct(p) && forall i | 0 <= i < |p| :: p[i] in s
    ensures |p| <= |s|
  {
    if p != [] {
      DistinctWithin(p[1..], s - {p[0]});
    }
  }

  ghost predicate HasPredecessor<T>(g: Graph<T>, s: set<T>, y: T)
    requires s <= g.Keys
  {
    exists z :: z in s && y in g[z]
  }

  ghost predicate Sourceless<T>(g: Graph<T>, s: set<T>) {
    s <= g.Keys && forall y {:trigger HasPredecessor(g, s, y)} | y in s :: HasPredecessor(g, s, y)
  }

  lemma Predecessor<T>(g: Graph<T>, s: set<T>, x: T) returns (z: T)
    requires Sourceless(g, s) && x in s
    ensures z in s && z in g && x in g[z]
  {
    assert HasPredecessor(g, s, x);
    z :| z in s && x in g[z];
  }

  /** Where every node of a set has a predecessor in it, there are walks of any length. */
  lemma {:induction false} WalkBack<T>(g: Graph<T>, s: set<T>, x: T, n: nat) returns (p: seq<T>)
    requires Sourceless(g, s) && x in s
    ensures Path(g, p) && |p| == n + 1 && p[n] == x && forall i | 0 <= i < |p| :: p[i] in s
  {
    assert s <= g.Keys;
    hide Sourceless;
    if n == 0 {
      p := [x];
    } else {
      var z := Predecessor(g, s, x);
      var q := WalkBack(g, s, z, n - 1);
      p := q + [x];
    }
  }

  lemma SourcelessIsEmpty<T>(g: Graph<T>, s: set<T>)
    requires Acyclic(g) && Sourceless(g, s)
    ensures s == {}
  {
    hide Sourceless;
    if x :| x in s {
      var p := WalkBack(g, s, x, |s|);
      if Distinct(p) {
        DistinctWithin(p, s);
      } else {
        var i, j :| 0 <= i < j < |p| && p[i] == p[j];
        RepeatIsCycle(g, p[0], p, i, j);
      }
    }
  }
}
