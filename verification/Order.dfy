/** The order in which maximal paths meet nodes, and the nodes of a given set that are met
    first. */
module Order {
  import opened Graphs

  /** A number for every node that cannot miss t, dropping along every edge up to t. */
  ghost predicate RanksTo(g: Graph, t: Node, rank: map<Node, nat>) {
    && (forall u :: u in rank <==> OnAllPaths(g, u, t))
    && (forall u, v :: u in rank && u != t && g.Edge(u, v) ==> v in rank && rank[v] < rank[u])
  }

  lemma {:induction false} RankingTo(g: Graph, t: Node) returns (rank: map<Node, nat>)
    requires g.Valid()
    ensures RanksTo(g, t, rank)
  {
    rank := map u | u in HitSet(g, {t}, {}) :: Rank(g, {t}, {}, u);
    forall u, v | u in rank && u != t && g.Edge(u, v)
      ensures v in rank && rank[v] < rank[u]
    {
      RankDrops(g, {t}, {}, u, v);
    }
  }

  // ---------------------------------------------------------------------------
  // Which of two nodes comes first

  lemma {:induction false} BeforeLocal(g: Graph, u: Node, m: Node, n: Node)
    requires g.Valid() && g.Has(u)
    ensures Before(g, u, m, n) <==>
            u == m || (u != n && !g.Sink(u) && forall v :: g.Edge(u, v) ==> Before(g, v, m, n))
  {
    HitLocal(g, u, {m}, {n});
  }

  lemma {:induction false} NotBothFirst(g: Graph, u: Node, m: Node, n: Node)
    requires g.Valid() && Before(g, u, m, n) && m != n
    ensures !Before(g, u, n, m)
    decreases Rank(g, {m}, {n}, u)
  {
    BeforeLocal(g, u, m, n);
    BeforeLocal(g, u, n, m);
    if u != m {
      var v := g.Succs(u)[0];
      assert g.Edge(u, v);
      RankDrops(g, {m}, {n}, u, v);
      NotBothFirst(g, v, m, n);
    }
  }

  /** If y can be met in front of t, then t cannot be missed from y, and y is closer to t. */
  lemma {:induction false} MetEarlier(g: Graph, u: Node, t: Node, y: Node, rank: map<Node, nat>)
    requires g.Valid() && RanksTo(g, t, rank) && u in rank && !Before(g, u, t, y)
    ensures y in rank && (u == y || rank[y] < rank[u])
    decreases rank[u]
  {
    BeforeLocal(g, u, t, y);
    HitLocal(g, u, {t}, {});
    if u != y {
      var v :| g.Edge(u, v) && !Before(g, v, t, y);
      MetEarlier(g, v, t, y, rank);
    }
  }

  ghost predicate LeadsPast(g: Graph, u: Node, v: Node, t: Node, x: Node) {
    Before(g, x, u, t) || Before(g, x, v, t)
  }

  lemma {:induction false} PastStep(g: Graph, u: Node, v: Node, t: Node, x: Node)
    requires g.Valid() && u != v && u != t && Before(g, u, v, t) && Before(g, x, u, t)
    ensures x != t && exists y :: LeadsPast(g, u, v, t, y) && g.Edge(x, y)
  {
    BeforeLocal(g, x, u, t);
    BeforeLocal(g, u, v, t);
    var y := g.Succs(x)[0];
    assert g.Edge(x, y) && LeadsPast(g, u, v, t, y);
  }

  /** Two nodes that always lead to each other past t never lead to t. */
  lemma {:induction false} PastForEver(g: Graph, u: Node, v: Node, t: Node)
    requires g.Valid() && u != v && u != t && v != t
    requires Before(g, u, v, t) && Before(g, v, u, t)
    ensures !OnAllPaths(g, u, t)
  {
    var a := set x | x in g.Nodes() && LeadsPast(g, u, v, t, x);
    forall x | x in a
      ensures x != t && CanStay(g, a, {}, x)
    {
      if Before(g, x, u, t) {
        PastStep(g, u, v, t, x);
        var y :| LeadsPast(g, u, v, t, y) && g.Edge(x, y);
        assert y in a;
      } else {
        PastStep(g, v, u, t, x);
        var y :| LeadsPast(g, v, u, t, y) && g.Edge(x, y);
        assert y in a;
      }
    }
    assert Avoiding(g, a, {t}, {}) && u in a;
  }

  lemma {:induction false} OnAllPathsChain(g: Graph, r: Node, n: Node, m: Node)
    requires g.Valid() && OnAllPaths(g, r, n) && OnAllPaths(g, n, m)
    ensures OnAllPaths(g, r, m)
  {
    var hits := HitSet(g, {m}, {});
    forall u | Joins(g, {}, hits, u)
      ensures u in hits
    {
      HitLocal(g, u, {m}, {});
    }
    HitLeast(g, hits, {n}, {});
    assert r in HitSet(g, {n}, {});
  }

  // ---------------------------------------------------------------------------
  // The first nodes of a set

  /** r holds the successors of u, and whatever follows a node of r outside `nodes`. */
  ghost predicate Spreads(g: Graph, nodes: set<Node>, u: Node, r: set<Node>) {
    && (forall v {:trigger v in r} :: g.Edge(u, v) ==> v in r)
    && (forall x, v {:trigger x in r, v in r} :: x in r && x !in nodes && g.Edge(x, v) ==> v in r)
  }

  /** The nodes that can be reached from u without passing through `nodes` on the way. */
  ghost function Region(g: Graph, nodes: set<Node>, u: Node): set<Node> {
    set x | x in g.Nodes() && InRegion(g, nodes, u, x)
  }

  ghost predicate InRegion(g: Graph, nodes: set<Node>, u: Node, x: Node) {
    forall r :: Spreads(g, nodes, u, r) ==> x in r
  }

  /** The first nodes of `nodes` on the paths that leave u. */
  ghost function FirstReached(g: Graph, nodes: set<Node>, u: Node): set<Node> {
    Region(g, nodes, u) * nodes
  }

  lemma {:induction false} RegionSpreads(g: Graph, nodes: set<Node>, u: Node)
    requires g.Valid()
    ensures Spreads(g, nodes, u, Region(g, nodes, u))
  {
  }

  /** The nodes of the set that are met first on the paths from s on: s itself, if it is one. */
  ghost function Entry(g: Graph, nodes: set<Node>, s: Node): set<Node> {
    if s in nodes then {s} else FirstReached(g, nodes, s)
  }

  lemma {:induction false} EntryWithinSuccs(g: Graph, nodes: set<Node>, p: Node, s: Node)
    requires g.Valid() && g.Edge(p, s)
    ensures Entry(g, nodes, s) <= FirstReached(g, nodes, p)
  {
    RegionSpreads(g, nodes, p);
    if s !in nodes {
      var r := Region(g, nodes, p);
      assert s in r;
      forall v | g.Edge(s, v)
        ensures v in r
      {
      }
      assert Spreads(g, nodes, s, r);
    }
  }

  /** What cannot be missed from u cannot be missed from the first nodes either. */
  lemma {:induction false} HitsForward(g: Graph, nodes: set<Node>, u: Node, v: Node, targets: set<Node>,
      blocked: set<Node>)
    requires g.Valid() && AllHit(g, u, targets, blocked) && u !in targets && targets <= nodes
    requires v in FirstReached(g, nodes, u)
    ensures AllHit(g, v, targets, blocked)
  {
    var r := HitSet(g, targets, blocked);
    HitLocal(g, u, targets, blocked);
    forall x | x in r && x !in nodes
      ensures forall y :: g.Edge(x, y) ==> y in r
    {
      HitLocal(g, x, targets, blocked);
    }
    assert Spreads(g, nodes, u, r);
  }

  lemma {:induction false} RankForward(g: Graph, nodes: set<Node>, u: Node, v: Node, t: Node, rank: map<Node, nat>)
    requires g.Valid() && RanksTo(g, t, rank) && u in rank && u != t && t in nodes
    requires v in FirstReached(g, nodes, u)
    ensures v in rank && rank[v] < rank[u]
  {
    var r := set x | x in g.Nodes() && x in rank && rank[x] < rank[u];
    assert Spreads(g, nodes, u, r);
  }

  /** And back: the nodes met on the way to the first nodes meet m first if those do. */
  lemma {:induction false} BeforeInRegion(g: Graph, nodes: set<Node>, u: Node, m: Node, n: Node, v: Node,
      rank: map<Node, nat>)
    requires g.Valid() && m in nodes && n in nodes && RanksTo(g, m, rank)
    requires forall x :: x in FirstReached(g, nodes, u) ==> Before(g, x, m, n)
    requires v in Region(g, nodes, u) && v in rank
    ensures Before(g, v, m, n)
    decreases rank[v]
  {
    if v !in nodes {
      RegionSpreads(g, nodes, u);
      HitLocal(g, v, {m}, {});
      forall w | g.Edge(v, w)
        ensures Before(g, w, m, n)
      {
        BeforeInRegion(g, nodes, u, m, n, w, rank);
      }
      BeforeLocal(g, v, m, n);
    }
  }

  /** u itself meets m first if all the first nodes do. */
  lemma {:induction false} BeforeBackward(g: Graph, nodes: set<Node>, u: Node, m: Node, n: Node)
    requires g.Valid() && OnAllPaths(g, u, m) && u != m && u != n && m in nodes && n in nodes
    requires forall x :: x in FirstReached(g, nodes, u) ==> Before(g, x, m, n)
    ensures Before(g, u, m, n)
  {
    HitLocal(g, u, {m}, {});
    var rank := RankingTo(g, m);
    forall v | g.Edge(u, v)
      ensures Before(g, v, m, n)
    {
      RegionSpreads(g, nodes, u);
      BeforeInRegion(g, nodes, u, m, n, v, rank);
    }
    BeforeLocal(g, u, m, n);
  }

  lemma {:induction false} NothingFirst(g: Graph, nodes: set<Node>, u: Node, m: Node)
    requires g.Valid() && m in nodes && FirstReached(g, nodes, u) == {}
    ensures Avoiding(g, Region(g, nodes, u), {m}, {})
  {
    var region := Region(g, nodes, u);
    RegionSpreads(g, nodes, u);
    forall x | x in region
      ensures x != m && CanStay(g, region, {}, x)
    {
      assert x in nodes ==> x in FirstReached(g, nodes, u);
      if !g.Sink(x) {
        assert g.Edge(x, g.Succs(x)[0]);
      }
    }
  }

  lemma {:induction false} SomethingFirst(g: Graph, nodes: set<Node>, u: Node, m: Node)
    requires g.Valid() && OnAllPaths(g, u, m) && u != m && m in nodes
    ensures FirstReached(g, nodes, u) != {}
  {
    HitLocal(g, u, {m}, {});
    RegionSpreads(g, nodes, u);
    var s := g.Succs(u)[0];
    assert g.Edge(u, s);
    if FirstReached(g, nodes, u) == {} {
      NothingFirst(g, nodes, u, m);
    }
  }
}
