/** The relations that are defined by closed sets elsewhere, stated about paths. */
module PathForms {
  import opened Graphs
  import opened Paths
  import Order
  import SC = StrongComponents

  /** The path leaves u by an edge and meets the set for the first time in its last node. */
  ghost predicate LeadsToFirst(g: Graph, nodes: set<Node>, w: seq<Node>) {
    && IsPath(g, w) && |w| > 1
    && forall i :: 0 < i < |w| - 1 ==> w[i] !in nodes
  }

  lemma LastStep(g: Graph, w: seq<Node>, v: Node)
    requires SC.EdgesStay(g) && IsPath(g, w) && g.Edge(w[|w| - 1], v)
    ensures IsPath(g, w + [v])
  {
    var w' := w + [v];
    assert forall i :: 0 <= i < |w'| - 1 ==> w'[i] == w[i];
  }

  lemma FrontIsPath(g: Graph, w: seq<Node>)
    requires IsPath(g, w) && |w| > 1
    ensures IsPath(g, w[..|w| - 1])
  {
    var front := w[..|w| - 1];
    forall i | 0 <= i < |front| - 1
      ensures g.Edge(front[i], front[i + 1])
    {
      assert g.Edge(w[i], w[i + 1]);
    }
  }

  lemma {:induction false} PathStaysInRegion(g: Graph, nodes: set<Node>, w: seq<Node>, r: set<Node>)
    requires LeadsToFirst(g, nodes, w) && Order.Spreads(g, nodes, w[0], r)
    ensures w[|w| - 1] in r
    decreases |w|
  {
    var front, last := w[..|w| - 1], w[|w| - 1];
    assert g.Edge(w[|w| - 2], w[|w| - 2 + 1]);
    if |w| > 2 {
      FrontIsPath(g, w);
      PathStaysInRegion(g, nodes, front, r);
      assert w[|w| - 2] in r && w[|w| - 2] !in nodes;
    }
  }

  ghost predicate ByPath(g: Graph, nodes: set<Node>, u: Node, m: Node) {
    exists w :: LeadsToFirst(g, nodes, w) && w[0] == u && w[|w| - 1] == m
  }

  lemma {:induction false} PathsSpread(g: Graph, nodes: set<Node>, u: Node)
    requires g.Valid() && g.Has(u)
    ensures Order.Spreads(g, nodes, u, set m | m in g.Nodes() && ByPath(g, nodes, u, m))
  {
    forall v | g.Edge(u, v)
      ensures ByPath(g, nodes, u, v)
    {
      assert LeadsToFirst(g, nodes, [u, v]);
    }
    forall x, v | ByPath(g, nodes, u, x) && x !in nodes && g.Edge(x, v)
      ensures ByPath(g, nodes, u, v)
    {
      var w :| LeadsToFirst(g, nodes, w) && w[0] == u && w[|w| - 1] == x;
      LastStep(g, w, v);
      assert LeadsToFirst(g, nodes, w + [v]);
    }
  }

  /** The first nodes of the set are those in which some path meets it for the first time. */
  lemma {:induction false} FirstReachedByPaths(g: Graph, nodes: set<Node>, u: Node, m: Node)
    requires g.Valid() && g.Has(u)
    ensures m in Order.FirstReached(g, nodes, u) <==> m in nodes && ByPath(g, nodes, u, m)
  {
    if m in nodes && ByPath(g, nodes, u, m) {
      var w :| LeadsToFirst(g, nodes, w) && w[0] == u && w[|w| - 1] == m;
      forall r | Order.Spreads(g, nodes, u, r)
        ensures m in r
      {
        PathStaysInRegion(g, nodes, w, r);
      }
    }
    if m in Order.FirstReached(g, nodes, u) {
      PathsSpread(g, nodes, u);
      var r := set x | x in g.Nodes() && ByPath(g, nodes, u, x);
      assert Order.InRegion(g, nodes, u, m);
      assert m in r;
    }
  }

  // ---------------------------------------------------------------------------
  // Reachability

  ghost predicate Joined(g: Graph, x: Node, y: Node) {
    exists w :: IsPath(g, w) && w[0] == x && w[|w| - 1] == y
  }

  lemma {:induction false} PathStaysInside(g: Graph, w: seq<Node>, r: set<Node>)
    requires IsPath(g, w) && SC.EdgeClosed(g, r) && w[0] in r
    ensures w[|w| - 1] in r
    decreases |w|
  {
    if |w| > 1 {
      var front := w[..|w| - 1];
      assert g.Edge(w[|w| - 2], w[|w| - 2 + 1]);
      FrontIsPath(g, w);
      PathStaysInside(g, front, r);
    }
  }

  /** One node reaches another just if a path joins them. */
  lemma {:induction false} ReachByPaths(g: Graph, x: Node, y: Node)
    requires SC.EdgesStay(g)
    ensures SC.Reach(g, x, y) <==> Joined(g, x, y)
  {
    if w :| IsPath(g, w) && w[0] == x && w[|w| - 1] == y {
      forall r | SC.EdgeClosed(g, r) && x in r
        ensures y in r
      {
        PathStaysInside(g, w, r);
      }
    }
    if SC.Reach(g, x, y) {
      var r := set n | n in g.Nodes() && Joined(g, x, n);
      forall u, v | u in r && g.Edge(u, v)
        ensures v in r
      {
        var w :| IsPath(g, w) && w[0] == x && w[|w| - 1] == u;
        LastStep(g, w, v);
        assert (w + [v])[0] == x && (w + [v])[|w + [v]| - 1] == v;
      }
      assert IsPath(g, [x]) && [x][0] == x;
      assert SC.EdgeClosed(g, r);
    }
  }
}
