/** The relation of module Graphs, stated about maximal paths: those that end in a sink
    and those that never end. */
module Paths {
  import opened Graphs

  ghost predicate IsPath(g: Graph, w: seq<Node>) {
    && w != []
    && (forall i :: 0 <= i < |w| ==> g.Has(w[i]))
    && (forall i :: 0 <= i < |w| - 1 ==> g.Edge(w[i], w[i + 1]))
  }

  ghost predicate EndsInSink(g: Graph, w: seq<Node>) {
    IsPath(g, w) && g.Sink(w[|w| - 1])
  }

  ghost predicate NeverEnds(g: Graph, f: nat -> Node) {
    forall i: nat :: g.Has(f(i)) && g.Edge(f(i), f(i + 1))
  }

  ghost predicate MeetsFirst(w: seq<Node>, targets: set<Node>, blocked: set<Node>) {
    exists i :: 0 <= i < |w| && w[i] in targets && forall j :: 0 <= j < i ==> w[j] !in blocked
  }

  ghost predicate MeetsFirstForever(f: nat -> Node, targets: set<Node>, blocked: set<Node>) {
    exists i: nat :: f(i) in targets && forall j: nat :: j < i ==> f(j) !in blocked
  }

  ghost predicate AllMaximalPathsMeet(g: Graph, s: Node, targets: set<Node>, blocked: set<Node>) {
    && g.Has(s)
    && (forall w :: EndsInSink(g, w) && w[0] == s ==> MeetsFirst(w, targets, blocked))
    && (forall f: nat -> Node :: NeverEnds(g, f) && f(0) == s ==> MeetsFirstForever(f, targets, blocked))
  }

  lemma {:induction false} FinitePathsMeet(g: Graph, w: seq<Node>, targets: set<Node>, blocked: set<Node>)
    requires g.Valid() && EndsInSink(g, w) && AllHit(g, w[0], targets, blocked)
    ensures MeetsFirst(w, targets, blocked)
    decreases |w|
  {
    HitLocal(g, w[0], targets, blocked);
    if w[0] !in targets {
      assert g.Edge(w[0], w[0 + 1]);
      FinitePathsMeet(g, w[1..], targets, blocked);
      var i :| 0 <= i < |w| - 1 && w[1..][i] in targets && forall j :: 0 <= j < i ==> w[1..][j] !in blocked;
      assert forall j :: 0 < j < i + 1 ==> w[j] == w[1..][j - 1];
      assert w[i + 1] in targets;
    }
  }

  lemma {:induction false} InfinitePathsMeet(g: Graph, f: nat -> Node, targets: set<Node>, blocked: set<Node>)
    requires g.Valid() && NeverEnds(g, f) && AllHit(g, f(0), targets, blocked)
    ensures MeetsFirstForever(f, targets, blocked)
  {
    var i: nat := 0;
    while f(i) !in targets
      invariant AllHit(g, f(i), targets, blocked)
      invariant forall j: nat :: j < i ==> f(j) !in blocked
      decreases Rank(g, targets, blocked, f(i))
    {
      assert g.Edge(f(i), f(i + 1));
      RankDrops(g, targets, blocked, f(i), f(i + 1));
      i := i + 1;
    }
  }

  /** From a node of an avoiding set: stay in the set as long as no blocked node is met,
      afterwards go anywhere; at a sink, stop. */
  ghost function Walk(g: Graph, a: set<Node>, blocked: set<Node>, s: Node, k: nat): Node {
    if k == 0 then s
    else
      var u := Walk(g, a, blocked, s, k - 1);
      if v :| u !in blocked && v in a && g.Edge(u, v) then v
      else if v :| g.Edge(u, v) then v
      else u
  }

  lemma {:induction false} WalkStays(g: Graph, a: set<Node>, targets: set<Node>, blocked: set<Node>, s: Node, k: nat)
    requires g.Valid() && Avoiding(g, a, targets, blocked) && s in a
    ensures g.Has(Walk(g, a, blocked, s, k))
    ensures !g.Sink(Walk(g, a, blocked, s, k)) ==> g.Edge(Walk(g, a, blocked, s, k), Walk(g, a, blocked, s, k + 1))
    ensures (forall j: nat :: j < k ==> Walk(g, a, blocked, s, j) !in blocked) ==> Walk(g, a, blocked, s, k) in a
  {
    var u := Walk(g, a, blocked, s, k);
    if k > 0 {
      WalkStays(g, a, targets, blocked, s, k - 1);
      var t := Walk(g, a, blocked, s, k - 1);
      assert t == u || g.Edge(t, u);
      if t in a {
        assert CanStay(g, a, blocked, t);
      }
    }
    if !g.Sink(u) {
      assert g.Edge(u, g.Succs(u)[0]);
    }
  }

  lemma {:induction false} AvoidingWalkMisses(g: Graph, a: set<Node>, targets: set<Node>, blocked: set<Node>, s: Node,
      k: nat)
    requires g.Valid() && Avoiding(g, a, targets, blocked) && s in a
    requires forall j: nat :: j < k ==> Walk(g, a, blocked, s, j) !in blocked
    ensures Walk(g, a, blocked, s, k) !in targets
  {
    WalkStays(g, a, targets, blocked, s, k);
  }

  /** The local rule and the maximal paths say the same. */
  lemma {:induction false} AllHitMeansPaths(g: Graph, s: Node, targets: set<Node>, blocked: set<Node>)
    requires g.Valid()
    ensures AllHit(g, s, targets, blocked) <==> AllMaximalPathsMeet(g, s, targets, blocked)
  {
    if AllHit(g, s, targets, blocked) {
      forall w | EndsInSink(g, w) && w[0] == s
        ensures MeetsFirst(w, targets, blocked)
      {
        FinitePathsMeet(g, w, targets, blocked);
      }
      forall f: nat -> Node | NeverEnds(g, f) && f(0) == s
        ensures MeetsFirstForever(f, targets, blocked)
      {
        InfinitePathsMeet(g, f, targets, blocked);
      }
    } else if g.Has(s) {
      var a :| Avoiding(g, a, targets, blocked) && s in a;
      var f := (k: nat) => Walk(g, a, blocked, s, k);
      forall k: nat
        ensures g.Has(f(k)) && (!g.Sink(f(k)) ==> g.Edge(f(k), f(k + 1)))
      {
        WalkStays(g, a, targets, blocked, s, k);
      }
      forall k: nat | forall j: nat :: j < k ==> f(j) !in blocked
        ensures f(k) !in targets
      {
        assert forall j: nat :: j < k ==> Walk(g, a, blocked, s, j) == f(j);
        AvoidingWalkMisses(g, a, targets, blocked, s, k);
      }
      if k: nat :| g.Sink(f(k)) {
        FiniteMiss(g, f, k, targets, blocked);
      } else {
        assert NeverEnds(g, f) && f(0) == s && !MeetsFirstForever(f, targets, blocked);
      }
    }
  }

  lemma {:induction false} FiniteMiss(g: Graph, f: nat -> Node, k: nat, targets: set<Node>, blocked: set<Node>)
    requires g.Valid()
    requires forall i: nat :: g.Has(f(i)) && (!g.Sink(f(i)) ==> g.Edge(f(i), f(i + 1)))
    requires g.Sink(f(k))
    requires forall i: nat :: (forall j: nat :: j < i ==> f(j) !in blocked) ==> f(i) !in targets
    ensures !AllMaximalPathsMeet(g, f(0), targets, blocked)
  {
    if i: nat :| i < k && g.Sink(f(i)) {
      FiniteMiss(g, f, i, targets, blocked);
    } else {
      var w := seq(k + 1, (i: nat) => f(i));
      assert EndsInSink(g, w) && w[0] == f(0);
      if i :| 0 <= i < |w| && w[i] in targets && forall j :: 0 <= j < i ==> w[j] !in blocked {
        assert forall j: nat :: j < i ==> f(j) == w[j];
        assert false;
      }
    }
  }
}
