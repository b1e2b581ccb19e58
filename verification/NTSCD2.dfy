/** The two clients of the counter search that colour backwards from every single node,
    and the exact condition under which the search colours what it should. */
module CounterNTSCD {
  import opened Graphs
  import opened Relations
  import opened CounterColoring
  import opened FrontierNTSCD

  // ---------------------------------------------------------------------------
  // What is coloured, compared with what should be

  lemma {:induction false} CountUnion(s: seq<Node>, a: set<Node>, b: set<Node>)
    ensures Count(s, a + b) <= Count(s, a) + Count(s, b)
  {
    if s != [] {
      CountUnion(s[..|s| - 1], a, b);
    }
  }

  lemma {:induction false} FiredIsClosed(g: Graph, targets: set<Node>)
    ensures ClosedUnderFiring(g, targets, Fired(g, targets))
  {
    forall x | Fires(g, targets, Fired(g, targets), x)
      ensures x in Fired(g, targets)
    {
      forall z | ClosedUnderFiring(g, targets, z)
        ensures x in z
      {
        CountGrows(g.Succs(x), Fired(g, targets), z);
        assert Fires(g, targets, z, x);
      }
    }
  }

  /** A closed set, with the targets, holds every node from which the targets cannot be missed. */
  lemma {:induction false} ClosedHoldsHits(g: Graph, targets: set<Node>, z: set<Node>)
    requires g.Valid() && ClosedUnderFiring(g, targets, z)
    ensures HitSet(g, targets, {}) <= targets + z
  {
    forall u | Joins(g, {}, targets + z, u)
      ensures u in targets + z
    {
      CountAll(g.Succs(u), targets + z);
      CountUnion(g.Succs(u), targets, z);
      assert Fires(g, targets, z, u);
    }
    HitLeast(g, targets + z, targets, {});
  }

  /** For any set of targets nothing that should be coloured is left out. */
  lemma {:induction false} ColorsEnough(g: Graph, targets: set<Node>)
    requires g.Valid()
    ensures HitSet(g, targets, {}) <= Colored(g, targets)
  {
    FiredIsClosed(g, targets);
    ClosedHoldsHits(g, targets, Fired(g, targets));
  }

  /** The target cannot be missed from any of its own successors, so it is processed again;
      and one of its predecessors is only one successor short of being coloured. */
  ghost predicate Recolors(g: Graph, t: Node)
    requires g.Has(t)
  {
    var hits := HitSet(g, {t}, {});
    && !g.Sink(t)
    && (forall s :: g.Edge(t, s) ==> s in hits)
    && exists p :: g.Edge(p, t) && p !in hits && AtMostOneOutside(g.Succs(p), hits)
  }

  lemma {:induction false} CountTarget(s: seq<Node>, t: Node)
    requires Distinct(s)
    ensures Count(s, {t}) == One(t in s)
  {
    Coloring.CountNone(s);
    CountOneMore(s, {}, t);
    assert {} + {t} == {t};
  }

  lemma {:induction false} NotReentered(g: Graph, t: Node)
    requires g.Valid() && g.Has(t)
    requires g.Sink(t) || exists s :: g.Edge(t, s) && s !in HitSet(g, {t}, {})
    ensures Fired(g, {t}) <= HitSet(g, {t}, {})
  {
    var hits := HitSet(g, {t}, {});
    HitLocal(g, t, {t}, {});
    forall x | Fires(g, {t}, hits - {t}, x)
      ensures x in hits - {t}
    {
      CountTarget(g.Succs(x), t);
      CountOneMore(g.Succs(x), hits - {t}, t);
      assert hits - {t} + {t} == hits;
      CountAll(g.Succs(x), hits);
      HitLocal(g, x, {t}, {});
    }
    assert ClosedUnderFiring(g, {t}, hits - {t});
  }

  lemma {:induction false} HarmlessReentry(g: Graph, t: Node)
    requires g.Valid() && g.Has(t) && !Recolors(g, t)
    requires !g.Sink(t) && forall s :: g.Edge(t, s) ==> s in HitSet(g, {t}, {})
    ensures Fired(g, {t}) <= HitSet(g, {t}, {})
  {
    var hits := HitSet(g, {t}, {});
    forall x | Fires(g, {t}, hits, x)
      ensures x in hits
    {
      CountTarget(g.Succs(x), t);
      CountAll(g.Succs(x), hits);
      CountAllButOne(g.Succs(x), hits);
      HitLocal(g, x, {t}, {});
    }
    assert ClosedUnderFiring(g, {t}, hits);
  }

  lemma {:induction false} HarmfulReentry(g: Graph, t: Node)
    requires g.Valid() && g.Has(t) && Recolors(g, t)
    ensures Fired(g, {t}) - HitSet(g, {t}, {}) != {}
  {
    var hits := HitSet(g, {t}, {});
    var p :| g.Edge(p, t) && p !in hits && AtMostOneOutside(g.Succs(p), hits);
    forall z | ClosedUnderFiring(g, {t}, z)
      ensures p in z
    {
      ClosedHoldsHits(g, {t}, z);
      CountAll(g.Succs(t), {t} + z);
      CountUnion(g.Succs(t), {t}, z);
      assert Fires(g, {t}, z, t);
      assert hits <= z;
      CountTarget(g.Succs(p), t);
      CountAllButOne(g.Succs(p), hits);
      CountGrows(g.Succs(p), hits, z);
      assert Fires(g, {t}, z, p);
    }
    assert p in Fired(g, {t});
  }

  /** Exactly the nodes on all of whose maximal paths t lies are coloured, unless the second
      processing of t pushes some node over the edge. */
  lemma {:induction false} ColorsExactly(g: Graph, t: Node)
    requires g.Valid() && g.Has(t)
    ensures Colored(g, {t}) == HitSet(g, {t}, {}) <==> !Recolors(g, t)
  {
    ColorsEnough(g, {t});
    HitLocal(g, t, {t}, {});
    if Recolors(g, t) {
      HarmfulReentry(g, t);
    } else if !g.Sink(t) && forall s :: g.Edge(t, s) ==> s in HitSet(g, {t}, {}) {
      HarmlessReentry(g, t);
    } else {
      NotReentered(g, t);
    }
  }

  /** Node 0 branches to the cycle of 1 and 2 and to the loop 3. */
  function Lasso(): Graph {
    var n0, n1, n2, n3 := Node(0), Node(1), Node(2), Node(3);
    Graph([[n1, n3], [n2], [n1], [n3]], [[], [n0, n2], [n1], [n0, n3]], {n0})
  }

  ghost predicate IsLasso(g: Graph) {
    && |g.succs| == 4 == |g.preds| && g.predicates == {Node(0)}
    && (forall u :: g.Has(u) <==> u == Node(0) || u == Node(1) || u == Node(2) || u == Node(3))
    && g.Succs(Node(0)) == [Node(1), Node(3)] && g.Succs(Node(1)) == [Node(2)]
    && g.Succs(Node(2)) == [Node(1)] && g.Succs(Node(3)) == [Node(3)]
    && g.Preds(Node(0)) == [] && g.Preds(Node(1)) == [Node(0), Node(2)]
    && g.Preds(Node(2)) == [Node(1)] && g.Preds(Node(3)) == [Node(0), Node(3)]
  }

  lemma LassoIsValid(g: Graph)
    requires g == Lasso()
    ensures IsLasso(g) && g.Valid()
  {
    assert forall u :: g.Has(u) <==> u == Node(0) || u == Node(1) || u == Node(2) || u == Node(3);
    assert forall u, v :: g.Edge(u, v) <==>
        (u, v) in {(Node(0), Node(1)), (Node(0), Node(3)), (Node(1), Node(2)), (Node(2), Node(1)), (Node(3), Node(3))};
  }

  /** On this graph the search goes wrong for target 1: from node 0 one can stay in the loop
      3 for ever, yet 0 is coloured. */
  lemma LassoRecolors(g: Graph)
    requires g == Lasso()
    ensures g.Valid() && Recolors(g, Node(1)) && Colored(g, {Node(1)}) != HitSet(g, {Node(1)}, {})
  {
    LassoIsValid(g);
    LassoMisses(g);
    ColorsExactly(g, Node(1));
  }

  lemma LassoMisses(g: Graph)
    requires IsLasso(g) && g.Valid()
    ensures Recolors(g, Node(1))
  {
    var n0, n1, n2, n3 := Node(0), Node(1), Node(2), Node(3);
    var hits := HitSet(g, {n1}, {});
    assert n0 !in hits by {
      assert g.Edge(n0, n3) && g.Edge(n3, n3);
      assert CanStay(g, {n0, n3}, {}, n0) && CanStay(g, {n0, n3}, {}, n3);
      assert Avoiding(g, {n0, n3}, {n1}, {});
    }
    assert n2 in hits by {
      HitLocal(g, n1, {n1}, {});
      HitLocal(g, n2, {n1}, {});
    }
    assert n1 in hits by {
      HitLocal(g, n1, {n1}, {});
    }
    assert g.Edge(n0, n1) && AtMostOneOutside(g.Succs(n0), hits);
  }

  // ---------------------------------------------------------------------------
  // NTSCD2

  /** From one successor of p the coloured nodes are met, another one is not coloured. */
  ghost predicate Splits(g: Graph, p: Node, n: Node) {
    && p in g.predicates
    && (exists s :: g.Edge(p, s) && s in Colored(g, {n}))
    && (exists s :: g.Edge(p, s) && s !in Colored(g, {n}))
  }

  class NTSCD2 {
    var coloring: Coloring

    constructor ()
      ensures fresh(coloring)
    {
      coloring := new Coloring();
    }

    method SuccessorColors(g: Graph, p: Node) returns (hasColored: bool, hasUncolored: bool)
      requires g.Valid() && g.Has(p)
      ensures hasColored <==> exists s :: g.Edge(p, s) && coloring.IsColored(s)
      ensures hasUncolored <==> exists s :: g.Edge(p, s) && !coloring.IsColored(s)
    {
      hasColored, hasUncolored := false, false;
      for i := 0 to |g.Succs(p)|
        invariant hasColored ==> exists s :: g.Edge(p, s) && coloring.IsColored(s)
        invariant hasUncolored ==> exists s :: g.Edge(p, s) && !coloring.IsColored(s)
        invariant forall s :: s in g.Succs(p)[..i] ==> if coloring.IsColored(s) then hasColored else hasUncolored
      {
        assert g.Edge(p, g.Succs(p)[i]);
        if coloring.IsColored(g.Succs(p)[i]) {
          hasColored := true;
        }
        if !coloring.IsColored(g.Succs(p)[i]) {
          hasUncolored := true;
        }
      }
    }

    method Record(g: Graph, nd: Node, CD: Relation, revCD: Relation) returns (CD': Relation, revCD': Relation)
      requires g.Valid() && g.Has(nd) && Converse(CD, revCD)
      requires forall x :: g.Has(x) ==> (coloring.IsColored(x) <==> x in CounterColoring.Colored(g, {nd}))
      ensures forall n, p :: Holds(CD', n, p) <==> Holds(CD, n, p) || (n == nd && Splits(g, p, nd))
      ensures Converse(CD', revCD')
    {
      CD', revCD' := CD, revCD;
      var todo := g.predicates;
      while todo != {}
        invariant todo <= g.predicates
        invariant forall n, p :: Holds(CD', n, p) <==> Holds(CD, n, p) || (n == nd && p !in todo && Splits(g, p, nd))
        invariant Converse(CD', revCD')
      {
        var p;
        p, todo := Take(todo);
        var hasColored, hasUncolored := SuccessorColors(g, p);
        if hasColored && hasUncolored {
          CD' := Insert(CD', nd, p);
          revCD' := Insert(revCD', p, nd);
        }
      }
    }

    method Compute(g: Graph) returns (CD: Relation, revCD: Relation)
      requires g.Valid() && CountersFit(g)
      modifies coloring
      ensures forall n, p :: Holds(CD, n, p) <==> g.Has(n) && Splits(g, p, n)
      ensures Converse(CD, revCD)
    {
      CD, revCD := map[], map[];
      for i := 0 to |g.succs|
        invariant forall n, p :: Holds(CD, n, p) <==> n.pos < i && Splits(g, p, n)
        invariant Converse(CD, revCD)
      {
        ghost var pushes := coloring.Search(g, {Node(i)});
        CD, revCD := Record(g, Node(i), CD, revCD);
      }
    }
  }

  /** Where the colours are exact, NTSCD2 finds the deciding predicates; unlike the frontier
      colouring it can report a node as dependent on itself. */
  lemma {:induction false} SplitsIsDecides(g: Graph, p: Node, n: Node)
    requires g.Valid() && g.Has(n) && !Recolors(g, n)
    ensures Splits(g, p, n) <==> Decides(g, p, n)
  {
    ColorsExactly(g, n);
    assert forall s :: g.Edge(p, s) ==> (s in Colored(g, {n}) <==> OnAllPaths(g, s, n));
  }

  // ---------------------------------------------------------------------------
  // AllMaxPath

  class AllMaxPath {
    var coloring: Coloring
    var colors: Relation

    constructor ()
      ensures fresh(coloring) && colors == map[]
    {
      coloring := new Coloring();
      colors := map[];
    }

    /** For every node the set of nodes that the search finds on all its maximal paths. */
    method Compute(g: Graph) returns (res: Relation)
      requires g.Valid() && CountersFit(g) && colors == map[]
      modifies this`colors, coloring
      ensures forall x, t :: Holds(res, x, t) <==> g.Has(x) && g.Has(t) && x in CounterColoring.Colored(g, {t})
    {
      for i := 0 to |g.succs|
        invariant coloring == old(coloring)
        invariant forall x, t :: Holds(colors, x, t) <==>
                    g.Has(x) && t.pos < i && x in CounterColoring.Colored(g, {t})
      {
        ghost var pushes := coloring.Search(g, {Node(i)});
        Store(g, Node(i));
      }
      res := colors;
    }

    method Store(g: Graph, target: Node)
      requires g.Has(target)
      requires forall x :: g.Has(x) ==> (coloring.IsColored(x) <==> x in CounterColoring.Colored(g, {target}))
      modifies this`colors
      ensures forall x, t :: Holds(colors, x, t) <==>
                Holds(old(colors), x, t) ||
                (g.Has(x) && t == target && x in CounterColoring.Colored(g, {target}))
    {
      for j := 0 to |g.succs|
        invariant forall x, t :: Holds(colors, x, t) <==>
                Holds(old(colors), x, t) ||
                    (x.pos < j && t == target && x in CounterColoring.Colored(g, {target}))
      {
        assert g.Has(Node(j));
        if coloring.IsColored(Node(j)) {
          colors := Insert(colors, Node(j), target);
        }
      }
    }
  }
}
