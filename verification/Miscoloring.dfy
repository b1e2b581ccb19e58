/** Which nodes the counter search colours too much, told by the graph alone, and what that does to
    the relation of NTSCD2. */
module Miscoloring {
  import opened Graphs
  import opened CounterColoring
  import opened FrontierNTSCD
  import opened CounterNTSCD

  // ---------------------------------------------------------------------------
  // Any set of targets

  ghost function Outside(s: seq<Node>, a: set<Node>): nat {
    |s| - Count(s, a)
  }

  /** The targets in r are counted twice, which makes up for the successors of x that are not hit. */
  ghost predicate MadeUp(g: Graph, hits: set<Node>, r: set<Node>, x: Node) {
    g.Has(x) && !g.Sink(x) && Outside(g.Succs(x), hits) <= Count(g.Succs(x), r)
  }

  ghost predicate HoldsMadeUp(g: Graph, targets: set<Node>, r: set<Node>) {
    forall t :: t in targets && MadeUp(g, HitSet(g, targets, {}), r, t) ==> t in r
  }

  /** The targets that are processed again: the least set of targets that takes in a target when those
      in it make up for the successors that are not hit. */
  ghost function Reentered(g: Graph, targets: set<Node>): set<Node> {
    set t | t in targets && forall r :: HoldsMadeUp(g, targets, r) ==> t in r
  }

  /** The node can miss the targets, but targets that are processed again make up for that. */
  ghost predicate Overcounted(g: Graph, targets: set<Node>, x: Node) {
    x !in HitSet(g, targets, {}) && MadeUp(g, HitSet(g, targets, {}), Reentered(g, targets), x)
  }

  lemma {:induction false} ReenteredHolds(g: Graph, targets: set<Node>)
    ensures HoldsMadeUp(g, targets, Reentered(g, targets))
  {
    forall t | t in targets && MadeUp(g, HitSet(g, targets, {}), Reentered(g, targets), t)
      ensures t in Reentered(g, targets)
    {
      forall r | HoldsMadeUp(g, targets, r)
        ensures t in r
      {
        CountGrows(g.Succs(t), Reentered(g, targets), r);
      }
    }
  }

  lemma {:induction false} CountDisjoint(s: seq<Node>, a: set<Node>, b: set<Node>)
    requires a !! b
    ensures Count(s, a + b) == Count(s, a) + Count(s, b)
  {
    if s != [] {
      CountDisjoint(s[..|s| - 1], a, b);
    }
  }

  lemma {:induction false} CountSame(s: seq<Node>, a: set<Node>, b: set<Node>)
    requires forall v :: v in s ==> (v in a <==> v in b)
    ensures Count(s, a) == Count(s, b)
  {
    if s != [] {
      assert s[|s| - 1] in s;
      CountSame(s[..|s| - 1], a, b);
    }
  }

  lemma {:induction false} TargetsAreHit(g: Graph, targets: set<Node>)
    requires g.Valid() && targets <= g.Nodes()
    ensures targets <= HitSet(g, targets, {})
  {
    forall t | t in targets
      ensures t in HitSet(g, targets, {})
    {
      HitLocal(g, t, targets, {});
    }
  }

  /** A node fires when the other hit nodes and some targets have been processed, each once more, just if
      these targets make up for it. */
  lemma {:induction false} FiresByHits(g: Graph, targets: set<Node>, r: set<Node>, x: Node)
    requires g.Valid() && targets <= g.Nodes() && r <= targets
    ensures Fires(g, targets, HitSet(g, targets, {}) - targets + r, x) <==> MadeUp(g, HitSet(g, targets, {}), r, x)
  {
    if g.Has(x) {
      var hits, s := HitSet(g, targets, {}), g.Succs(x);
      TargetsAreHit(g, targets);
      CountDisjoint(s, targets, hits - targets);
      CountDisjoint(s, hits - targets, r);
      assert targets + (hits - targets) == hits;
    }
  }

  /** A set closed under firing holds the hit nodes that are not targets and the targets processed again. */
  lemma {:induction false} ClosedHoldsReentered(g: Graph, targets: set<Node>, z: set<Node>)
    requires g.Valid() && targets <= g.Nodes() && ClosedUnderFiring(g, targets, z)
    ensures HitSet(g, targets, {}) - targets + Reentered(g, targets) <= z
  {
    var hits := HitSet(g, targets, {});
    ClosedHoldsHits(g, targets, z);
    var r := z * targets;
    forall t | t in targets && MadeUp(g, hits, r, t)
      ensures t in r
    {
      FiresByHits(g, targets, r, t);
      CountGrows(g.Succs(t), hits - targets + r, z);
      assert Fires(g, targets, z, t);
    }
    assert HoldsMadeUp(g, targets, r);
  }

  lemma {:induction false} OvercountedIsColored(g: Graph, targets: set<Node>, x: Node)
    requires g.Valid() && targets <= g.Nodes() && Overcounted(g, targets, x)
    ensures x in Colored(g, targets) - HitSet(g, targets, {})
  {
    FiresByHits(g, targets, Reentered(g, targets), x);
    forall z | ClosedUnderFiring(g, targets, z)
      ensures x in z
    {
      ClosedHoldsReentered(g, targets, z);
      CountGrows(g.Succs(x), HitSet(g, targets, {}) - targets + Reentered(g, targets), z);
      assert Fires(g, targets, z, x);
    }
    assert x in Fired(g, targets);
  }

  /** The hit nodes that are not targets, and the targets that are processed again. */
  ghost function Again(g: Graph, targets: set<Node>): set<Node> {
    HitSet(g, targets, {}) - targets + Reentered(g, targets)
  }

  lemma {:induction false} FiresInside(g: Graph, targets: set<Node>, within: set<Node>, x: Node)
    requires g.Valid() && targets <= g.Nodes() && x in within
    requires forall v :: g.Edge(x, v) ==> v in within
    requires Fires(g, targets, Again(g, targets) + (g.Nodes() - within), x)
    ensures MadeUp(g, HitSet(g, targets, {}), Reentered(g, targets), x)
  {
    forall v | v in g.Succs(x)
      ensures v in Again(g, targets) + (g.Nodes() - within) <==> v in Again(g, targets)
    {
      assert g.Edge(x, v);
    }
    CountSame(g.Succs(x), Again(g, targets) + (g.Nodes() - within), Again(g, targets));
    FiresByHits(g, targets, Reentered(g, targets), x);
  }

  /** Where no node is overcounted, the nodes outside count for nothing and firing stays among the hit nodes. */
  lemma {:induction false} FiringStays(g: Graph, targets: set<Node>, within: set<Node>)
    requires g.Valid() && targets <= g.Nodes()
    requires forall u, v :: u in within && g.Edge(u, v) ==> v in within
    requires forall x :: x in within ==> !Overcounted(g, targets, x)
    ensures ClosedUnderFiring(g, targets, Again(g, targets) + (g.Nodes() - within))
  {
    ReenteredHolds(g, targets);
    forall x | Fires(g, targets, Again(g, targets) + (g.Nodes() - within), x)
      ensures x in Again(g, targets) + (g.Nodes() - within)
    {
      if x in within {
        FiresInside(g, targets, within, x);
        assert !Overcounted(g, targets, x);
      }
    }
  }

  lemma {:induction false} ClosedHoldsFired(g: Graph, targets: set<Node>, z: set<Node>)
    requires ClosedUnderFiring(g, targets, z)
    ensures Fired(g, targets) <= z
  {
  }

  /** Among nodes that control does not leave, exactly the hit ones are coloured just if none of them is
      overcounted. */
  lemma {:induction false} ColorsExactlyWithin(g: Graph, targets: set<Node>, within: set<Node>)
    requires g.Valid() && targets <= g.Nodes() && within <= g.Nodes()
    requires forall u, v :: u in within && g.Edge(u, v) ==> v in within
    ensures (forall x :: x in within ==> (x in Colored(g, targets) <==> x in HitSet(g, targets, {}))) <==>
            (forall x :: x in within ==> !Overcounted(g, targets, x))
  {
    if x :| x in within && Overcounted(g, targets, x) {
      OvercountedIsColored(g, targets, x);
    } else {
      ColorsEnough(g, targets);
      TargetsAreHit(g, targets);
      FiringStays(g, targets, within);
      ClosedHoldsFired(g, targets, Again(g, targets) + (g.Nodes() - within));
    }
  }

  /** For any set of targets, exactly the nodes that cannot miss them are coloured, unless a node that can
      miss them is overcounted. */
  lemma {:induction false} ColorsSetExactly(g: Graph, targets: set<Node>)
    requires g.Valid() && targets <= g.Nodes()
    ensures Colored(g, targets) == HitSet(g, targets, {}) <==> forall x :: !Overcounted(g, targets, x)
  {
    ColorsExactlyWithin(g, targets, g.Nodes());
  }

  // ---------------------------------------------------------------------------
  // One target

  /** All successors are in z, or all but one if one of them is n, which counts twice. */
  ghost predicate TakenIn(g: Graph, n: Node, z: set<Node>, x: Node) {
    g.Has(x) && !g.Sink(x) &&
        ((forall v :: g.Edge(x, v) ==> v in z) || (g.Edge(x, n) && AtMostOneOutside(g.Succs(x), z)))
  }

  ghost predicate HoldsTaken(g: Graph, n: Node, z: set<Node>) {
    n in z && forall x :: TakenIn(g, n, z, x) ==> x in z
  }

  /** The least set that holds n and what it takes in. */
  ghost function Spill(g: Graph, n: Node): set<Node> {
    set x | x in g.Nodes() && forall z :: HoldsTaken(g, n, z) ==> x in z
  }

  lemma {:induction false} FiresIsTaken(g: Graph, n: Node, z: set<Node>, x: Node)
    requires g.Valid() && n in z
    ensures Fires(g, {n}, z, x) <==> TakenIn(g, n, z, x)
  {
    if g.Has(x) {
      CountTarget(g.Succs(x), n);
      CountAll(g.Succs(x), z);
      CountAllButOne(g.Succs(x), z);
      assert g.Edge(x, n) <==> n in g.Succs(x);
      assert (forall v :: g.Edge(x, v) ==> v in z) <==> (forall v :: v in g.Succs(x) ==> v in z);
    }
  }

  /** A target that all paths from its successors come back to counts twice, and this is what is coloured. */
  lemma {:induction false} RecoloredIsSpill(g: Graph, n: Node)
    requires g.Valid() && g.Has(n) && !g.Sink(n) && forall s :: g.Edge(n, s) ==> s in HitSet(g, {n}, {})
    ensures Colored(g, {n}) == Spill(g, n)
  {
    forall z
      ensures ClosedUnderFiring(g, {n}, z) <==> HoldsTaken(g, n, z)
    {
      if ClosedUnderFiring(g, {n}, z) {
        ClosedHoldsHits(g, {n}, z);
        CountAll(g.Succs(n), {n} + z);
        CountUnion(g.Succs(n), {n}, z);
        assert Fires(g, {n}, z, n);
      }
      if n in z {
        forall x
          ensures Fires(g, {n}, z, x) <==> TakenIn(g, n, z, x)
        {
          FiresIsTaken(g, n, z, x);
        }
      }
    }
    assert n in Spill(g, n);
  }

  // ---------------------------------------------------------------------------
  // The relation of NTSCD2

  /** Some successor of p is spilled over though n can be missed from it, and the other successors are of
      one kind: from all of them n cannot be missed, or all of them are left uncoloured. */
  ghost predicate Misled(g: Graph, p: Node, n: Node) {
    && (exists s :: g.Edge(p, s) && s in Spill(g, n) - HitSet(g, {n}, {}))
    && ((exists s :: g.Edge(p, s) && s in HitSet(g, {n}, {})) <==> (forall s :: g.Edge(p, s) ==> s in Spill(g, n)))
  }

  /** Two ways to split s, at a smaller and at a larger set, agree unless the elements between them decide. */
  lemma TwoSplits(s: set<Node>, hits: set<Node>, more: set<Node>)
    requires hits <= more
    ensures ((s * more != {} && s - more != {}) <==> (s * hits != {} && s - hits != {})) <==>
            !(s * (more - hits) != {} && (s * hits != {} <==> s <= more))
  {
    if s - more == {} {
      assert forall x :: x in s && x !in more ==> x in s - more;
    }
    if x :| x in s * hits {
      assert x in s * more;
    }
    if x :| x in s * (more - hits) {
      assert x in s * more && x in s - hits;
    }
    if x :| x in s - more {
      assert x in s - hits;
    }
    if x :| x in s * more && x !in s * hits {
      assert x in s * (more - hits);
    }
    if x :| x in s - hits && x !in s - more {
      assert x in s * (more - hits);
    }
  }

  ghost function SuccSet(g: Graph, p: Node): (s: set<Node>)
    ensures forall v :: v in s <==> g.Edge(p, v)
  {
    if g.Has(p) then set v | v in g.Succs(p) else {}
  }

  lemma {:induction false} SplitsBySets(g: Graph, p: Node, n: Node)
    requires g.Valid()
    ensures Splits(g, p, n) <==>
      p in g.predicates && SuccSet(g, p) * Colored(g, {n}) != {} && SuccSet(g, p) - Colored(g, {n}) != {}
  {
    var s, c := SuccSet(g, p), Colored(g, {n});
    if x :| g.Edge(p, x) && x in c {
      assert x in s * c;
    }
    if x :| g.Edge(p, x) && x !in c {
      assert x in s - c;
    }
    assert forall x :: x in s * c || x in s - c ==> g.Edge(p, x);
  }

  lemma {:induction false} DecidesBySets(g: Graph, p: Node, n: Node)
    requires g.Valid()
    ensures Decides(g, p, n) <==>
      p in g.predicates && SuccSet(g, p) * HitSet(g, {n}, {}) != {} && SuccSet(g, p) - HitSet(g, {n}, {}) != {}
  {
    var s, h := SuccSet(g, p), HitSet(g, {n}, {});
    if x :| g.Edge(p, x) && OnAllPaths(g, x, n) {
      assert x in s * h;
    }
    if x :| g.Edge(p, x) && !OnAllPaths(g, x, n) {
      assert x in s - h;
    }
    assert forall x :: x in s * h || x in s - h ==> g.Edge(p, x) && (x in h <==> OnAllPaths(g, x, n));
  }

  lemma {:induction false} MisledBySets(g: Graph, p: Node, n: Node)
    ensures Misled(g, p, n) <==>
      SuccSet(g, p) * (Spill(g, n) - HitSet(g, {n}, {})) != {} &&
          (SuccSet(g, p) * HitSet(g, {n}, {}) != {} <==> SuccSet(g, p) <= Spill(g, n))
  {
    var s, h, w := SuccSet(g, p), HitSet(g, {n}, {}), Spill(g, n) - HitSet(g, {n}, {});
    if x :| g.Edge(p, x) && x in w {
      assert x in s * w;
    }
    if x :| g.Edge(p, x) && x in h {
      assert x in s * h;
    }
    assert forall x :: x in s * w || x in s * h ==> g.Edge(p, x);
  }

  /** NTSCD2 is right about p and n unless n recolours and p is misled. */
  lemma {:induction false} SplitsExactly(g: Graph, p: Node, n: Node)
    requires g.Valid() && g.Has(n)
    ensures (Splits(g, p, n) <==> Decides(g, p, n)) <==> !(p in g.predicates && Recolors(g, n) && Misled(g, p, n))
  {
    if !Recolors(g, n) {
      SplitsIsDecides(g, p, n);
    } else {
      RecoloredIsSpill(g, n);
      ColorsEnough(g, {n});
      SplitsBySets(g, p, n);
      DecidesBySets(g, p, n);
      MisledBySets(g, p, n);
      TwoSplits(SuccSet(g, p), HitSet(g, {n}, {}), Spill(g, n));
    }
  }

  /** Both nodes have an edge to themselves, and node 1 has one to node 0. */
  function Fork(): Graph {
    var n0, n1 := Node(0), Node(1);
    Graph([[n0], [n0, n1]], [[n0, n1], [n1]], {n1})
  }

  ghost predicate IsFork(g: Graph) {
    && |g.succs| == 2 == |g.preds| && g.predicates == {Node(1)}
    && (forall u :: g.Has(u) <==> u == Node(0) || u == Node(1))
    && g.Succs(Node(0)) == [Node(0)] && g.Succs(Node(1)) == [Node(0), Node(1)]
    && g.Preds(Node(0)) == [Node(0), Node(1)] && g.Preds(Node(1)) == [Node(1)]
  }

  lemma ForkIsValid(g: Graph)
    requires IsFork(g)
    ensures g.Valid()
  {
    assert forall u, v :: g.Edge(u, v) <==> (u, v) in {(Node(0), Node(0)), (Node(1), Node(0)), (Node(1), Node(1))};
  }

  lemma {:induction false} ForkHits(g: Graph)
    requires IsFork(g) && g.Valid()
    ensures Node(0) in HitSet(g, {Node(0)}, {}) && Node(1) !in HitSet(g, {Node(0)}, {})
  {
    HitLocal(g, Node(0), {Node(0)}, {});
    assert g.Edge(Node(1), Node(1));
    assert CanStay(g, {Node(1)}, {}, Node(1));
    assert Avoiding(g, {Node(1)}, {Node(0)}, {});
  }

  lemma {:induction false} ForkSpills(g: Graph)
    requires IsFork(g) && g.Valid()
    ensures Node(0) in Spill(g, Node(0)) && Node(1) in Spill(g, Node(0))
  {
    var n0, n1 := Node(0), Node(1);
    assert g.Edge(n1, n0);
    forall z | HoldsTaken(g, n0, z)
      ensures n1 in z
    {
      assert AtMostOneOutside(g.Succs(n1), z);
      assert TakenIn(g, n0, z, n1);
    }
  }

  lemma {:induction false} ForkRecolors(g: Graph)
    requires IsFork(g) && g.Valid()
    ensures Recolors(g, Node(0)) && Decides(g, Node(1), Node(0))
  {
    var n0, n1 := Node(0), Node(1);
    ForkHits(g);
    assert g.Edge(n1, n0) && g.Edge(n1, n1);
    assert forall s :: g.Edge(n0, s) ==> s == n0;
    assert AtMostOneOutside(g.Succs(n1), HitSet(g, {n0}, {}));
    assert OnAllPaths(g, n0, n0) && !OnAllPaths(g, n1, n0);
  }

  /** Node 0 depends on node 1, where control can stay for ever, but NTSCD2 colours node 1 and misses that. */
  lemma {:induction false} DependenceMissed(g: Graph)
    requires g == Fork()
    ensures g.Valid() && Decides(g, Node(1), Node(0)) && !Splits(g, Node(1), Node(0))
  {
    assert IsFork(g) by {
      assert forall u :: g.Has(u) <==> u == Node(0) || u == Node(1);
    }
    ForkIsValid(g);
    ForkRecolors(g);
    ForkSpills(g);
    RecoloredIsSpill(g, Node(0));
    forall s | g.Edge(Node(1), s)
      ensures s in Colored(g, {Node(0)})
    {
      assert s == Node(0) || s == Node(1);
    }
  }

  lemma {:induction false} LassoSpill(g: Graph)
    requires IsLasso(g) && g.Valid()
    ensures Node(3) !in Spill(g, Node(1))
  {
    var z := {Node(0), Node(1), Node(2)};
    assert g.Edge(Node(3), Node(3));
    forall x | TakenIn(g, Node(1), z, x)
      ensures x in z
    {
      assert x == Node(3) ==> !g.Edge(x, Node(1));
    }
    assert HoldsTaken(g, Node(1), z);
  }

  /** On the lasso the colours are wrong for target 1 and the relation is right all the same. */
  lemma {:induction false} LassoIsHarmless(g: Graph, p: Node)
    requires g == Lasso()
    ensures g.Valid() && Recolors(g, Node(1)) && (Splits(g, p, Node(1)) <==> Decides(g, p, Node(1)))
  {
    LassoRecolors(g);
    LassoIsValid(g);
    SplitsExactly(g, p, Node(1));
    LassoDoesNotMislead(g, p);
  }

  lemma {:induction false} LassoDoesNotMislead(g: Graph, p: Node)
    requires IsLasso(g) && g.Valid()
    ensures p in g.predicates ==> !Misled(g, p, Node(1))
  {
    LassoSpill(g);
    HitLocal(g, Node(1), {Node(1)}, {});
    assert forall s :: g.Edge(Node(0), s) ==> s == Node(1) || s == Node(3);
  }
}
