/** Decisive order dependence for all predicates of a graph, alone and together with the
    non-termination sensitive control dependence. */
module DODComputation {
  import opened Graphs
  import opened Guards
  import opened Relations
  import opened Order
  import opened ApShape
  import opened Ring
  import opened DecisiveOrder
  import opened DODAnalysis
  import CounterColoring
  import opened CounterNTSCD
  import Miscoloring
  import opened FrontierNTSCD

  lemma {:induction false} NothingDecided(g: Graph, p: Node, m: Node)
    requires g.Valid() && g.Has(p) && |g.Succs(p)| == 2 && NothingToDecide(g, Certain(g, p), p)
    ensures !OrderDependent(g, p, m)
  {
    var s1, s2 := g.Succs(p)[0], g.Succs(p)[1];
    assert g.Succs(p) == [s1, s2];
    SomethingToDecide(g, Certain(g, p), p);
    forall n
      ensures !DecidesOrder(g, p, m, n)
    {
      if |Certain(g, p)| < 3 {
        TooSmall(g, p, m, n);
      } else if a :| FirstReached(g, Certain(g, p), p) <= {a} {
        OneEntry(g, p, s1, s2, a, m, n);
      } else {
        var e :| e in Entry(g, Certain(g, p), s1) && e in Entry(g, Certain(g, p), s2);
        SharedEntry(g, p, s1, s2, e, m, n);
      }
    }
  }

  lemma {:induction false} BranchEntry(g: Graph, p: Node, a: Node, b: Node, s: Node)
    requires Forks(g, p, a, b) && g.Edge(p, s)
    ensures Entry(g, Certain(g, p), s) != {} && Entry(g, Certain(g, p), s) <= Certain(g, p) - {p}
  {
    NotOwnSuccessor(g, p, a, b);
    EntryNotEmpty(g, p, s, a);
    EntryWithinSuccs(g, Certain(g, p), p, s);
    forall e | e in Entry(g, Certain(g, p), s)
      ensures e in Certain(g, p) - {p}
    {
      NotThePredicate(g, p, a, b, e);
    }
  }

  lemma {:induction false} ColorsOnRing(g: Graph, p: Node, a: Node, b: Node, s1: Node, s2: Node, cap: ColoredAp,
      arcs: Arcs)
    requires Forks(g, p, a, b) && Built(g, Certain(g, p), p, cap) && IsArcs(cap, p, arcs) && g.Succs(p) == [s1, s2]
    ensures TwoColors(g, p, s1, s2, arcs.c, Positions(arcs.c, cap.blues), Positions(arcs.c, cap.reds))
  {
    assert g.Edge(p, s1) && g.Edge(p, s2);
    RingIsRing(g, p, a, b, cap.ap, arcs.c);
    BranchEntry(g, p, a, b, s1);
    BranchEntry(g, p, a, b, s2);
  }

  lemma {:induction false} RecordedOnRing(g: Graph, p: Node, s1: Node, s2: Node, cap: ColoredAp, arcs: Arcs, m: Node)
    requires TwoColors(g, p, s1, s2, arcs.c, Positions(arcs.c, cap.blues), Positions(arcs.c, cap.reds))
    requires Bounds(|arcs.c|, Positions(arcs.c, cap.blues), Positions(arcs.c, cap.reds), arcs.b2, arcs.r1, arcs.r2,
      arcs.b3)
    ensures Recorded(cap, arcs, m) <==> OrderDependent(g, p, m)
  {
    ArcsAreDependences(g, p, s1, s2, arcs.c, Positions(arcs.c, cap.blues), Positions(arcs.c, cap.reds),
                       arcs.b2, arcs.r1, arcs.r2, arcs.b3, m);
  }

  /** With the right nodes the recorded arcs are the dependences on p. */
  lemma {:induction false} RecordedIsDependent(g: Graph, p: Node, a: Node, b: Node, s1: Node, s2: Node, cap: ColoredAp,
      arcs: Arcs, m: Node)
    requires Forks(g, p, a, b) && Built(g, Certain(g, p), p, cap) && IsArcs(cap, p, arcs) && g.Succs(p) == [s1, s2]
    ensures Recorded(cap, arcs, m) <==> OrderDependent(g, p, m)
  {
    ColorsOnRing(g, p, a, b, s1, s2, cap, arcs);
    RecordedOnRing(g, p, s1, s2, cap, arcs, m);
  }

  lemma {:induction false} BuiltIsWellShaped(g: Graph, p: Node, a: Node, b: Node, cap: ColoredAp) returns (ranks: Ranks)
    requires Forks(g, p, a, b) && Built(g, Certain(g, p), p, cap)
    ensures WellShaped(cap.ap, p, ranks) && cap.blues != {} && cap.reds != {} && p !in cap.blues + cap.reds
  {
    ranks := ExactShape(g, p, a, b, cap.ap);
    assert g.Edge(p, g.Succs(p)[0]) && g.Edge(p, g.Succs(p)[1]);
    BranchEntry(g, p, a, b, g.Succs(p)[0]);
    BranchEntry(g, p, a, b, g.Succs(p)[1]);
  }

  // ---------------------------------------------------------------------------
  // The algorithm

  /** What is built for a predicate from a set of nodes: nothing if there is nothing to decide. */
  ghost predicate BuiltFor(g: Graph, nodes: set<Node>, p: Node, cap: Option<ColoredAp>) {
    forall k {:trigger Shown(k)} :: Shown(k) ==>
      && g.Has(p) && |g.Succs(p)| == 2
      && if cap.None? then NothingToDecide(g, nodes, p)
           else Built(g, nodes, p, cap.value) && !NothingToDecide(g, nodes, p)
  }

  /** No assertion of the program fails. */
  ghost predicate Passes(cap: Option<ColoredAp>) {
    cap.Some? ==> Walkable(cap.value)
  }

  ghost predicate Gets(cap: Option<ColoredAp>, m: Node) {
    cap.Some? && OnRecordedArc(cap.value, m)
  }

  /** What becomes dependent on p: the nodes on the arcs and, if `both`, the control dependences. */
  ghost predicate Depends(g: Graph, p: Node, cap: Option<ColoredAp>, both: bool, m: Node) {
    Gets(cap, m) || (both && g.Has(m) && Splits(g, p, m))
  }

  ghost predicate Adds(CD: Relation, CD': Relation, g: Graph, p: Node, cap: Option<ColoredAp>, both: bool) {
    forall k {:trigger Shown(k)} :: Shown(k) ==>
      forall m, q {:trigger Holds(CD', m, q)} ::
          Holds(CD', m, q) <==> Holds(CD, m, q) || (q == p && Depends(g, p, cap, both, m))
  }

  /** The relation has just what the predicates dealt with have added. */
  ghost predicate AllAdded(CD: Relation, g: Graph, caps: map<Node, Option<ColoredAp>>, both: bool) {
    forall k {:trigger Shown(k)} :: Shown(k) ==>
      forall m, p {:trigger Holds(CD, m, p)} :: Holds(CD, m, p) <==> p in caps && Depends(g, p, caps[p], both, m)
  }

  /** What is known when the predicates in caps have been dealt with. */
  ghost predicate Done(ok: bool, CD: Relation, g: Graph, caps: map<Node, Option<ColoredAp>>, both: bool) {
    forall k {:trigger Shown(k)} :: Shown(k) ==>
      AllBuilt(g, caps) && (ok <==> AllPass(caps)) && (ok ==> AllAdded(CD, g, caps, both))
  }

  /** The same for one predicate, where `nodes` are the nodes that Ap is built from. */
  ghost predicate DoneFor(ok: bool, CD: Relation, CD': Relation, g: Graph, nodes: set<Node>, p: Node,
      cap: Option<ColoredAp>, both: bool) {
    forall k {:trigger Shown(k)} :: Shown(k) ==>
      && BuiltFor(g, nodes, p, cap) && (ok <==> Passes(cap)) && (ok ==> Adds(CD, CD', g, p, cap, both))
      && (nodes == Certain(g, p) ==> ExactFor(g, p, cap))
  }

  lemma NothingDone(g: Graph, both: bool)
    ensures Done(true, map[], g, map[], both)
  {
    NothingBuilt(g);
    NothingAdded(g, both);
  }

  lemma OneMoreDone(CD: Relation, ok: bool, CD': Relation, g: Graph, caps: map<Node, Option<ColoredAp>>, p: Node,
      cap: Option<ColoredAp>, both: bool)
    requires Done(true, CD, g, caps, both) && p !in caps && DoneFor(ok, CD, CD', g, ColoredNodes(g, p), p, cap, both)
    ensures Done(ok, CD', g, caps[p := cap], both)
  {
    assert Shown(true);
    WellBuilt(g, p, cap);
    OneMoreBuilt(g, caps, p, cap);
    OneMorePasses(caps, p, cap);
    if ok {
      OneMoreAdded(CD, CD', g, caps, p, cap, both);
    }
  }

  /** One Ap, or none, for each predicate dealt with, built from the nodes that the colours give. */
  ghost predicate AllBuilt(g: Graph, caps: map<Node, Option<ColoredAp>>) {
    forall k {:trigger Shown(k)} :: Shown(k) ==>
      forall p {:trigger caps[p]} :: p in caps ==> BuiltWell(g, p, caps[p])
  }

  /** Ap is built from the nodes that the colours give, and the computation is exact if they are right. */
  ghost predicate BuiltWell(g: Graph, p: Node, cap: Option<ColoredAp>) {
    forall k {:trigger Opened(k)} ::
        Opened(k) ==> BuiltFor(g, ColoredNodes(g, p), p, cap) && (Trusted(g, p) ==> ExactFor(g, p, cap))
  }

  ghost predicate AllPass(caps: map<Node, Option<ColoredAp>>) {
    forall k {:trigger Shown(k)} :: Shown(k) ==> forall p {:trigger caps[p]} :: p in caps ==> Passes(caps[p])
  }

  lemma NothingBuilt(g: Graph)
    ensures AllBuilt(g, map[]) && AllPass(map[])
  {
  }

  lemma OneMoreBuilt(g: Graph, caps: map<Node, Option<ColoredAp>>, p: Node, cap: Option<ColoredAp>)
    requires AllBuilt(g, caps) && BuiltWell(g, p, cap) && p !in caps
    ensures AllBuilt(g, caps[p := cap])
  {
    var caps' := caps[p := cap];
    forall x | x in caps'
      ensures BuiltWell(g, x, caps'[x])
    {
      if x != p {
        BuiltAt(g, caps, x);
      }
    }
  }

  lemma BuiltAt(g: Graph, caps: map<Node, Option<ColoredAp>>, p: Node)
    requires AllBuilt(g, caps) && p in caps
    ensures BuiltWell(g, p, caps[p])
  {
    assert Shown(true);
  }

  lemma WellBuilt(g: Graph, p: Node, cap: Option<ColoredAp>)
    ensures BuiltWell(g, p, cap) <==> BuiltFor(g, ColoredNodes(g, p), p, cap) && (Trusted(g, p) ==> ExactFor(g, p, cap))
  {
    assert Opened(true);
  }

  lemma OneMorePasses(caps: map<Node, Option<ColoredAp>>, p: Node, cap: Option<ColoredAp>)
    requires p !in caps
    ensures AllPass(caps[p := cap]) <==> AllPass(caps) && Passes(cap)
  {
    assert Shown(true);
    var caps' := caps[p := cap];
    assert forall x :: x in caps ==> caps'[x] == caps[x];
    assert caps'[p] == cap;
  }

  /** Everything that is recorded depends on a predicate, and where the colours are right these are the
      dependences. */
  ghost predicate RightWhereTrusted(CD: Relation, g: Graph, both: bool) {
    && (forall m, p {:trigger Holds(CD, m, p)} :: Holds(CD, m, p) ==> p in g.predicates)
    && (forall m, p {:trigger Holds(CD, m, p)} :: p in g.predicates && Trusted(g, p) ==>
          (Holds(CD, m, p) <==> OrderDependent(g, p, m) || (both && g.Has(m) && Splits(g, p, m))))
  }

  lemma AddedAt(CD: Relation, g: Graph, caps: map<Node, Option<ColoredAp>>, both: bool, m: Node, p: Node)
    requires AllAdded(CD, g, caps, both)
    ensures Holds(CD, m, p) <==> p in caps && Depends(g, p, caps[p], both, m)
  {
    assert Shown(true);
  }

  lemma {:induction false} AddedIsRight(CD: Relation, g: Graph, caps: map<Node, Option<ColoredAp>>, both: bool)
    requires AllBuilt(g, caps) && AllAdded(CD, g, caps, both) && caps.Keys == g.predicates
    ensures RightWhereTrusted(CD, g, both)
  {
    forall m, p
      ensures Holds(CD, m, p) ==> p in g.predicates
      ensures p in g.predicates && Trusted(g, p) ==>
        (Holds(CD, m, p) <==> OrderDependent(g, p, m) || (both && g.Has(m) && Splits(g, p, m)))
    {
      AddedAt(CD, g, caps, both, m, p);
      if p in caps {
        BuiltAt(g, caps, p);
        WellBuilt(g, p, caps[p]);
        if Trusted(g, p) {
          ExactDepends(g, p, caps[p], both, m);
        }
      }
    }
  }

  lemma {:induction false} TrustedPass(g: Graph, caps: map<Node, Option<ColoredAp>>)
    requires AllBuilt(g, caps) && AllTrusted(g) && caps.Keys <= g.predicates
    ensures AllPass(caps)
  {
    assert Shown(true);
    forall p | p in caps
      ensures Passes(caps[p])
    {
      BuiltAt(g, caps, p);
      WellBuilt(g, p, caps[p]);
      assert Trusted(g, p);
      ExactPasses(g, p, caps[p]);
    }
  }

  lemma ExactPasses(g: Graph, p: Node, cap: Option<ColoredAp>)
    requires ExactFor(g, p, cap)
    ensures Passes(cap)
  {
    assert Shown(true);
  }

  lemma DoneIs(ok: bool, CD: Relation, g: Graph, caps: map<Node, Option<ColoredAp>>, both: bool)
    requires Done(ok, CD, g, caps, both)
    ensures AllBuilt(g, caps) && (ok <==> AllPass(caps)) && (ok ==> AllAdded(CD, g, caps, both))
  {
    assert Shown(true);
  }

  lemma {:induction false} DoneIsRight(ok: bool, CD: Relation, g: Graph, caps: map<Node, Option<ColoredAp>>, both: bool)
    requires Done(ok, CD, g, caps, both) && caps.Keys <= g.predicates && (ok ==> caps.Keys == g.predicates)
    ensures AllTrusted(g) ==> ok
    ensures ok ==> RightWhereTrusted(CD, g, both)
  {
    DoneIs(ok, CD, g, caps, both);
    if ok {
      AddedIsRight(CD, g, caps, both);
    }
    if AllTrusted(g) {
      TrustedPass(g, caps);
    }
  }

  lemma ExactDepends(g: Graph, p: Node, cap: Option<ColoredAp>, both: bool, m: Node)
    requires ExactFor(g, p, cap)
    ensures Depends(g, p, cap, both, m) <==> OrderDependent(g, p, m) || (both && g.Has(m) && Splits(g, p, m))
  {
    assert Shown(true);
  }

  lemma NothingAdded(g: Graph, both: bool)
    ensures AllAdded(map[], g, map[], both)
  {
    assert Shown(true);
  }

  lemma OneMoreAdded(CD: Relation, CD': Relation, g: Graph, caps: map<Node, Option<ColoredAp>>, p: Node,
      cap: Option<ColoredAp>, both: bool)
    requires AllAdded(CD, g, caps, both) && Adds(CD, CD', g, p, cap, both) && p !in caps
    ensures AllAdded(CD', g, caps[p := cap], both)
  {
    assert Shown(true);
    assert forall m, q :: Holds(CD', m, q) <==> Holds(CD, m, q) || (q == p && Depends(g, p, cap, both, m));
  }

  lemma ArcsAdded(CD: Relation, CD': Relation, g: Graph, p: Node, cap: ColoredAp)
    requires forall m, q :: Holds(CD', m, q) <==> Holds(CD, m, q) || (q == p && OnRecordedArc(cap, m))
    ensures Adds(CD, CD', g, p, Some(cap), false)
  {
  }

  lemma NoArcsAdded(CD: Relation, g: Graph, p: Node)
    ensures Adds(CD, CD, g, p, None, false)
  {
  }

  lemma SplitsAdded(CD: Relation, CD': Relation, CD'': Relation, g: Graph, p: Node, cap: Option<ColoredAp>)
    requires Adds(CD, CD', g, p, cap, false)
    requires forall n, q :: Holds(CD'', n, q) <==> Holds(CD', n, q) || (q == p && g.Has(n) && Splits(g, p, n))
    ensures Adds(CD, CD'', g, p, cap, true)
  {
    assert Shown(true);
  }

  /** No assertion fails, and what is recorded are the order dependences on p. */
  ghost predicate ExactFor(g: Graph, p: Node, cap: Option<ColoredAp>) {
    forall k {:trigger Shown(k)} :: Shown(k) ==>
      Passes(cap) && forall m {:trigger Gets(cap, m)} :: Gets(cap, m) <==> OrderDependent(g, p, m)
  }

  lemma {:induction false} TwoEntries(g: Graph, p: Node) returns (a: Node, b: Node)
    requires g.Valid() && g.Has(p) && |g.Succs(p)| == 2 && !NothingToDecide(g, Certain(g, p), p)
    ensures Forks(g, p, a, b)
  {
    SomethingToDecide(g, Certain(g, p), p);
    var first := FirstReached(g, Certain(g, p), p);
    assert first != {} by {
      assert first == {} ==> first <= {p};
    }
    a :| a in first;
    assert !(first <= {a});
    b :| b in first && b != a;
  }

  lemma {:induction false} ExactIsWalkable(g: Graph, p: Node, cap: ColoredAp)
    requires g.Valid() && BuiltFor(g, Certain(g, p), p, Some(cap))
    ensures Walkable(cap)
  {
    assert Shown(true);
    var a, b := TwoEntries(g, p);
    var ranks := BuiltIsWellShaped(g, p, a, b, cap);
    RepresentsIsClosed(g, Certain(g, p), cap.ap);
    WellShapedFits(cap.ap, p, ranks);
    var fork, c :| ForkRing(cap.ap, fork, c);
    WalkableBy(cap, p, c);
  }

  lemma {:induction false} ForkIsPredicate(g: Graph, p: Node, a: Node, b: Node, cap: ColoredAp, fork: Node,
      c: seq<Node>)
    requires Forks(g, p, a, b) && Built(g, Certain(g, p), p, cap) && ForkRing(cap.ap, fork, c)
    ensures fork == p
  {
    var ranks := BuiltIsWellShaped(g, p, a, b, cap);
    RepresentsIsClosed(g, Certain(g, p), cap.ap);
    WellShapedFits(cap.ap, p, ranks);
  }

  lemma TwoOf(s: seq<Node>)
    requires |s| == 2
    ensures s == [s[0], s[1]]
  {
  }

  lemma ExactArc(g: Graph, p: Node, a: Node, b: Node, cap: ColoredAp, arcs: Arcs, m: Node)
    requires Forks(g, p, a, b) && Built(g, Certain(g, p), p, cap) && LeastArcs(cap, p, arcs)
    ensures Recorded(cap, arcs, m) <==> OrderDependent(g, p, m)
  {
    TwoOf(g.Succs(p));
    RecordedIsDependent(g, p, a, b, g.Succs(p)[0], g.Succs(p)[1], cap, arcs, m);
  }

  lemma {:induction false} ExactArcs(g: Graph, p: Node, cap: ColoredAp, fork: Node, arcs: Arcs)
    requires g.Valid() && BuiltFor(g, Certain(g, p), p, Some(cap)) && LeastArcs(cap, fork, arcs)
    ensures forall m :: OnRecordedArc(cap, m) <==> OrderDependent(g, p, m)
  {
    assert Shown(true);
    var a, b := TwoEntries(g, p);
    ForkIsPredicate(g, p, a, b, cap, fork, arcs.c);
    ArcsAreFixed(cap, p, arcs);
    forall m
      ensures Recorded(cap, arcs, m) <==> OrderDependent(g, p, m)
    {
      ExactArc(g, p, a, b, cap, arcs, m);
    }
  }

  /** With exactly the nodes on all maximal paths from p the computation is exact. */
  lemma {:induction false} ExactNodes(g: Graph, p: Node, cap: Option<ColoredAp>)
    requires g.Valid() && BuiltFor(g, Certain(g, p), p, cap)
    requires cap.Some? && Walkable(cap.value) ==> HasArcs(cap.value)
    ensures ExactFor(g, p, cap)
  {
    assert Shown(true);
    if cap.None? {
      forall m
        ensures !OrderDependent(g, p, m)
      {
        NothingDecided(g, p, m);
      }
    } else {
      ExactIsWalkable(g, p, cap.value);
      var fork, arcs :| LeastArcs(cap.value, fork, arcs);
      ExactArcs(g, p, cap.value, fork, arcs);
    }
  }

  lemma IsBuiltFor(g: Graph, nodes: set<Node>, p: Node, cap: Option<ColoredAp>)
    requires g.Has(p) && |g.Succs(p)| == 2
    requires cap.None? <==> NothingToDecide(g, nodes, p)
    requires cap.Some? ==> Built(g, nodes, p, cap.value)
    ensures BuiltFor(g, nodes, p, cap)
  {
  }

  lemma BothDone(ok: bool, CD: Relation, CD': Relation, CD'': Relation, g: Graph, nodes: set<Node>, p: Node,
      cap: Option<ColoredAp>)
    requires DoneFor(ok, CD, CD', g, nodes, p, cap, false)
    requires forall n, q :: Holds(CD'', n, q) <==> Holds(CD', n, q) || (q == p && g.Has(n) && Splits(g, p, n))
    ensures DoneFor(ok, CD, CD'', g, nodes, p, cap, true)
  {
    assert Shown(true);
    if ok {
      SplitsAdded(CD, CD', CD'', g, p, cap);
    }
  }

  lemma {:induction false} EntriesInAp(g: Graph, nodes: set<Node>, p: Node, cap: ColoredAp)
    requires g.Valid() && Built(g, nodes, p, cap)
    ensures cap.blues + cap.reds <= cap.ap.Keys
  {
  }

  class DOD {
    constructor () {
    }

    /** The dependences on one predicate with two successors, where `nodes` is meant to be the
        set of nodes on all its maximal paths. */
    method ComputePredicate(p: Node, g: Graph, nodes: set<Node>, CD: Relation, revCD: Relation)
      returns (ok: bool, CD': Relation, revCD': Relation, ghost cap: Option<ColoredAp>)
      requires g.Valid() && g.Has(p) && |g.Succs(p)| == 2 && Converse(CD, revCD)
      requires nodes <= g.Nodes() && p in nodes
      ensures Converse(CD', revCD') && DoneFor(ok, CD, CD', g, nodes, p, cap, false)
    {
      var built := CreateColoredAp(g, nodes, p);
      cap := built;
      IsBuiltFor(g, nodes, p, cap);
      if built.None? {
        ok, CD', revCD' := true, CD, revCD;
        NoArcsAdded(CD, g, p);
      } else {
        ok, CD', revCD' := ComputeColored(p, g, nodes, built.value, CD, revCD);
      }
      if nodes == Certain(g, p) {
        ExactNodes(g, p, cap);
      }
    }

    method ComputeColored(p: Node, g: Graph, ghost nodes: set<Node>, cap: ColoredAp, CD: Relation, revCD: Relation)
      returns (ok: bool, CD': Relation, revCD': Relation)
      requires g.Valid() && Built(g, nodes, p, cap) && Converse(CD, revCD)
      ensures Converse(CD', revCD')
      ensures ok <==> Walkable(cap)
      ensures ok ==> HasArcs(cap)
      ensures ok ==> Adds(CD, CD', g, p, Some(cap), false)
    {
      RepresentsIsClosed(g, nodes, cap.ap);
      EntriesInAp(g, nodes, p, cap);
      ok, CD', revCD' := ComputeOnAp(cap, p, CD, revCD);
      if ok {
        ArcsAdded(CD, CD', g, p, cap);
      }
    }

    /** One more predicate is dealt with. */
    method ComputeNext(p: Node, g: Graph, all: Relation, CD: Relation, revCD: Relation,
        ghost caps: map<Node, Option<ColoredAp>>)
      returns (ok: bool, CD': Relation, revCD': Relation, ghost caps': map<Node, Option<ColoredAp>>)
      requires g.Valid() && g.Has(p) && |g.Succs(p)| == 2 && Converse(CD, revCD)
      requires AreColors(g, all) && Done(true, CD, g, caps, false) && p !in caps
      ensures Converse(CD', revCD') && caps'.Keys == caps.Keys + {p} && Done(ok, CD', g, caps', false)
    {
      ghost var cap;
      NodesOf(g, all, p);
      ok, CD', revCD', cap := ComputePredicate(p, g, all[p], CD, revCD);
      OneMoreDone(CD, ok, CD', g, caps, p, cap, false);
      caps' := caps[p := cap];
    }

    /** The program runs through if no assertion fails for any predicate, and then all that is recorded are the
        arcs; these are the order dependences wherever the colours are right. */
    method Compute(g: Graph) returns (ok: bool, CD: Relation, revCD: Relation, ghost caps: map<Node, Option<ColoredAp>>)
      requires g.Valid() && CounterColoring.CountersFit(g) && TwoWay(g)
      ensures Converse(CD, revCD)
      ensures caps.Keys <= g.predicates && (ok ==> caps.Keys == g.predicates)
      ensures Done(ok, CD, g, caps, false)
      ensures AllTrusted(g) ==> ok
      ensures ok ==> RightWhereTrusted(CD, g, false)
    {
      var allmaxpath := new AllMaxPath();
      var allpaths := allmaxpath.Compute(g);
      ok, CD, revCD, caps := true, map[], map[], map[];
      NothingDone(g, false);
      var todo := g.predicates;
      while todo != {} && ok
        invariant todo <= g.predicates && caps.Keys == g.predicates - todo && Converse(CD, revCD)
        invariant Done(ok, CD, g, caps, false)
      {
        var p;
        p, todo := Take(todo);
        ok, CD, revCD, caps := ComputeNext(p, g, allpaths, CD, revCD, caps);
      }
      DoneIsRight(ok, CD, g, caps, false);
    }
  }

  /** The nodes that the colours put on all maximal paths from p. */
  ghost function ColoredNodes(g: Graph, p: Node): (nodes: set<Node>)
    ensures forall t :: t in nodes <==> g.Has(t) && p in CounterColoring.Colored(g, {t})
  {
    set t | t in g.Nodes() && p in CounterColoring.Colored(g, {t})
  }

  /** Every predicate has two successors: the program asserts it. */
  ghost predicate TwoWay(g: Graph) {
    forall p :: p in g.predicates ==> g.Has(p) && |g.Succs(p)| == 2
  }

  /** The colouring is right about p, for every target. */
  ghost predicate Trusted(g: Graph, p: Node) {
    ColoredNodes(g, p) == Certain(g, p)
  }

  ghost predicate AllTrusted(g: Graph) {
    forall k {:trigger Shown(k)} ::
        Shown(k) ==> forall p {:trigger p in g.predicates} :: p in g.predicates ==> Trusted(g, p)
  }

  /** That is so if no target is processed with harm twice. */
  lemma {:induction false} TrustedWithoutRecoloring(g: Graph, p: Node)
    requires g.Valid() && g.Has(p) && forall t :: g.Has(t) ==> !Recolors(g, t)
    ensures Trusted(g, p)
  {
    forall t
      ensures t in ColoredNodes(g, p) <==> t in Certain(g, p)
    {
      if g.Has(t) {
        ColorsExactly(g, t);
      }
    }
  }

  /** What the colouring from every single node finds. */
  ghost predicate AreColors(g: Graph, all: Relation) {
    forall k {:trigger Shown(k)} :: Shown(k) ==>
      forall x, t {:trigger Holds(all, x, t)} ::
          Holds(all, x, t) <==> g.Has(x) && g.Has(t) && x in CounterColoring.Colored(g, {t})
  }

  lemma {:induction false} NodesOf(g: Graph, allpaths: Relation, p: Node)
    requires g.Valid() && g.Has(p)
    requires AreColors(g, allpaths)
    ensures p in allpaths && p in allpaths[p] && allpaths[p] == ColoredNodes(g, p)
  {
    assert Shown(true);
    assert Holds(allpaths, p, p);
    forall t
      ensures t in allpaths[p] <==> t in ColoredNodes(g, p)
    {
      assert t in allpaths[p] <==> Holds(allpaths, p, t);
    }
  }

  // ---------------------------------------------------------------------------
  // Both dependences at once

  lemma {:induction false} SplitsIsXor(g: Graph, p: Node, s1: Node, s2: Node, n: Node)
    requires g.Valid() && p in g.predicates && g.Succs(p) == [s1, s2]
    ensures Splits(g, p, n) <==> (s1 in CounterColoring.Colored(g, {n})) != (s2 in CounterColoring.Colored(g, {n}))
  {
    assert g.Edge(p, s1) && g.Edge(p, s2);
  }

  lemma InColoredNodes(g: Graph, p: Node, t: Node)
    ensures t in ColoredNodes(g, p) <==> g.Has(t) && p in CounterColoring.Colored(g, {t})
  {
  }

  lemma {:induction false} ColoredXor(g: Graph, p: Node, s1: Node, s2: Node, n: Node)
    requires g.Valid() && p in g.predicates && g.Succs(p) == [s1, s2] && g.Has(n)
    ensures (n in ColoredNodes(g, s1)) != (n in ColoredNodes(g, s2)) <==> Splits(g, p, n)
  {
    SplitsIsXor(g, p, s1, s2, n);
    InColoredNodes(g, s1, n);
    InColoredNodes(g, s2, n);
  }

  lemma {:induction false} AllColoredXor(g: Graph, p: Node)
    requires g.Valid() && p in g.predicates && |g.Succs(p)| == 2
    ensures forall n :: g.Has(n) ==>
      ((n in ColoredNodes(g, g.Succs(p)[0])) != (n in ColoredNodes(g, g.Succs(p)[1])) <==> Splits(g, p, n))
  {
    TwoOf(g.Succs(p));
    forall n | g.Has(n)
      ensures (n in ColoredNodes(g, g.Succs(p)[0])) != (n in ColoredNodes(g, g.Succs(p)[1])) <==> Splits(g, p, n)
    {
      ColoredXor(g, p, g.Succs(p)[0], g.Succs(p)[1], n);
    }
  }

  class DODNTSCD {
    var dod: DOD

    constructor () {
      dod := new DOD();
    }

    /** The nodes that are on all maximal paths from one successor only. */
    method ComputeNTSCD(p: Node, g: Graph, all: Relation, CD: Relation, revCD: Relation)
      returns (CD': Relation, revCD': Relation)
      requires g.Valid() && p in g.predicates && TwoWay(g) && Converse(CD, revCD)
      requires AreColors(g, all)
      ensures forall n, q :: Holds(CD', n, q) <==> Holds(CD, n, q) || (q == p && g.Has(n) && Splits(g, p, n))
      ensures Converse(CD', revCD')
    {
      var s1, s2 := g.Succs(p)[0], g.Succs(p)[1];
      assert g.Edge(p, s1) && g.Edge(p, s2);
      NodesOf(g, all, s1);
      NodesOf(g, all, s2);
      AllColoredXor(g, p);
      CD', revCD' := RecordXor(p, g, all[s1], all[s2], CD, revCD);
    }

    method RecordXor(p: Node, g: Graph, nodes1: set<Node>, nodes2: set<Node>, CD: Relation, revCD: Relation)
      returns (CD': Relation, revCD': Relation)
      requires Converse(CD, revCD)
      ensures forall n, q :: Holds(CD', n, q) <==>
                Holds(CD, n, q) || (q == p && g.Has(n) && (n in nodes1) != (n in nodes2))
      ensures Converse(CD', revCD')
    {
      CD', revCD' := CD, revCD;
      for i := 0 to |g.succs|
        invariant forall n, q :: Holds(CD', n, q) <==>
                    Holds(CD, n, q) || (q == p && n.pos < i && (n in nodes1) != (n in nodes2))
        invariant Converse(CD', revCD')
      {
        var n := Node(i);
        if (n in nodes1) != (n in nodes2) {
          CD' := Insert(CD', n, p);
          revCD' := Insert(revCD', p, n);
        }
      }
    }

    method Compute(g: Graph) returns (ok: bool, CD: Relation, revCD: Relation, ghost caps: map<Node, Option<ColoredAp>>)
      requires g.Valid() && CounterColoring.CountersFit(g) && TwoWay(g)
      ensures Converse(CD, revCD)
      ensures caps.Keys <= g.predicates && (ok ==> caps.Keys == g.predicates)
      ensures Done(ok, CD, g, caps, true)
      ensures AllTrusted(g) ==> ok
      ensures ok ==> RightWhereTrusted(CD, g, true)
    {
      var allmaxpath := new AllMaxPath();
      var allpaths := allmaxpath.Compute(g);
      ok, CD, revCD, caps := true, map[], map[], map[];
      NothingDone(g, true);
      var todo := g.predicates;
      while todo != {} && ok
        invariant todo <= g.predicates && caps.Keys == g.predicates - todo && Converse(CD, revCD)
        invariant Done(ok, CD, g, caps, true)
      {
        var p;
        p, todo := Take(todo);
        ok, CD, revCD, caps := ComputeBoth(p, g, allpaths, CD, revCD, caps);
      }
      DoneIsRight(ok, CD, g, caps, true);
    }

    method ComputeBoth(p: Node, g: Graph, all: Relation, CD: Relation, revCD: Relation,
        ghost caps: map<Node, Option<ColoredAp>>)
      returns (ok: bool, CD': Relation, revCD': Relation, ghost caps': map<Node, Option<ColoredAp>>)
      requires g.Valid() && p in g.predicates && TwoWay(g) && Converse(CD, revCD)
      requires AreColors(g, all) && Done(true, CD, g, caps, true) && p !in caps
      ensures Converse(CD', revCD') && caps'.Keys == caps.Keys + {p} && Done(ok, CD', g, caps', true)
    {
      ghost var cap;
      NodesOf(g, all, p);
      ok, CD', revCD', cap := dod.ComputePredicate(p, g, all[p], CD, revCD);
      ghost var CD1 := CD';
      CD', revCD' := ComputeNTSCD(p, g, all, CD', revCD');
      BothDone(ok, CD, CD1, CD', g, ColoredNodes(g, p), p, cap);
      OneMoreDone(CD, ok, CD', g, caps, p, cap, true);
      caps' := caps[p := cap];
    }
  }

  // ---------------------------------------------------------------------------
  // An assertion that fails

  lemma {:induction false} LassoColored(g: Graph, t: Node)
    requires IsLasso(g) && g.Valid() && (t == Node(1) || t == Node(3)) && t in HitSet(g, {t}, {})
    requires forall s :: g.Edge(t, s) ==> s in HitSet(g, {t}, {})
    ensures Node(0) in CounterColoring.Colored(g, {t})
  {
    var n0 := Node(0);
    Miscoloring.RecoloredIsSpill(g, t);
    assert g.Edge(n0, t);
    forall z | Miscoloring.HoldsTaken(g, t, z)
      ensures n0 in z
    {
      assert CounterColoring.AtMostOneOutside(g.Succs(n0), z);
      assert Miscoloring.TakenIn(g, t, z, n0);
    }
  }

  lemma {:induction false} LassoNotColored(g: Graph)
    requires IsLasso(g) && g.Valid()
    ensures Node(0) !in CounterColoring.Colored(g, {Node(2)})
  {
    var n0, n1, n2, n3 := Node(0), Node(1), Node(2), Node(3);
    HitLocal(g, n2, {n2}, {});
    HitLocal(g, n1, {n2}, {});
    assert forall s :: g.Edge(n1, s) ==> s == n2;
    assert forall p :: g.Edge(p, n2) ==> p == n1;
    ColorsExactly(g, n2);
    assert g.Edge(n0, n3) && g.Edge(n3, n3);
    assert CanStay(g, {n0, n3}, {}, n0) && CanStay(g, {n0, n3}, {}, n3);
    assert Avoiding(g, {n0, n3}, {n2}, {});
  }

  lemma {:induction false} LassoHits(g: Graph)
    requires IsLasso(g) && g.Valid()
    ensures Node(1) in HitSet(g, {Node(1)}, {}) && Node(2) in HitSet(g, {Node(1)}, {})
    ensures Node(3) in HitSet(g, {Node(3)}, {})
    ensures forall s :: (g.Edge(Node(1), s) ==> s == Node(2)) && (g.Edge(Node(3), s) ==> s == Node(3))
  {
    HitLocal(g, Node(1), {Node(1)}, {});
    HitLocal(g, Node(3), {Node(3)}, {});
    assert forall s :: g.Edge(Node(2), s) ==> s == Node(1);
    HitLocal(g, Node(2), {Node(1)}, {});
  }

  lemma {:induction false} LassoColors(g: Graph)
    requires IsLasso(g) && g.Valid()
    ensures ColoredNodes(g, Node(0)) == {Node(0), Node(1), Node(3)}
  {
    LassoHits(g);
    LassoColored(g, Node(1));
    LassoColored(g, Node(3));
    LassoNotColored(g);
    InColoredNodes(g, Node(0), Node(0));
    InColoredNodes(g, Node(0), Node(1));
    InColoredNodes(g, Node(0), Node(2));
    InColoredNodes(g, Node(0), Node(3));
    ThreeOfFour(ColoredNodes(g, Node(0)));
  }

  lemma ThreeOfFour(nodes: set<Node>)
    requires forall t :: t in nodes ==> t == Node(0) || t == Node(1) || t == Node(2) || t == Node(3)
    requires Node(0) in nodes && Node(1) in nodes && Node(2) !in nodes && Node(3) in nodes
    ensures nodes == {Node(0), Node(1), Node(3)}
  {
  }

  /** From node 1 the first node of Ap is node 1 itself; from node 0 both branches are entered. */
  lemma {:induction false} LassoEntries(g: Graph, nodes: set<Node>)
    requires IsLasso(g) && g.Valid() && nodes == {Node(0), Node(1), Node(3)}
    ensures FirstReached(g, nodes, Node(1)) == {Node(1)}
    ensures Node(1) in FirstReached(g, nodes, Node(0)) && Node(3) in FirstReached(g, nodes, Node(0))
  {
    var n0, n1, n2, n3 := Node(0), Node(1), Node(2), Node(3);
    RegionSpreads(g, nodes, n1);
    RegionSpreads(g, nodes, n0);
    assert g.Edge(n1, n2) && g.Edge(n2, n1) && g.Edge(n0, n1) && g.Edge(n0, n3);
    assert n2 in Region(g, nodes, n1) && n1 in Region(g, nodes, n1);
    assert Spreads(g, nodes, n1, {n1, n2});
  }

  lemma {:induction false} LassoIsBuilt(g: Graph, nodes: set<Node>, cap: Option<ColoredAp>)
    requires IsLasso(g) && g.Valid() && nodes == {Node(0), Node(1), Node(3)} && BuiltFor(g, nodes, Node(0), cap)
    ensures cap.Some? && |cap.value.ap| >= 3 && Node(1) in cap.value.ap && cap.value.ap[Node(1)] == [Node(1)]
  {
    assert Shown(true);
    LassoEntries(g, nodes);
    SomethingToDecide(g, nodes, Node(0));
    assert |nodes| == 3;
    assert Lists(cap.value.ap[Node(1)], {Node(1)});
    SingleElement(cap.value.ap[Node(1)], Node(1));
  }

  lemma {:induction false} LoopIsNotWalkable(cap: ColoredAp, n: Node)
    requires |cap.ap| >= 3 && n in cap.ap && cap.ap[n] == [n]
    ensures !Walkable(cap)
  {
    if FitsRing(cap.ap) {
      var fork, c :| ForkRing(cap.ap, fork, c);
      assert |cap.ap[n]| == 1;
      RingNode(cap.ap, fork, c, n);
    }
    NotWalkable(cap);
  }

  /** On the lasso the sets are too large for the predicate 0: in Ap node 1 has only an edge to itself, so
      that there is no cycle of all nodes but one, and an assertion fails. */
  lemma {:induction false} LassoFails(g: Graph, cap: Option<ColoredAp>)
    requires g == Lasso() && BuiltFor(g, ColoredNodes(g, Node(0)), Node(0), cap)
    ensures !Passes(cap)
  {
    LassoIsValid(g);
    LassoColors(g);
    LassoIsBuilt(g, ColoredNodes(g, Node(0)), cap);
    LoopIsNotWalkable(cap.value, Node(1));
  }
}
