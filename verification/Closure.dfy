/** The strong control closure of a set of nodes: as long as some edge makes a difference to
    what is met of the set, the node where it starts is added. */
module ControlClosure {
  import opened Graphs
  import opened Guards
  import opened SetQueues
  import opened Order
  import opened DODAnalysis
  import CC = CounterColoring
  import CounterNTSCD
  import Miscoloring

  // ---------------------------------------------------------------------------
  // Closed sets

  ghost predicate Follows(g: Graph, x: set<Node>, r: set<Node>) {
    && (forall u, v {:trigger u in x, v in r} :: u in x && g.Edge(u, v) ==> v in r)
    && (forall u, v {:trigger u in r, v in r} :: u in r && g.Edge(u, v) ==> v in r)
  }

  /** The nodes that can be reached from x by at least one edge. */
  ghost function Reached(g: Graph, x: set<Node>): set<Node> {
    set n | n in g.Nodes() && forall r :: Follows(g, x, r) ==> n in r
  }

  lemma {:induction false} ReachedFollows(g: Graph, x: set<Node>)
    requires g.Valid()
    ensures Follows(g, x, Reached(g, x))
  {
  }

  /** Every node reached from y meets no node of y, or cannot miss y and meets it in a
      single node. */
  ghost predicate StronglyClosed(g: Graph, y: set<Node>) {
    forall n {:trigger n in Reached(g, y)} :: n in Reached(g, y) ==>
      Entry(g, y, n) == {} || (|Entry(g, y, n)| == 1 && AllHit(g, n, y, {}))
  }

  /** The three tests on the edge from p to r. Which nodes can miss x is decided by colours. */
  ghost predicate Critical(g: Graph, x: set<Node>, p: Node, r: Node) {
    && |Entry(g, x, r)| == 1
    && r in CC.Colored(g, x)
    && (|Entry(g, x, p)| >= 2 || p !in CC.Colored(g, x))
  }

  // ---------------------------------------------------------------------------
  // No critical edge: closed

  ghost predicate Undecided(g: Graph, x: set<Node>, n: Node) {
    Entry(g, x, n) != {} && (|Entry(g, x, n)| >= 2 || n !in CC.Colored(g, x))
  }

  lemma {:induction false} NonEmptySize<T>(s: set<T>)
    requires s != {}
    ensures |s| >= 1
  {
  }

  lemma MemberEntry(g: Graph, x: set<Node>, n: Node)
    requires n in x
    ensures Entry(g, x, n) == {n} && |Entry(g, x, n)| == 1
  {
  }

  /** From an undecided node every edge leads to an undecided node or out of reach of x. */
  lemma {:induction false} UndecidedStays(g: Graph, x: set<Node>, n: Node, m: Node)
    requires g.Valid() && x <= g.Nodes() && g.Edge(n, m) && !Critical(g, x, n, m)
    requires Undecided(g, x, n) || Entry(g, x, n) == {}
    ensures n !in x
    ensures Undecided(g, x, m) || Entry(g, x, m) == {}
  {
    if n in x {
      MemberEntry(g, x, n);
    } else if Entry(g, x, n) == {} {
      EntryWithinSuccs(g, x, n, m);
    } else if Entry(g, x, m) != {} {
      NonEmptySize(Entry(g, x, m));
    }
  }

  ghost predicate NoneCritical(g: Graph, x: set<Node>) {
    forall p, r {:trigger Critical(g, x, p, r)} :: p in Reached(g, x) && g.Edge(p, r) ==> !Critical(g, x, p, r)
  }

  ghost predicate Lost(g: Graph, x: set<Node>, n: Node) {
    Undecided(g, x, n) || Entry(g, x, n) == {}
  }

  lemma {:induction false} LostOutside(g: Graph, x: set<Node>, n: Node)
    requires x <= g.Nodes() && Lost(g, x, n)
    ensures n !in x
  {
    if n in x {
      MemberEntry(g, x, n);
    }
  }

  lemma {:induction false} LostSpreads(g: Graph, x: set<Node>, n: Node, r: set<Node>)
    requires g.Valid() && x <= g.Nodes() && n in Reached(g, x) && NoneCritical(g, x) && Lost(g, x, n)
    requires forall u :: u in r <==> u in Reached(g, x) && Lost(g, x, u)
    ensures Spreads(g, x, n, r)
  {
    ReachedFollows(g, x);
    forall u, v | u in r && g.Edge(u, v)
      ensures v in r
    {
      assert v in Reached(g, x);
      UndecidedStays(g, x, u, v);
    }
  }

  /** An undecided node would never lead to x. */
  lemma {:induction false} NoneUndecided(g: Graph, x: set<Node>, n: Node)
    requires g.Valid() && x <= g.Nodes() && n in Reached(g, x) && NoneCritical(g, x)
    ensures !Undecided(g, x, n)
  {
    if Undecided(g, x, n) {
      var r := set u | u in Reached(g, x) && Lost(g, x, u);
      LostSpreads(g, x, n, r);
      LostOutside(g, x, n);
      forall u | u in r
        ensures u !in x
      {
        LostOutside(g, x, u);
      }
      MissesByRegion(g, x, n, r);
    }
  }

  lemma {:induction false} MissesByRegion(g: Graph, x: set<Node>, n: Node, r: set<Node>)
    requires Spreads(g, x, n, r) && r !! x && n !in x
    ensures Entry(g, x, n) == {}
  {
  }

  lemma {:induction false} NoCriticalEdge(g: Graph, x: set<Node>, n: Node)
    requires g.Valid() && x <= g.Nodes() && n in Reached(g, x) && NoneCritical(g, x)
    ensures Entry(g, x, n) == {} || (|Entry(g, x, n)| == 1 && n in CC.Colored(g, x))
  {
    NoneUndecided(g, x, n);
    if Entry(g, x, n) != {} {
      NonEmptySize(Entry(g, x, n));
    }
  }

  // ---------------------------------------------------------------------------
  // A critical edge starts in every closed superset

  lemma {:induction false} ReachedGrows(g: Graph, x: set<Node>, y: set<Node>)
    requires g.Valid() && x <= y
    ensures Reached(g, x) <= Reached(g, y)
  {
    ReachedFollows(g, y);
    assert Follows(g, x, Reached(g, y));
  }

  lemma {:induction false} NothingMet(g: Graph, nodes: set<Node>, u: Node, targets: set<Node>)
    requires g.Valid() && targets <= nodes && FirstReached(g, nodes, u) == {}
    ensures Avoiding(g, Region(g, nodes, u), targets, {})
  {
    var region := Region(g, nodes, u);
    RegionSpreads(g, nodes, u);
    forall v | v in region
      ensures v !in targets && CanStay(g, region, {}, v)
    {
      assert v in nodes ==> v in FirstReached(g, nodes, u);
      if !g.Sink(v) {
        assert g.Edge(v, g.Succs(v)[0]);
        assert g.Succs(v)[0] in region;
      }
    }
  }

  lemma {:induction false} SomethingMet(g: Graph, y: set<Node>, p: Node, r: Node)
    requires g.Valid() && g.Edge(p, r) && AllHit(g, r, y, {})
    ensures FirstReached(g, y, p) != {}
  {
    RegionSpreads(g, y, p);
    assert r in Region(g, y, p);
    if FirstReached(g, y, p) == {} {
      NothingMet(g, y, p, y);
    }
  }

  /** What p meets of x it meets behind e. */
  lemma {:induction false} EntryThrough(g: Graph, p: Node, y: set<Node>, x: set<Node>, e: Node)
    requires g.Valid() && x <= y && p !in y && FirstReached(g, y, p) == {e}
    ensures FirstReached(g, x, p) <= Entry(g, x, e)
  {
    RegionSpreads(g, y, p);
    RegionSpreads(g, x, e);
    var region := Region(g, y, p);
    forall u | u in region && u in y
      ensures u == e
    {
      assert u in FirstReached(g, y, p);
    }
    var r := if e in x then region else region + Region(g, x, e);
    forall u, v | u in r && u !in x && g.Edge(u, v)
      ensures v in r
    {
      if u in region && u !in y {
        assert v in region;
      } else {
        assert v in Region(g, x, e);
      }
    }
    forall v | g.Edge(p, v)
      ensures v in r
    {
      assert v in region;
    }
    assert Spreads(g, x, p, r);
  }

  /** What e meets of x is met from r as well, if r leads to e past the rest of y. */
  lemma {:induction false} EntryBehind(g: Graph, r: Node, y: set<Node>, x: set<Node>, e: Node)
    requires g.Valid() && g.Has(r) && x <= y && e in Entry(g, y, r)
    ensures Entry(g, x, e) <= Entry(g, x, r)
  {
    if r !in y {
      var region := Region(g, x, r);
      RegionSpreads(g, x, r);
      assert Spreads(g, y, r, region);
      assert e in region;
      if e !in x {
        forall v | g.Edge(e, v)
          ensures v in region
        {
        }
        assert Spreads(g, x, e, region);
      }
    }
  }

  /** What is met of x is met of a superset, or something else of it before. */
  lemma {:induction false} EntryStays(g: Graph, x: set<Node>, y: set<Node>, r: Node)
    requires g.Valid() && x <= y && Entry(g, x, r) != {}
    ensures Entry(g, y, r) != {}
  {
    if r !in y && FirstReached(g, y, r) == {} {
      var region := Region(g, y, r);
      RegionSpreads(g, y, r);
      forall u | u in region
        ensures u !in y
      {
        assert u in y ==> u in FirstReached(g, y, r);
      }
      assert Spreads(g, x, r, region);
    }
  }

  /** If all paths from r go to e before anything else of y, the search colours r only if it colours e. */
  lemma {:induction false} ColorComesBack(g: Graph, x: set<Node>, y: set<Node>, r: Node, e: Node)
    requires g.Valid() && x <= y && r !in y && FirstReached(g, y, r) == {e} && e !in CC.Colored(g, x)
    ensures r !in CC.Colored(g, x)
  {
    var way := {r} + Region(g, y, r);
    var z := CC.Fired(g, x) - way;
    RegionSpreads(g, y, r);
    CounterNTSCD.FiredIsClosed(g, x);
    forall v | CC.Fires(g, x, z, v)
      ensures v in z
    {
      CC.CountGrows(g.Succs(v), z, CC.Fired(g, x));
      assert CC.Fires(g, x, CC.Fired(g, x), v);
      if v in way {
        OnlyOnTheWay(g, x, y, r, e, z, v);
      }
    }
    assert CC.ClosedUnderFiring(g, x, z);
    Miscoloring.ClosedHoldsFired(g, x, z);
  }

  /** Nothing fires on the way to e. */
  lemma {:induction false} OnlyOnTheWay(g: Graph, x: set<Node>, y: set<Node>, r: Node, e: Node, z: set<Node>, v: Node)
    requires g.Valid() && x <= y && r !in y && FirstReached(g, y, r) == {e} && e !in x
    requires v == r || v in Region(g, y, r)
    requires z !! {r} + Region(g, y, r) && CC.Fires(g, x, z, v)
    ensures v == e
  {
    RegionSpreads(g, y, r);
    if v != e {
      assert v in y ==> v in FirstReached(g, y, r);
      forall w | w in g.Succs(v)
        ensures w !in x && w !in z
      {
        assert g.Edge(v, w);
        assert w in Region(g, y, r);
        assert w in y ==> w in FirstReached(g, y, r);
      }
      CountNothing(g.Succs(v), x);
      CountNothing(g.Succs(v), z);
    }
  }

  lemma {:induction false} CountNothing(s: seq<Node>, a: set<Node>)
    requires forall w :: w in s ==> w !in a
    ensures CC.Count(s, a) == 0
  {
    CC.Coloring.CountNone(s);
    Miscoloring.CountSame(s, a, {});
  }

  /** If all paths from v go to e before anything else of y, the search colours v if it colours e. */
  lemma {:induction false} ColorGoesOn(g: Graph, x: set<Node>, y: set<Node>, p: Node, e: Node, v: Node)
    requires g.Valid() && x <= y && FirstReached(g, y, p) == {e} && e in CC.Colored(g, x)
    requires v == p || v in Region(g, y, p)
    requires (v == p ==> p !in y) && AllHit(g, v, y, {})
    ensures v in CC.Colored(g, x)
    decreases Rank(g, y, {}, v)
  {
    if v in y {
      assert v in FirstReached(g, y, p);
    } else {
      RegionSpreads(g, y, p);
      HitLocal(g, v, y, {});
      forall w | w in g.Succs(v)
        ensures w in x + CC.Fired(g, x)
      {
        assert g.Edge(v, w);
        RankDrops(g, y, {}, v, w);
        assert w in Region(g, y, p);
        if w == p && p in y {
          assert w in FirstReached(g, y, p);
        } else {
          ColorGoesOn(g, x, y, p, e, w);
        }
      }
      CC.CountAll(g.Succs(v), x + CC.Fired(g, x));
      CounterNTSCD.CountUnion(g.Succs(v), x, CC.Fired(g, x));
      CounterNTSCD.FiredIsClosed(g, x);
      assert CC.Fires(g, x, CC.Fired(g, x), v);
    }
  }

  /** In a strongly closed superset of x, every node at which a critical edge starts is contained, even if
      the colours are wrong. */
  lemma {:induction false} CriticalIsNeeded(g: Graph, x: set<Node>, y: set<Node>, p: Node, r: Node)
    requires g.Valid() && x <= y <= g.Nodes() && StronglyClosed(g, y)
    requires p in Reached(g, x) && g.Edge(p, r) && Critical(g, x, p, r)
    ensures p in y
  {
    if p !in y {
      ReachedGrows(g, x, y);
      ReachedFollows(g, y);
      assert r in Reached(g, y);
      assert Entry(g, x, r) != {};
      EntryStays(g, x, y, r);
      EntryWithinSuccs(g, y, p, r);
      assert p in Reached(g, y) && |FirstReached(g, y, p)| == 1 && AllHit(g, p, y, {});
      var e :| e in Entry(g, y, r);
      OneElement(FirstReached(g, y, p), e);
      OneElement(Entry(g, y, r), e);
      CriticalThrough(g, x, y, p, r, e);
    }
  }

  lemma {:induction false} OneElement<T>(s: set<T>, e: T)
    requires e in s && |s| == 1
    ensures s == {e}
  {
    if s != {e} {
      StrictSubset({e}, s);
    }
  }

  lemma {:induction false} CriticalThrough(g: Graph, x: set<Node>, y: set<Node>, p: Node, r: Node, e: Node)
    requires g.Valid() && x <= y <= g.Nodes() && p !in y && g.Edge(p, r)
    requires FirstReached(g, y, p) == {e} && Entry(g, y, r) == {e} && AllHit(g, p, y, {})
    requires |Entry(g, x, r)| == 1 && r in CC.Colored(g, x)
    ensures |Entry(g, x, p)| < 2 && p in CC.Colored(g, x)
  {
    EntryThrough(g, p, y, x, e);
    EntryBehind(g, r, y, x, e);
    SubsetSize(Entry(g, x, p), Entry(g, x, r));
    if e !in CC.Colored(g, x) && r !in y {
      ColorComesBack(g, x, y, r, e);
    }
    ColorGoesOn(g, x, y, p, e, p);
  }

  // ---------------------------------------------------------------------------
  // When the result is strongly closed

  /** A node is overcounted only if it can meet the targets. */
  lemma {:induction false} OvercountedMeets(g: Graph, x: set<Node>, n: Node)
    requires g.Valid() && x <= g.Nodes() && Miscoloring.Overcounted(g, x, n)
    ensures n in CC.Colored(g, x) && !AllHit(g, n, x, {}) && Entry(g, x, n) != {}
  {
    var hits := HitSet(g, x, {});
    Miscoloring.OvercountedIsColored(g, x, n);
    Miscoloring.TargetsAreHit(g, x);
    if forall v :: v in g.Succs(n) ==> v !in hits {
      CountNothing(g.Succs(n), hits);
      CountNothing(g.Succs(n), Miscoloring.Reentered(g, x));
    } else {
      var v :| v in g.Succs(n) && v in hits;
      assert g.Edge(n, v);
      SomethingMet(g, x, n, v);
    }
  }

  /** A set without critical edges is strongly closed just if no node reached from it is overcounted. */
  lemma {:induction false} ClosedExactly(g: Graph, x: set<Node>)
    requires g.Valid() && x <= g.Nodes() && NoneCritical(g, x)
    ensures StronglyClosed(g, x) <==> forall n :: n in Reached(g, x) ==> !Miscoloring.Overcounted(g, x, n)
  {
    if n :| n in Reached(g, x) && Miscoloring.Overcounted(g, x, n) {
      OvercountedMeets(g, x, n);
    } else {
      ReachedFollows(g, x);
      Miscoloring.ColorsExactlyWithin(g, x, Reached(g, x));
      forall n | n in Reached(g, x)
        ensures Entry(g, x, n) == {} || (|Entry(g, x, n)| == 1 && AllHit(g, n, x, {}))
      {
        NoCriticalEdge(g, x, n);
      }
    }
  }

  /** Nodes 0 and 1 have edges to themselves, 1 leads to 0 and 2 leads to 1. */
  function Stray(): Graph {
    var n0, n1, n2 := Node(0), Node(1), Node(2);
    Graph([[n0], [n0, n1], [n1]], [[n0, n1], [n1, n2], []], {n1})
  }

  ghost predicate IsStray(g: Graph) {
    && |g.succs| == 3 == |g.preds| && g.predicates == {Node(1)}
    && (forall u :: g.Has(u) <==> u == Node(0) || u == Node(1) || u == Node(2))
    && g.Succs(Node(0)) == [Node(0)] && g.Succs(Node(1)) == [Node(0), Node(1)] && g.Succs(Node(2)) == [Node(1)]
    && g.Preds(Node(0)) == [Node(0), Node(1)] && g.Preds(Node(1)) == [Node(1), Node(2)] && g.Preds(Node(2)) == []
  }

  lemma StrayIsValid(g: Graph)
    requires g == Stray()
    ensures IsStray(g) && g.Valid()
  {
    assert forall u :: g.Has(u) <==> u == Node(0) || u == Node(1) || u == Node(2);
    assert forall u, v :: g.Edge(u, v) <==>
        (u, v) in {(Node(0), Node(0)), (Node(1), Node(0)), (Node(1), Node(1)), (Node(2), Node(1))};
  }

  /** Control can stay in node 1 for ever, but node 0 is processed twice and makes up for that. */
  lemma {:induction false} StrayOvercounts(g: Graph, x: set<Node>)
    requires IsStray(g) && g.Valid() && x == {Node(0), Node(2)}
    ensures Miscoloring.Overcounted(g, x, Node(1)) && Node(1) in Reached(g, x)
  {
    var n0, n1 := Node(0), Node(1);
    var hits := HitSet(g, x, {});
    assert g.Edge(n1, n1) && g.Edge(Node(2), n1) && g.Edge(n1, n0);
    assert CanStay(g, {n1}, {}, n1);
    assert Avoiding(g, {n1}, x, {});
    HitLocal(g, n0, x, {});
    assert n0 in Miscoloring.Reentered(g, x) by {
      forall r | Miscoloring.HoldsMadeUp(g, x, r)
        ensures n0 in r
      {
        CC.CountAll(g.Succs(n0), hits);
        assert Miscoloring.MadeUp(g, hits, r, n0);
      }
    }
    assert CC.AtMostOneOutside(g.Succs(n1), hits);
    CC.CountAllButOne(g.Succs(n1), hits);
    SomeCounted(g.Succs(n1), Miscoloring.Reentered(g, x), n0);
  }

  lemma {:induction false} SomeCounted(s: seq<Node>, a: set<Node>, y: Node)
    requires y in s && y in a
    ensures CC.Count(s, a) >= 1
  {
    if s[|s| - 1] != y {
      SomeCounted(s[..|s| - 1], a, y);
    }
  }

  /** No edge is critical, and yet the set is not strongly closed, so that the program returns it unchanged. */
  lemma {:induction false} StrayIsNotClosed(g: Graph, x: set<Node>)
    requires g == Stray() && x == {Node(0), Node(2)}
    ensures g.Valid() && x <= g.Nodes() && NoneCritical(g, x) && !StronglyClosed(g, x)
  {
    StrayIsValid(g);
    StrayOvercounts(g, x);
    OvercountedMeets(g, x, Node(1));
    StrayUncritical(g, x);
  }

  lemma {:induction false} StrayUncritical(g: Graph, x: set<Node>)
    requires IsStray(g) && g.Valid() && x == {Node(0), Node(2)} && Node(1) in CC.Colored(g, x)
    ensures NoneCritical(g, x)
  {
    var n0, n1 := Node(0), Node(1);
    assert Follows(g, x, {n0, n1});
    assert Spreads(g, x, n1, {n0, n1});
    assert Entry(g, x, n1) <= {n0};
    SubsetSize(Entry(g, x, n1), {n0});
    MemberEntry(g, x, n0);
  }

  // ---------------------------------------------------------------------------
  // The algorithm

  /** The nodes of x that are met first from n on. */
  method Theta(g: Graph, x: set<Node>, n: Node) returns (retval: set<Node>)
    requires g.Valid() && g.Has(n)
    ensures retval == Entry(g, x, n)
  {
    if n in x {
      return {n};
    }
    var found := FirstReachable(g, x, n);
    retval := set m | m in found;
  }

  /** The nodes that are left uncoloured; from each of them the targets can be missed. */
  method Gamma(g: Graph, targets: set<Node>) returns (retval: set<Node>)
    requires g.Valid() && CC.CountersFit(g) && targets <= g.Nodes()
    ensures forall n :: n in retval <==> g.Has(n) && n !in CC.Colored(g, targets)
    ensures forall n :: n in retval ==> !AllHit(g, n, targets, {})
  {
    var coloring := new CC.Coloring();
    ghost var pushes := coloring.Search(g, targets);
    retval := Uncolored(g, coloring);
    forall n | n in retval
      ensures !AllHit(g, n, targets, {})
    {
      UncoloredMisses(g, targets, n);
    }
  }

  lemma {:induction false} UncoloredMisses(g: Graph, targets: set<Node>, n: Node)
    requires g.Valid() && g.Has(n) && n !in CC.Colored(g, targets)
    ensures !AllHit(g, n, targets, {})
  {
    CounterNTSCD.ColorsEnough(g, targets);
    assert n !in HitSet(g, targets, {});
  }

  method Uncolored(g: Graph, coloring: CC.Coloring) returns (retval: set<Node>)
    ensures forall n :: n in retval <==> g.Has(n) && !coloring.IsColored(n)
  {
    retval := {};
    for i := 0 to |g.succs|
      invariant forall n :: n in retval <==> n.pos < i && !coloring.IsColored(n)
    {
      if !coloring.IsColored(Node(i)) {
        retval := retval + {Node(i)};
      }
    }
  }

  method IsCritical(g: Graph, x: set<Node>, p: Node, r: Node) returns (critical: bool)
    requires g.Valid() && CC.CountersFit(g) && x <= g.Nodes() && g.Edge(p, r)
    ensures critical <==> Critical(g, x, p, r)
  {
    var thetaR := Theta(g, x, r);
    if |thetaR| != 1 {
      return false;
    }
    var gam := Gamma(g, x);
    if r in gam {
      return false;
    }
    var thetaP := Theta(g, x, p);
    if |thetaP| < 2 && p !in gam {
      return false;
    }
    return true;
  }

  /** What has left the queue has no critical edge, and its successors have been queued. */
  ghost predicate Examined(g: Graph, x: set<Node>, queued: set<Node>, queue: seq<Node>) {
    forall k {:trigger Shown(k)} :: Shown(k) ==>
      forall u, v {:trigger g.Edge(u, v)} ::
          u in queued && u !in queue && g.Edge(u, v) ==> v in queued && !Critical(g, x, u, v)
  }

  lemma ExaminedNext(g: Graph, x: set<Node>, queued: set<Node>, queue: seq<Node>, p: Node, queued': set<Node>,
      queue': seq<Node>)
    requires Examined(g, x, queued, queue) && forall r :: g.Edge(p, r) ==> !Critical(g, x, p, r)
    requires forall y :: y in queued' <==> y in queued || g.Edge(p, y)
    requires forall y :: y in queue && y != p ==> y in queue'
    requires forall y :: y in queued' && y !in queued ==> y in queue'
    ensures Examined(g, x, queued', queue')
  {
    assert Shown(true);
  }

  lemma AllExamined(g: Graph, x: set<Node>, queued: set<Node>)
    requires Examined(g, x, queued, []) && queued <= Reached(g, x)
    requires forall u, v {:trigger g.Edge(u, v)} :: u in x && g.Edge(u, v) ==> v in queued
    ensures NoneCritical(g, x)
  {
    assert Shown(true);
    assert Follows(g, x, queued);
  }

  /** A node at which a critical edge starts, if there is one within reach of x. */
  method FindNode(g: Graph, x: set<Node>) returns (toadd: Option<Node>)
    requires g.Valid() && CC.CountersFit(g) && x <= g.Nodes()
    ensures toadd.Some? ==> toadd.value in Reached(g, x) && StartsCritical(g, x, toadd.value)
    ensures toadd.None? ==> NoneCritical(g, x)
  {
    ReachedFollows(g, x);
    var q := PushAllSuccessors(g, x);
    while q.queue != []
      invariant q.Valid() && fresh(q)
      invariant q.queued <= Reached(g, x)
      invariant forall u, v {:trigger g.Edge(u, v)} :: u in x && g.Edge(u, v) ==> v in q.queued
      invariant Examined(g, x, q.queued, q.queue)
      decreases g.Nodes() - q.queued, |q.queue|
    {
      ghost var queued, queue := q.queued, q.queue;
      var p := q.Pop();
      assert p in Reached(g, x);
      var found := HasCriticalEdge(g, x, p);
      if found {
        return Some(p);
      }
      q.PushSuccessors(g, p);
      ExaminedNext(g, x, queued, queue, p, q.queued, q.queue);
    }
    AllExamined(g, x, q.queued);
    toadd := None;
  }

  method PushAllSuccessors(g: Graph, x: set<Node>) returns (q: SetQueue)
    requires g.Valid() && x <= g.Nodes()
    ensures fresh(q) && q.Valid() && forall v :: v in q.queued ==> v in q.queue
    ensures q.queued <= Reached(g, x)
    ensures forall u, v :: u in x && g.Edge(u, v) ==> v in q.queued
  {
    ReachedFollows(g, x);
    q := new SetQueue();
    var todo := x;
    while todo != {}
      invariant q.Valid() && fresh(q) && todo <= x
      invariant forall v :: v in q.queued ==> v in q.queue
      invariant q.queued <= Reached(g, x)
      invariant forall u, v :: u in x - todo && g.Edge(u, v) ==> v in q.queued
    {
      var u;
      u, todo := Take(todo);
      q.PushSuccessors(g, u);
    }
  }

  ghost predicate StartsCritical(g: Graph, x: set<Node>, p: Node) {
    exists r :: g.Edge(p, r) && Critical(g, x, p, r)
  }

  /** None of the first i edges is critical. */
  ghost predicate NotCriticalYet(g: Graph, x: set<Node>, p: Node, i: nat)
    requires g.Has(p) && i <= |g.Succs(p)|
  {
    forall k {:trigger Shown(k)} ::
        Shown(k) ==> forall j {:trigger g.Succs(p)[j]} :: 0 <= j < i ==> !Critical(g, x, p, g.Succs(p)[j])
  }

  lemma NextNotCritical(g: Graph, x: set<Node>, p: Node, i: nat)
    requires g.Has(p) && i < |g.Succs(p)| && NotCriticalYet(g, x, p, i) && !Critical(g, x, p, g.Succs(p)[i])
    ensures NotCriticalYet(g, x, p, i + 1)
  {
    assert Shown(true);
  }

  lemma NothingCritical(g: Graph, x: set<Node>, p: Node)
    requires g.Has(p) && NotCriticalYet(g, x, p, |g.Succs(p)|)
    ensures !StartsCritical(g, x, p)
  {
    assert Shown(true);
  }

  method HasCriticalEdge(g: Graph, x: set<Node>, p: Node) returns (found: bool)
    requires g.Valid() && CC.CountersFit(g) && x <= g.Nodes() && g.Has(p)
    ensures found <==> StartsCritical(g, x, p)
  {
    for i := 0 to |g.Succs(p)|
      invariant NotCriticalYet(g, x, p, i)
    {
      var r := g.Succs(p)[i];
      assert g.Edge(p, r);
      var critical := IsCritical(g, x, p, r);
      if critical {
        return true;
      }
      NextNotCritical(g, x, p, i);
    }
    NothingCritical(g, x, p);
    found := false;
  }

  /** The result contains x, is contained in every strongly closed set around x, and nothing critical is left
      within its reach. It is strongly closed itself, and so the least such set, unless the search overcounts a
      node that is reached from it. */
  method CloseSet(g: Graph, x: set<Node>) returns (x': set<Node>)
    requires g.Valid() && CC.CountersFit(g) && x <= g.Nodes()
    ensures x <= x' <= g.Nodes()
    ensures forall n :: n in Reached(g, x') ==>
              Entry(g, x', n) == {} || (|Entry(g, x', n)| == 1 && n in CC.Colored(g, x'))
    ensures forall y :: x <= y <= g.Nodes() && StronglyClosed(g, y) ==> x' <= y
    ensures StronglyClosed(g, x') <==> forall n :: n in Reached(g, x') ==> !Miscoloring.Overcounted(g, x', n)
  {
    x' := x;
    while true
      invariant x <= x' <= g.Nodes()
      invariant forall y :: x <= y <= g.Nodes() && StronglyClosed(g, y) ==> x' <= y
      decreases g.Nodes() - x'
    {
      var toadd := FindNode(g, x');
      if toadd.None? {
        break;
      }
      NewNode(g, x', toadd.value);
      forall y | x <= y <= g.Nodes() && StronglyClosed(g, y)
        ensures toadd.value in y
      {
        var r :| g.Edge(toadd.value, r) && Critical(g, x', toadd.value, r);
        CriticalIsNeeded(g, x', y, toadd.value, r);
      }
      x' := x' + {toadd.value};
    }
    ClosedExactly(g, x');
    forall n | n in Reached(g, x')
      ensures Entry(g, x', n) == {} || (|Entry(g, x', n)| == 1 && n in CC.Colored(g, x'))
    {
      NoCriticalEdge(g, x', n);
    }
  }

  /** A node of the set fails the third test, so every round adds a new node. */
  lemma {:induction false} NewNode(g: Graph, x: set<Node>, p: Node)
    requires x <= g.Nodes() && StartsCritical(g, x, p)
    ensures p !in x
  {
    if p in x {
      MemberEntry(g, x, p);
    }
  }
}
