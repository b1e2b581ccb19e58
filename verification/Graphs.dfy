/** The graph on which control dependencies are computed, and the relation that all
    the algorithms compute in one way or another: "every maximal path from s meets a
    target before it meets a blocked node".

    A node is named by its position in the node vector; the identifier that the program
    prints and stores in colours is that position plus one. */
module Graphs {

  datatype Node = Node(pos: nat)

  datatype Graph = Graph(succs: seq<seq<Node>>, preds: seq<seq<Node>>, predicates: set<Node>) {

    predicate Has(u: Node) {
      u.pos < |succs|
    }

    ghost function Nodes(): (nodes: set<Node>)
      ensures forall u :: u in nodes <==> Has(u)
    {
      set i: nat | i < |succs| :: Node(i)
    }

    function Succs(u: Node): seq<Node>
      requires Has(u)
    {
      succs[u.pos]
    }

    function Preds(u: Node): seq<Node>
      requires |preds| == |succs| && Has(u)
    {
      preds[u.pos]
    }

    ghost predicate Edge(u: Node, v: Node) {
      Has(u) && v in Succs(u)
    }

    predicate Sink(u: Node)
      requires Has(u)
    {
      Succs(u) == []
    }

    /** Edges stay in the graph, no edge is stored twice, the two edge lists mirror each
        other, and the predicates are the nodes with more than one successor. */
    ghost predicate Valid() {
      && |preds| == |succs|
      && (forall u, v :: Edge(u, v) ==> Has(v))
      && (forall u, v :: Has(u) && v in Preds(u) ==> Edge(v, u))
      && (forall u, v :: Edge(u, v) ==> u in Preds(v))
      && (forall u :: Has(u) ==> Distinct(Succs(u)) && Distinct(Preds(u)))
      && (forall u :: u in predicates <==> Has(u) && |Succs(u)| > 1)
    }
  }

  /** One step of a walk over a set, in whatever order. */
  method Take(s: set<Node>) returns (x: Node, rest: set<Node>)
    requires s != {}
    ensures x in s && rest == s - {x}
  {
    x :| x in s;
    rest := s - {x};
  }

  ghost predicate IsLeast(s: set<Node>, x: Node) {
    x in s && forall y :: y in s ==> x.pos <= y.pos
  }

  lemma {:induction false} LeastExists(s: set<Node>, x: Node)
    requires x in s
    ensures exists m :: IsLeast(s, m)
    decreases x.pos
  {
    if y :| y in s && y.pos < x.pos {
      LeastExists(s, y);
    } else {
      assert IsLeast(s, x);
    }
  }

  /** The walk over a set of bits begins with the lowest one. */
  ghost function Least(s: set<Node>): (x: Node)
    requires s != {}
    ensures IsLeast(s, x)
  {
    var y :| y in s;
    LeastExists(s, y);
    var x :| IsLeast(s, x);
    x
  }

  method TakeLeast(s: set<Node>) returns (x: Node)
    requires s != {}
    ensures x == Least(s)
  {
    var todo;
    x, todo := Take(s);
    while todo != {}
      invariant todo <= s && x in s && forall y :: y in s - todo ==> x.pos <= y.pos
      decreases todo
    {
      var y;
      y, todo := Take(todo);
      if y.pos < x.pos {
        x := y;
      }
    }
  }

  ghost predicate Distinct<T>(s: seq<T>) {
    forall i, j :: 0 <= i < j < |s| ==> s[i] != s[j]
  }

  // ---------------------------------------------------------------------------
  // Building a graph

  function InsertOnce<T(==)>(s: seq<T>, x: T): seq<T> {
    if x in s then s else s + [x]
  }

  lemma WithEdgeIsValid(g: Graph, g': Graph, nd: Node, succ: Node)
    requires g.Valid() && g.Has(nd) && g.Has(succ)
    requires g'.succs == g.succs[nd.pos := InsertOnce(g.Succs(nd), succ)]
    requires g'.preds == g.preds[succ.pos := InsertOnce(g.Preds(succ), nd)]
    requires g'.predicates == g.predicates + if |g'.succs[nd.pos]| > 1 then {nd} else {}
    ensures forall u, v :: g'.Edge(u, v) <==> g.Edge(u, v) || (u == nd && v == succ)
    ensures g'.Valid()
  {
    assert forall u, v :: g'.Edge(u, v) <==> g.Edge(u, v) || (u == nd && v == succ);
    assert forall u, v :: g'.Has(u) && v in g'.Preds(u) <==> (g.Has(u) && v in g.Preds(u)) || (u == succ && v == nd);
    assert forall u :: g'.Has(u) <==> g.Has(u);
  }

  /** The graph under construction: `nodes` and edges only grow. */
  class CDGraph {
    var succs: seq<seq<Node>>
    var preds: seq<seq<Node>>
    var predicates: set<Node>

    ghost function Value(): Graph
      reads this
    {
      Graph(succs, preds, predicates)
    }

    constructor ()
      ensures Value().Valid() && Value().Nodes() == {}
    {
      succs, preds, predicates := [], [], {};
    }

    method CreateNode() returns (nd: Node)
      requires Value().Valid()
      modifies this
      ensures Value().Valid()
      ensures nd !in old(Value()).Nodes() && Value().Nodes() == old(Value()).Nodes() + {nd}
      ensures forall u, v :: Value().Edge(u, v) <==> old(Value()).Edge(u, v)
    {
      nd := Node(|succs|);
      succs := succs + [[]];
      preds := preds + [[]];
      assert forall u :: Value().Has(u) ==> Value().Succs(u) == (if u == nd then [] else old(Value()).Succs(u));
      assert forall u :: Value().Has(u) ==> Value().Preds(u) == (if u == nd then [] else old(Value()).Preds(u));
      assert forall u, v :: Value().Edge(u, v) <==> old(Value()).Edge(u, v);
    }

    method AddNodeSuccessor(nd: Node, succ: Node)
      requires Value().Valid() && Value().Has(nd) && Value().Has(succ)
      modifies this
      ensures Value().Valid()
      ensures Value().Nodes() == old(Value()).Nodes()
      ensures forall u, v :: Value().Edge(u, v) <==> old(Value()).Edge(u, v) || (u == nd && v == succ)
    {
      ghost var before := Value();
      AddSuccessor(nd, succ);
      if |succs[nd.pos]| > 1 {
        predicates := predicates + {nd};
      }
      WithEdgeIsValid(before, Value(), nd, succ);
    }

    /** The edge is recorded on both ends, each time only if it is not there yet. */
    method AddSuccessor(nd: Node, succ: Node)
      requires Value().Valid() && Value().Has(nd) && Value().Has(succ)
      modifies `succs, `preds
      ensures |succs| == |old(succs)| == |preds|
      ensures succs == old(succs)[nd.pos := InsertOnce(old(succs)[nd.pos], succ)]
      ensures preds == old(preds)[succ.pos := InsertOnce(old(preds)[succ.pos], nd)]
    {
      assert succ in succs[nd.pos] <==> Value().Edge(nd, succ);
      if succ in succs[nd.pos] {
        return;
      }
      succs := succs[nd.pos := succs[nd.pos] + [succ]];
      if nd in preds[succ.pos] {
        return;
      }
      preds := preds[succ.pos := preds[succ.pos] + [nd]];
    }
  }

  // ---------------------------------------------------------------------------
  // All maximal paths meet a target

  /** From every node of `a` one can stay in `a` until a sink or a blocked node is met,
      and `a` holds no target. */
  ghost predicate Avoiding(g: Graph, a: set<Node>, targets: set<Node>, blocked: set<Node>) {
    && a <= g.Nodes()
    && a !! targets
    && forall u {:trigger CanStay(g, a, blocked, u)} :: u in a ==> CanStay(g, a, blocked, u)
  }

  ghost predicate CanStay(g: Graph, a: set<Node>, blocked: set<Node>, u: Node) {
    u in blocked || (g.Has(u) && g.Sink(u)) || exists v :: v in a && g.Edge(u, v)
  }

  /** Every maximal path from s meets `targets`, and does so before it meets `blocked`. */
  ghost predicate AllHit(g: Graph, s: Node, targets: set<Node>, blocked: set<Node>) {
    g.Has(s) && forall a :: Avoiding(g, a, targets, blocked) ==> s !in a
  }

  /** Every maximal path from s contains n. */
  ghost predicate OnAllPaths(g: Graph, s: Node, n: Node) {
    AllHit(g, s, {n}, {})
  }

  /** Every maximal path from s contains m, and no n in front of the first m. */
  ghost predicate Before(g: Graph, s: Node, m: Node, n: Node) {
    AllHit(g, s, {m}, {n})
  }

  ghost function HitSet(g: Graph, targets: set<Node>, blocked: set<Node>): set<Node> {
    set s | s in g.Nodes() && AllHit(g, s, targets, blocked)
  }

  /** The hit nodes satisfy the local rule in both directions. */
  lemma {:induction false} HitLocal(g: Graph, u: Node, targets: set<Node>, blocked: set<Node>)
    requires g.Valid() && g.Has(u)
    ensures AllHit(g, u, targets, blocked) <==>
            u in targets || Joins(g, blocked, HitSet(g, targets, blocked), u)
  {
    if u in targets {
    } else if u in blocked || g.Sink(u) {
      assert CanStay(g, {u}, blocked, u);
      assert Avoiding(g, {u}, targets, blocked);
    } else if v :| g.Edge(u, v) && !AllHit(g, v, targets, blocked) {
      var a :| Avoiding(g, a, targets, blocked) && v in a;
      assert Avoiding(g, a + {u}, targets, blocked) by {
        forall w | w in a + {u}
          ensures CanStay(g, a + {u}, blocked, w)
        {
          if w in a {
            assert CanStay(g, a, blocked, w);
            if x :| x in a && g.Edge(w, x) {
              assert x in a + {u};
            }
          } else {
            assert v in a + {u} && g.Edge(w, v);
          }
        }
      }
    } else {
      forall a | Avoiding(g, a, targets, blocked)
        ensures u !in a
      {
        assert forall v :: g.Edge(u, v) ==> v !in a;
        assert !CanStay(g, a, blocked, u);
      }
    }
  }

  /** A set that contains the targets and obeys the rule contains every hit node: the hit
      set is the least such set. */
  lemma {:induction false} HitLeast(g: Graph, c: set<Node>, targets: set<Node>, blocked: set<Node>)
    requires g.Valid() && targets * g.Nodes() <= c
    requires forall u :: Joins(g, blocked, c, u) ==> u in c
    ensures HitSet(g, targets, blocked) <= c
  {
    var a := g.Nodes() - c;
    assert Avoiding(g, a, targets, blocked) by {
      forall u | u in a
        ensures CanStay(g, a, blocked, u)
      {
        if u !in blocked && !g.Sink(u) {
          var v :| g.Edge(u, v) && v !in c;
          assert v in a;
        }
      }
    }
    forall s | s in HitSet(g, targets, blocked)
      ensures s in c
    {
      assert s !in a;
    }
  }

  // ---------------------------------------------------------------------------
  // Rounds: the same set, built from below

  ghost function Rounds(g: Graph, targets: set<Node>, blocked: set<Node>, k: nat): set<Node> {
    if k == 0 then targets * g.Nodes()
    else
      var r := Rounds(g, targets, blocked, k - 1);
      r + set u | u in g.Nodes() && Joins(g, blocked, r, u)
  }

  /** The local rule: u is not blocked, has successors, and all of them are in r. */
  ghost predicate Joins(g: Graph, blocked: set<Node>, r: set<Node>, u: Node) {
    g.Has(u) && u !in blocked && !g.Sink(u) && forall v :: g.Edge(u, v) ==> v in r
  }

  ghost predicate StableAt(g: Graph, targets: set<Node>, blocked: set<Node>, k: nat) {
    Rounds(g, targets, blocked, k) == Rounds(g, targets, blocked, k + 1)
  }

  /** A growing chain of sets stops growing at some step, or has as many elements as steps. */
  lemma {:induction false} ChainGrows(chain: nat -> set<Node>, k: nat)
    requires forall i: nat :: chain(i) <= chain(i + 1)
    ensures k <= |chain(k)| || exists i: nat :: i < k && chain(i) == chain(i + 1)
  {
    if k > 0 {
      ChainGrows(chain, k - 1);
      if chain(k - 1) != chain(k - 1 + 1) {
        StrictSubset(chain(k - 1), chain(k - 1 + 1));
      }
    }
  }

  lemma {:induction false} StrictSubset<T>(a: set<T>, b: set<T>)
    requires a < b
    ensures |a| < |b|
  {
    assert b == a + (b - a);
    assert |b| == |a| + |b - a|;
  }

  lemma {:induction false} SubsetSize<T>(a: set<T>, b: set<T>)
    requires a <= b
    ensures |a| <= |b|
  {
    if a != b {
      StrictSubset(a, b);
    }
  }

  lemma {:induction false} EqualBySize<T>(a: set<T>, b: set<T>)
    requires a <= b && |a| == |b|
    ensures a == b
  {
    if a != b {
      StrictSubset(a, b);
    }
  }

  lemma {:induction false} RoundsWithin(g: Graph, targets: set<Node>, blocked: set<Node>, k: nat)
    requires g.Valid()
    ensures Rounds(g, targets, blocked, k) <= HitSet(g, targets, blocked)
  {
    if k > 0 {
      RoundsWithin(g, targets, blocked, k - 1);
    }
    forall u | u in Rounds(g, targets, blocked, k)
      ensures u in HitSet(g, targets, blocked)
    {
      HitLocal(g, u, targets, blocked);
      if k > 0 && u !in Rounds(g, targets, blocked, k - 1) {
        forall v | g.Edge(u, v)
          ensures AllHit(g, v, targets, blocked)
        {
          assert v in Rounds(g, targets, blocked, k - 1);
        }
      }
    }
  }

  lemma {:induction false} StableRound(g: Graph, targets: set<Node>, blocked: set<Node>, k: nat)
    requires g.Valid() && StableAt(g, targets, blocked, k)
    ensures Rounds(g, targets, blocked, k) == HitSet(g, targets, blocked)
  {
    var r := Rounds(g, targets, blocked, k);
    RoundsWithin(g, targets, blocked, k);
    RoundsKeepTargets(g, targets, blocked, k);
    forall u | Joins(g, blocked, r, u)
      ensures u in r
    {
      assert u in Rounds(g, targets, blocked, k + 1);
    }
    HitLeast(g, r, targets, blocked);
  }

  lemma {:induction false} RoundsKeepTargets(g: Graph, targets: set<Node>, blocked: set<Node>, k: nat)
    ensures targets * g.Nodes() <= Rounds(g, targets, blocked, k)
  {
    if k > 0 {
      RoundsKeepTargets(g, targets, blocked, k - 1);
    }
  }

  lemma {:induction false} RoundsReach(g: Graph, targets: set<Node>, blocked: set<Node>)
    requires g.Valid()
    ensures exists k: nat :: Rounds(g, targets, blocked, k) == HitSet(g, targets, blocked)
  {
    var chain := (k: nat) => Rounds(g, targets, blocked, k);
    var n := |g.Nodes()| + 1;
    ChainGrows(chain, n);
    RoundsWithin(g, targets, blocked, n);
    SubsetSize(chain(n), g.Nodes());
    var k: nat :| k < n && chain(k) == chain(k + 1);
    assert StableAt(g, targets, blocked, k);
    StableRound(g, targets, blocked, k);
  }

  ghost predicate Enters(g: Graph, targets: set<Node>, blocked: set<Node>, u: Node, k: nat) {
    u in Rounds(g, targets, blocked, k) && forall i :: 0 <= i < k ==> u !in Rounds(g, targets, blocked, i)
  }

  lemma {:induction false} SomeRoundIsFirst(g: Graph, targets: set<Node>, blocked: set<Node>, u: Node, k: nat)
    requires u in Rounds(g, targets, blocked, k)
    ensures exists i: nat :: i <= k && Enters(g, targets, blocked, u, i)
  {
    if i :| 0 <= i < k && u in Rounds(g, targets, blocked, i) {
      SomeRoundIsFirst(g, targets, blocked, u, i);
    } else {
      assert Enters(g, targets, blocked, u, k);
    }
  }

  lemma {:induction false} HitEnters(g: Graph, targets: set<Node>, blocked: set<Node>, u: Node)
    requires g.Valid() && AllHit(g, u, targets, blocked)
    ensures exists k: nat :: Enters(g, targets, blocked, u, k)
  {
    RoundsReach(g, targets, blocked);
    var k: nat :| Rounds(g, targets, blocked, k) == HitSet(g, targets, blocked);
    SomeRoundIsFirst(g, targets, blocked, u, k);
  }

  /** The first round in which a hit node appears. */
  ghost function Rank(g: Graph, targets: set<Node>, blocked: set<Node>, u: Node): (k: nat)
    requires g.Valid() && AllHit(g, u, targets, blocked)
    ensures Enters(g, targets, blocked, u, k)
  {
    HitEnters(g, targets, blocked, u);
    var k: nat :| Enters(g, targets, blocked, u, k);
    k
  }

  lemma {:induction false} FirstRound(g: Graph, targets: set<Node>, blocked: set<Node>, u: Node, v: Node, k: nat)
    requires g.Valid() && Enters(g, targets, blocked, u, k) && u !in targets && g.Edge(u, v)
    ensures u !in blocked && !g.Sink(u)
    ensures exists i: nat :: i < k && Enters(g, targets, blocked, v, i)
  {
    assert k > 0 ==> u !in Rounds(g, targets, blocked, k - 1);
    SomeRoundIsFirst(g, targets, blocked, v, k - 1);
  }

  lemma {:induction false} FirstIsUnique(g: Graph, targets: set<Node>, blocked: set<Node>, u: Node, i: nat, k: nat)
    requires Enters(g, targets, blocked, u, i) && Enters(g, targets, blocked, u, k)
    ensures i == k
  {
    assert !(i < k) && !(k < i);
  }

  /** Along every edge that leaves a hit node outside the targets the rank drops. */
  lemma {:induction false} RankDrops(g: Graph, targets: set<Node>, blocked: set<Node>, u: Node, v: Node)
    requires g.Valid() && AllHit(g, u, targets, blocked) && u !in targets && g.Edge(u, v)
    ensures u !in blocked && !g.Sink(u) && AllHit(g, v, targets, blocked)
    ensures Rank(g, targets, blocked, v) < Rank(g, targets, blocked, u)
  {
    var k := Rank(g, targets, blocked, u);
    FirstRound(g, targets, blocked, u, v, k);
    var i: nat :| i < k && Enters(g, targets, blocked, v, i);
    RoundsWithin(g, targets, blocked, i);
    FirstIsUnique(g, targets, blocked, v, i, Rank(g, targets, blocked, v));
  }
}
