/** Decisive order dependence and what the two-coloured cycle of Ap says about it. */
module DecisiveOrder {
  import opened Graphs
  import opened Order
  import opened ApShape
  import opened Ring

  /** No maximal path from p misses m or n; one successor of p decides that m comes first,
      another one that n does. */
  ghost predicate DecidesOrder(g: Graph, p: Node, m: Node, n: Node) {
    && m != n && m in Certain(g, p) && n in Certain(g, p)
    && (exists s :: g.Edge(p, s) && Before(g, s, m, n))
    && (exists s :: g.Edge(p, s) && Before(g, s, n, m))
  }

  /** The relation is broken up into pairs: p decides the order of m and some other node. */
  ghost predicate OrderDependent(g: Graph, p: Node, m: Node) {
    exists n :: DecidesOrder(g, p, m, n)
  }

  // ---------------------------------------------------------------------------
  // The predicate itself is never part of a decided pair

  lemma {:induction false} NotBeforeThePredicate(g: Graph, p: Node, s: Node, n: Node)
    requires g.Valid() && n in Certain(g, p) && n != p && g.Edge(p, s)
    ensures !Before(g, s, p, n)
  {
    if Before(g, s, p, n) {
      var rank := RankingTo(g, n);
      NotBothFirst(g, s, p, n);
      MetEarlier(g, s, n, p, rank);
    }
  }

  lemma {:induction false} PairWithoutPredicate(g: Graph, p: Node, m: Node, n: Node)
    requires g.Valid() && DecidesOrder(g, p, m, n)
    ensures m != p && n != p
  {
    var s :| g.Edge(p, s) && Before(g, s, m, n);
    var t :| g.Edge(p, t) && Before(g, t, n, m);
    if m == p {
      NotBeforeThePredicate(g, p, s, n);
    }
    if n == p {
      NotBeforeThePredicate(g, p, t, m);
    }
  }

  // ---------------------------------------------------------------------------
  // Where the two branches enter Ap

  lemma {:induction false} EntryNotEmpty(g: Graph, p: Node, s: Node, m: Node)
    requires g.Valid() && g.Edge(p, s) && m in Certain(g, p) && m != p
    ensures Entry(g, Certain(g, p), s) != {}
  {
    if s !in Certain(g, p) {
      HitLocal(g, p, {m}, {});
      SomethingFirst(g, Certain(g, p), s, m);
    }
  }

  /** The branch s decides for m exactly if every node where it enters Ap does. */
  lemma {:induction false} EntryDecides(g: Graph, p: Node, s: Node, m: Node, n: Node)
    requires g.Valid() && g.Edge(p, s) && m in Certain(g, p) - {p} && n in Certain(g, p) - {p} && m != n
    ensures Before(g, s, m, n) <==> forall e :: e in Entry(g, Certain(g, p), s) ==> Before(g, e, m, n)
  {
    var nodes := Certain(g, p);
    if s !in nodes {
      HitLocal(g, p, {m}, {});
      if Before(g, s, m, n) {
        forall e | e in Entry(g, nodes, s)
          ensures Before(g, e, m, n)
        {
          HitsForward(g, nodes, s, e, {m}, {n});
        }
      } else if forall e :: e in Entry(g, nodes, s) ==> Before(g, e, m, n) {
        BeforeBackward(g, nodes, s, m, n);
      }
    }
  }

  /** If the branches share an entry, nothing is decided. */
  lemma {:induction false} SharedEntry(g: Graph, p: Node, s1: Node, s2: Node, e: Node, m: Node, n: Node)
    requires g.Valid() && g.Has(p) && g.Succs(p) == [s1, s2]
    requires e in Entry(g, Certain(g, p), s1) && e in Entry(g, Certain(g, p), s2)
    ensures !DecidesOrder(g, p, m, n)
  {
    if DecidesOrder(g, p, m, n) {
      PairWithoutPredicate(g, p, m, n);
      var s :| g.Edge(p, s) && Before(g, s, m, n);
      var t :| g.Edge(p, t) && Before(g, t, n, m);
      EntryDecides(g, p, s, m, n);
      EntryDecides(g, p, t, n, m);
      NotBothFirst(g, e, m, n);
    }
  }

  /** Fewer than two successors of p in Ap. */
  lemma {:induction false} OneEntry(g: Graph, p: Node, s1: Node, s2: Node, a: Node, m: Node, n: Node)
    requires g.Valid() && g.Has(p) && g.Succs(p) == [s1, s2]
    requires ApSuccs(g, p, p) <= {a}
    ensures !DecidesOrder(g, p, m, n)
  {
    if DecidesOrder(g, p, m, n) {
      PairWithoutPredicate(g, p, m, n);
      assert g.Edge(p, s1) && g.Edge(p, s2);
      EntryWithinSuccs(g, Certain(g, p), p, s1);
      EntryWithinSuccs(g, Certain(g, p), p, s2);
      EntryNotEmpty(g, p, s1, m);
      EntryNotEmpty(g, p, s2, m);
      var e1 :| e1 in Entry(g, Certain(g, p), s1);
      var e2 :| e2 in Entry(g, Certain(g, p), s2);
      assert e1 == a == e2;
      SharedEntry(g, p, s1, s2, a, m, n);
    }
  }

  /** Fewer than three nodes in Ap. */
  lemma {:induction false} TooSmall(g: Graph, p: Node, m: Node, n: Node)
    requires g.Valid() && g.Has(p) && |Certain(g, p)| < 3
    ensures !DecidesOrder(g, p, m, n)
  {
    if DecidesOrder(g, p, m, n) {
      PairWithoutPredicate(g, p, m, n);
      CertainHasSelf(g, p);
      ThreeElements(Certain(g, p), p, m, n);
    }
  }

  lemma ThreeElements(s: set<Node>, a: Node, b: Node, c: Node)
    requires a in s && b in s && c in s && a != b && a != c && b != c
    ensures |s| >= 3
  {
    SubsetSize({a, b, c}, s);
  }

  // ---------------------------------------------------------------------------
  // The cycle

  ghost predicate OnRing(c: seq<Node>, nodes: set<Node>) {
    c != [] && Distinct(c) && forall x :: x in c <==> x in nodes
  }

  /** c lists the nodes of Ap other than p in the order of its edges. */
  ghost predicate IsRing(g: Graph, p: Node, c: seq<Node>) {
    && OnRing(c, Certain(g, p) - {p})
    && (forall i {:trigger ApSuccs(g, p, c[i])} :: 0 <= i < |c| ==> ApSuccs(g, p, c[i]) == {c[Next(|c|, i)]})
    && (forall i, j {:trigger OnAllPaths(g, c[i], c[j])} :: 0 <= i < |c| && 0 <= j < |c| ==> OnAllPaths(g, c[i], c[j]))
  }

  /** On the cycle, distances decide what is met first. */
  lemma {:induction false} RingOrder(g: Graph, p: Node, c: seq<Node>, x: nat, i: nat, k: nat)
    requires g.Valid() && g.Has(p) && IsRing(g, p, c) && x < |c| && i < |c| && k < |c| && i != k
    ensures Before(g, c[x], c[i], c[k]) <==> Dist(|c|, x, i) < Dist(|c|, x, k)
    decreases Dist(|c|, x, i) + Dist(|c|, x, k)
  {
    assert c[x] in c && c[i] in c && c[k] in c && c[i] != c[k];
    BeforeLocal(g, c[x], c[i], c[k]);
    if x != i && x != k {
      var y := Next(|c|, x);
      assert ApSuccs(g, p, c[x]) == {c[y]} && OnAllPaths(g, c[x], c[i]);
      RingOrder(g, p, c, y, i, k);
      assert c[x] != c[i] && c[x] != c[k];
      if Before(g, c[x], c[i], c[k]) {
        HitsForward(g, Certain(g, p), c[x], c[y], {c[i]}, {c[k]});
      } else if Before(g, c[y], c[i], c[k]) {
        assert forall v :: v in ApSuccs(g, p, c[x]) ==> Before(g, v, c[i], c[k]);
        BeforeBackward(g, Certain(g, p), c[x], c[i], c[k]);
      }
    }
  }

  ghost function Positions(c: seq<Node>, a: set<Node>): set<nat> {
    set i: nat | i < |c| && c[i] in a
  }

  lemma {:induction false} RingDecides(g: Graph, p: Node, s: Node, c: seq<Node>, i: nat, k: nat)
    requires g.Valid() && g.Edge(p, s) && IsRing(g, p, c) && i < |c| && k < |c| && i != k
    requires Entry(g, Certain(g, p), s) <= Certain(g, p) - {p}
    ensures Before(g, s, c[i], c[k]) <==> AllCloser(|c|, Positions(c, Entry(g, Certain(g, p), s)), i, k)
  {
    var entry := Entry(g, Certain(g, p), s);
    assert c[i] in c && c[k] in c && c[i] != c[k];
    EntryDecides(g, p, s, c[i], c[k]);
    forall x: nat | x < |c|
      ensures Before(g, c[x], c[i], c[k]) <==> Dist(|c|, x, i) < Dist(|c|, x, k)
    {
      RingOrder(g, p, c, x, i, k);
    }
    if AllCloser(|c|, Positions(c, entry), i, k) {
      forall e | e in entry
        ensures Before(g, e, c[i], c[k])
      {
        assert e in c;
        var x: nat :| x < |c| && c[x] == e;
        assert x in Positions(c, entry);
      }
    } else {
      var x: nat :| x in Positions(c, entry) && Dist(|c|, x, i) >= Dist(|c|, x, k);
      assert c[x] in entry && !Before(g, c[x], c[i], c[k]);
    }
  }

  lemma {:induction false} TwoBranches(g: Graph, p: Node, s1: Node, s2: Node, m: Node, n: Node)
    requires g.Valid() && g.Has(p) && g.Succs(p) == [s1, s2]
    requires m != n && m in Certain(g, p) && n in Certain(g, p)
    ensures DecidesOrder(g, p, m, n) <==>
            (Before(g, s1, m, n) && Before(g, s2, n, m)) || (Before(g, s1, n, m) && Before(g, s2, m, n))
  {
    assert g.Edge(p, s1) && g.Edge(p, s2);
    forall s | g.Edge(p, s) && Before(g, s, m, n)
      ensures !Before(g, s, n, m)
    {
      NotBothFirst(g, s, m, n);
    }
  }

  /** Two branches with disjoint entries decide the order of two nodes of the cycle exactly
      if the positions of these nodes separate the colours. */
  lemma {:induction false} DecidesBySeparation(g: Graph, p: Node, s1: Node, s2: Node, c: seq<Node>,
                                               blue: set<nat>, red: set<nat>, i: nat, k: nat)
    requires g.Valid() && g.Has(p) && g.Succs(p) == [s1, s2] && IsRing(g, p, c) && i < |c| && k < |c| && i != k
    requires Entry(g, Certain(g, p), s1) <= Certain(g, p) - {p} && Entry(g, Certain(g, p), s2) <= Certain(g, p) - {p}
    requires blue == Positions(c, Entry(g, Certain(g, p), s1)) && red == Positions(c, Entry(g, Certain(g, p), s2))
    requires Colors(|c|, blue, red)
    ensures DecidesOrder(g, p, c[i], c[k]) <==> Separates(|c|, blue, red, i, k) || Separates(|c|, blue, red, k, i)
  {
    assert g.Edge(p, s1) && g.Edge(p, s2);
    RingDecides(g, p, s1, c, i, k);
    RingDecides(g, p, s1, c, k, i);
    RingDecides(g, p, s2, c, i, k);
    RingDecides(g, p, s2, c, k, i);
    assert c[i] in c && c[k] in c && c[i] != c[k];
    TwoBranches(g, p, s1, s2, c[i], c[k]);
  }
}
