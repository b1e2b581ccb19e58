/** The graph Ap of a predicate p: its nodes are those that no maximal path from p misses,
    and its edges lead to the first of them. If p has two successors in Ap, all the other
    nodes form one cycle that p is not on. */
module ApShape {
  import opened Graphs
  import opened Order

  /** The nodes on all maximal paths from p. */
  ghost function Certain(g: Graph, p: Node): set<Node> {
    set n | n in g.Nodes() && OnAllPaths(g, p, n)
  }

  ghost function ApSuccs(g: Graph, p: Node, x: Node): set<Node> {
    FirstReached(g, Certain(g, p), x)
  }

  ghost predicate Forks(g: Graph, p: Node, a: Node, b: Node) {
    g.Valid() && g.Has(p) && a != b && a in ApSuccs(g, p, p) && b in ApSuccs(g, p, p)
  }

  lemma {:induction false} CertainHasSelf(g: Graph, p: Node)
    requires g.Valid() && g.Has(p)
    ensures p in Certain(g, p)
  {
    HitLocal(g, p, {p}, {});
  }

  lemma {:induction false} NotOwnSuccessor(g: Graph, p: Node, a: Node, b: Node)
    requires Forks(g, p, a, b)
    ensures a in Certain(g, p) - {p} && b in Certain(g, p) - {p}
  {
    if p in ApSuccs(g, p, p) {
      var c := if a == p then b else a;
      var rank := RankingTo(g, c);
      RankForward(g, Certain(g, p), p, p, c, rank);
    }
  }

  /** From a first node nothing else can be missed. */
  lemma {:induction false} FromFirst(g: Graph, p: Node, a: Node, y: Node)
    requires g.Valid() && g.Has(p) && a in ApSuccs(g, p, p) && y in Certain(g, p) && y != p
    ensures OnAllPaths(g, a, y)
  {
    HitsForward(g, Certain(g, p), p, a, {y}, {});
  }

  lemma {:induction false} ToFirst(g: Graph, p: Node, a: Node, b: Node, y: Node)
    requires Forks(g, p, a, b) && y in Certain(g, p) && y != p
    ensures OnAllPaths(g, y, a)
  {
    var nodes := Certain(g, p);
    NotOwnSuccessor(g, p, a, b);
    FromFirst(g, p, a, a);
    FromFirst(g, p, a, b);
    FromFirst(g, p, b, a);
    FromFirst(g, p, a, y);
    if y != a && y != b {
      if !Before(g, p, a, y) {
        var rank := RankingTo(g, a);
        MetEarlier(g, p, a, y, rank);
      } else if !Before(g, p, b, y) {
        var rank := RankingTo(g, b);
        MetEarlier(g, p, b, y, rank);
        OnAllPathsChain(g, y, b, a);
      } else {
        HitsForward(g, nodes, p, b, {a}, {y});
        HitsForward(g, nodes, p, a, {b}, {y});
        PastForEver(g, a, b, y);
      }
    }
  }

  /** Apart from p, no node of Ap can be missed from any other. */
  lemma {:induction false} AllMutual(g: Graph, p: Node, a: Node, b: Node, x: Node, y: Node)
    requires Forks(g, p, a, b) && x in Certain(g, p) - {p} && y in Certain(g, p) - {p}
    ensures OnAllPaths(g, x, y)
  {
    ToFirst(g, p, a, b, x);
    FromFirst(g, p, a, y);
    OnAllPathsChain(g, x, a, y);
  }

  /** If x leads to p and p to a, with b on neither way, every path from a meets b in front of x. */
  lemma {:induction false} RoundTrip(g: Graph, nodes: set<Node>, x: Node, p: Node, a: Node, b: Node)
    requires g.Valid() && b in nodes && x != b && p != b && OnAllPaths(g, x, b)
    requires p in FirstReached(g, nodes, x) && a in FirstReached(g, nodes, p)
    ensures x != a && Before(g, a, b, x)
  {
    var rank := RankingTo(g, b);
    RankForward(g, nodes, x, p, b, rank);
    RankForward(g, nodes, p, a, b, rank);
    if !Before(g, a, b, x) {
      MetEarlier(g, a, b, x, rank);
    }
  }

  lemma {:induction false} BackToPredicate(g: Graph, p: Node, a: Node, b: Node, x: Node)
    requires Forks(g, p, a, b) && x in Certain(g, p) - {p} && p in ApSuccs(g, p, x) && x != b
    ensures x != a && Before(g, a, b, x)
  {
    NotOwnSuccessor(g, p, a, b);
    AllMutual(g, p, a, b, x, b);
    RoundTrip(g, Certain(g, p), x, p, a, b);
  }

  lemma {:induction false} NoWayBack(g: Graph, p: Node, a: Node, b: Node, x: Node)
    requires Forks(g, p, a, b) && x in Certain(g, p) - {p}
    ensures p !in ApSuccs(g, p, x)
  {
    if p in ApSuccs(g, p, x) {
      if x != b {
        BackToPredicate(g, p, a, b, x);
      }
      if x != a {
        BackToPredicate(g, p, b, a, x);
      }
      NotOwnSuccessor(g, p, a, b);
      AllMutual(g, p, a, b, a, x);
      PastForEver(g, a, b, x);
    }
  }

  lemma {:induction false} NoLoop(g: Graph, p: Node, a: Node, b: Node)
    requires Forks(g, p, a, b)
    ensures p !in ApSuccs(g, p, p)
  {
    if p in ApSuccs(g, p, p) {
      if a != p {
        NotOwnSuccessor(g, p, p, a);
      } else {
        NotOwnSuccessor(g, p, p, b);
      }
    }
  }

  /** No node of Ap leads back to p. */
  lemma {:induction false} NeverBack(g: Graph, p: Node, a: Node, b: Node, x: Node)
    requires Forks(g, p, a, b) && x in Certain(g, p)
    ensures p !in ApSuccs(g, p, x)
  {
    if x == p {
      NoLoop(g, p, a, b);
    } else {
      NoWayBack(g, p, a, b, x);
    }
  }

  /** From a successor y of x every path meets the other successor z in front of x. */
  lemma {:induction false} SecondSuccessor(g: Graph, p: Node, a: Node, b: Node, x: Node, y: Node, z: Node)
    requires Forks(g, p, a, b) && x in Certain(g, p) - {p} && y in Certain(g, p) - {p} && z in Certain(g, p) - {p}
    requires y in ApSuccs(g, p, x) && x != z && y != z
    ensures x != y && Before(g, y, z, x)
  {
    AllMutual(g, p, a, b, x, z);
    AllMutual(g, p, a, b, y, z);
    var rank := RankingTo(g, z);
    RankForward(g, Certain(g, p), x, y, z, rank);
    if !Before(g, y, z, x) {
      MetEarlier(g, y, z, x, rank);
    }
  }

  lemma {:induction false} AtMostOneSuccessor(g: Graph, p: Node, a: Node, b: Node, x: Node, y: Node, z: Node)
    requires Forks(g, p, a, b) && x in Certain(g, p) - {p} && y in ApSuccs(g, p, x) && z in ApSuccs(g, p, x)
    ensures y == z
  {
    NeverBack(g, p, a, b, x);
    if y != z {
      if x != z {
        SecondSuccessor(g, p, a, b, x, y, z);
      }
      if x != y {
        SecondSuccessor(g, p, a, b, x, z, y);
      }
      PastForEver(g, y, z, x);
      AllMutual(g, p, a, b, y, x);
    }
  }

  lemma {:induction false} HasSuccessor(g: Graph, p: Node, a: Node, b: Node, x: Node)
    requires Forks(g, p, a, b) && x in Certain(g, p) - {p}
    ensures ApSuccs(g, p, x) != {}
  {
    NotOwnSuccessor(g, p, a, b);
    var c := if x == a then b else a;
    AllMutual(g, p, a, b, x, c);
    SomethingFirst(g, Certain(g, p), x, c);
  }

  /** The successor is a step closer to every other node. */
  lemma {:induction false} StepCloser(g: Graph, p: Node, a: Node, b: Node, x: Node, y: Node, t: Node,
      rank: map<Node, nat>)
    requires Forks(g, p, a, b) && x in Certain(g, p) - {p} && y in ApSuccs(g, p, x)
    requires t in Certain(g, p) - {p} && t != x && RanksTo(g, t, rank)
    ensures x in rank && y in rank && rank[y] < rank[x]
  {
    AllMutual(g, p, a, b, x, t);
    RankForward(g, Certain(g, p), x, y, t, rank);
  }

  lemma {:induction false} NotItself(g: Graph, p: Node, a: Node, b: Node, x: Node)
    requires Forks(g, p, a, b) && x in Certain(g, p) - {p}
    ensures x !in ApSuccs(g, p, x)
  {
    if x in ApSuccs(g, p, x) {
      NotOwnSuccessor(g, p, a, b);
      var t := if x == a then b else a;
      var rank := RankingTo(g, t);
      StepCloser(g, p, a, b, x, x, t, rank);
    }
  }

  lemma {:induction false} NotThePredicate(g: Graph, p: Node, a: Node, b: Node, y: Node)
    requires Forks(g, p, a, b) && y in ApSuccs(g, p, p)
    ensures y != p
  {
    NotOwnSuccessor(g, p, y, if y == a then b else a);
  }

  /** A node other than p has one successor in Ap, and that is neither p nor the node itself. */
  lemma {:induction false} OneSuccessor(g: Graph, p: Node, a: Node, b: Node, x: Node) returns (y: Node)
    requires Forks(g, p, a, b) && x in Certain(g, p) - {p}
    ensures ApSuccs(g, p, x) == {y} && y in Certain(g, p) - {p} && y != x
  {
    HasSuccessor(g, p, a, b, x);
    NeverBack(g, p, a, b, x);
    y :| y in ApSuccs(g, p, x);
    NotItself(g, p, a, b, x);
    forall z | z in ApSuccs(g, p, x)
      ensures z == y
    {
      AtMostOneSuccessor(g, p, a, b, x, y, z);
    }
  }
}
