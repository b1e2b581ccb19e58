/** The computation of decisive order dependence: build Ap, colour the nodes where the two
    branches enter it, walk round the cycle and record the arcs behind the last blue and
    the last red node.

    The assertions of the program on the shape of Ap are modelled as a result `ok`, which is
    false where the program would abort. */
module DODAnalysis {
  import opened Graphs
  import opened Guards
  import opened Relations
  import opened SetQueues
  import opened Order
  import opened ApShape
  import opened Ring
  import opened DecisiveOrder

  datatype Option<T> = None | Some(value: T)

  /** Ap with its edges; its nodes go by the names of the nodes they stand for. */
  type ApGraph = map<Node, seq<Node>>

  datatype ColoredAp = ColoredAp(ap: ApGraph, blues: set<Node>, reds: set<Node>)

  // ---------------------------------------------------------------------------
  // Building Ap

  ghost predicate Searching(g: Graph, nodes: set<Node>, from: Node, queued: set<Node>, queue: seq<Node>,
      found: seq<Node>) {
    && queued <= g.Nodes()
    && (forall v :: g.Edge(from, v) ==> v in queued)
    && (forall x, v :: x in queued && x !in queue && x !in nodes && g.Edge(x, v) ==> v in queued)
    && (forall x :: x in found <==> x in queued && x !in queue && x in nodes)
    && Distinct(found)
  }

  ghost predicate OnlyReached(g: Graph, nodes: set<Node>, from: Node, queued: set<Node>) {
    forall r :: Spreads(g, nodes, from, r) ==> queued <= r
  }

  /** Finds the first nodes of `nodes` on the paths that leave `from`, each of them once. */
  method FirstReachable(g: Graph, nodes: set<Node>, from: Node) returns (found: seq<Node>)
    requires g.Valid() && g.Has(from)
    ensures Lists(found, FirstReached(g, nodes, from))
  {
    var q := new SetQueue();
    q.PushSuccessors(g, from);
    found := [];
    while q.queue != []
      invariant q.Valid() && fresh(q)
      invariant Searching(g, nodes, from, q.queued, q.queue, found)
      invariant OnlyReached(g, nodes, from, q.queued)
      decreases g.Nodes() - q.queued, |q.queue|
    {
      var cur := q.Pop();
      if cur in nodes {
        found := found + [cur];
      } else {
        ghost var before := q.queued;
        q.PushSuccessors(g, cur);
        forall r | Spreads(g, nodes, from, r)
          ensures q.queued <= r
        {
          assert before <= r;
        }
      }
    }
    RegionSpreads(g, nodes, from);
    assert q.queued <= Region(g, nodes, from);
    assert Spreads(g, nodes, from, q.queued);
  }

  ghost predicate Lists(s: seq<Node>, t: set<Node>) {
    Distinct(s) && forall y {:trigger y in s} {:trigger y in t} :: y in s <==> y in t
  }

  /** The edges of Ap are those to the first nodes. */
  ghost predicate Represents(g: Graph, nodes: set<Node>, ap: ApGraph) {
    && ap.Keys == nodes
    && forall x {:trigger ap[x]} :: x in ap ==> Lists(ap[x], FirstReached(g, nodes, x))
  }

  lemma {:induction false} DistinctPair(s: seq<Node>, t: set<Node>)
    requires Lists(s, t)
    ensures |s| >= 2 ==> exists a, b :: a in t && b in t && a != b
    ensures |s| < 2 ==> exists a :: t <= {a}
  {
    if |s| >= 2 {
      assert s[0] in t && s[1] in t && s[0] != s[1];
    } else if |s| == 1 {
      assert t <= {s[0]};
    } else {
      assert t <= {Node(0)};
    }
  }

  method CreateAp(g: Graph, nodes: set<Node>, p: Node) returns (r: Option<ApGraph>)
    requires g.Valid() && nodes <= g.Nodes() && p in nodes
    ensures r.Some? ==> Represents(g, nodes, r.value) && |r.value| >= 3 && |r.value[p]| >= 2
    ensures r.None? <==> |nodes| < 3 || exists a :: FirstReached(g, nodes, p) <= {a}
  {
    if |nodes| < 3 {
      return None;
    }
    var ap: ApGraph := map[];
    var todo := nodes;
    while todo != {}
      invariant todo <= nodes && ap.Keys == nodes - todo
      invariant forall x {:trigger ap[x]} :: x in ap ==> Lists(ap[x], FirstReached(g, nodes, x))
    {
      var n;
      n, todo := Take(todo);
      var succs := FirstReachable(g, nodes, n);
      ap := ap[n := succs];
    }
    DistinctPair(ap[p], FirstReached(g, nodes, p));
    if |ap[p]| < 2 {
      return None;
    }
    assert ap.Keys == nodes;
    r := Some(ap);
  }

  /** The nodes that carry the colour of one successor of the predicate. */
  method EntryNodes(g: Graph, nodes: set<Node>, s: Node) returns (entry: set<Node>)
    requires g.Valid() && g.Has(s)
    ensures entry == Entry(g, nodes, s)
  {
    if s in nodes {
      entry := {s};
    } else {
      var found := FirstReachable(g, nodes, s);
      entry := set x | x in found;
    }
  }

  /** Ap is too small, p enters it in one place only, or both branches can enter it in the same place. */
  ghost predicate NothingToDecide(g: Graph, nodes: set<Node>, p: Node) {
    forall k {:trigger Shown(k)} :: Shown(k) ==>
      || |nodes| < 3
      || (exists a :: FirstReached(g, nodes, p) <= {a})
      || (g.Has(p) && |g.Succs(p)| == 2 && Entry(g, nodes, g.Succs(p)[0]) * Entry(g, nodes, g.Succs(p)[1]) != {})
  }

  lemma SomethingToDecide(g: Graph, nodes: set<Node>, p: Node)
    requires g.Has(p) && |g.Succs(p)| == 2
    ensures NothingToDecide(g, nodes, p) <==>
      || |nodes| < 3
      || (exists a :: FirstReached(g, nodes, p) <= {a})
      || Entry(g, nodes, g.Succs(p)[0]) * Entry(g, nodes, g.Succs(p)[1]) != {}
  {
    assert Shown(true);
  }

  /** Ap has at least three nodes, and each branch of p colours where it enters. */
  ghost predicate Built(g: Graph, nodes: set<Node>, p: Node, cap: ColoredAp) {
    && g.Has(p) && |g.Succs(p)| == 2
    && Represents(g, nodes, cap.ap) && |cap.ap| >= 3
    && cap.blues == Entry(g, nodes, g.Succs(p)[0]) && cap.reds == Entry(g, nodes, g.Succs(p)[1])
    && cap.blues !! cap.reds
  }

  method CreateColoredAp(g: Graph, nodes: set<Node>, p: Node) returns (r: Option<ColoredAp>)
    requires g.Valid() && nodes <= g.Nodes() && p in nodes && |g.Succs(p)| == 2
    ensures r.None? <==> NothingToDecide(g, nodes, p)
    ensures r.Some? ==> Built(g, nodes, p, r.value)
  {
    var ap := CreateAp(g, nodes, p);
    if ap.None? {
      SomethingToDecide(g, nodes, p);
      return None;
    }
    var bluesucc, redsucc := g.Succs(p)[0], g.Succs(p)[1];
    assert g.Edge(p, bluesucc) && g.Edge(p, redsucc);
    var blues := EntryNodes(g, nodes, bluesucc);
    var reds := EntryNodes(g, nodes, redsucc);
    SomethingToDecide(g, nodes, p);
    if blues * reds != {} {
      return None;
    }
    assert forall e :: e in blues && e in reds ==> e in blues * reds;
    r := Some(ColoredAp(ap.value, blues, reds));
  }

  // ---------------------------------------------------------------------------
  // The shape of Ap

  ghost predicate Closed(ap: ApGraph) {
    forall x, y :: x in ap && y in ap[x] ==> y in ap
  }

  /** All nodes but p lie on the cycle c and have no other edges. */
  ghost predicate ApRing(ap: ApGraph, p: Node, c: seq<Node>) {
    && p in ap
    && OnRing(c, ap.Keys - {p})
    && forall i {:trigger ap[c[i]]} :: 0 <= i < |c| ==> c[i] in ap && ap[c[i]] == [c[Next(|c|, i)]]
  }

  type Ranks = map<Node, map<Node, nat>>

  /** The shape that Ap has if it is built from the right nodes: `ranks[t]` drops along every
      edge that does not leave t. */
  ghost predicate WellShaped(ap: ApGraph, p: Node, ranks: Ranks) {
    && p in ap && |ap[p]| > 1
    && (forall y :: y in ap[p] ==> y != p)
    && (forall x :: x in ap && x != p ==> |ap[x]| == 1 && ap[x][0] != p && ap[x][0] != x)
    && (forall t, x {:trigger Descends(ap, ranks, t, x)} :: t in ap && x in ap && t != p && x != p && x != t ==>
          Descends(ap, ranks, t, x))
  }

  ghost predicate Descends(ap: ApGraph, ranks: Ranks, t: Node, x: Node)
    requires x in ap && ap[x] != []
  {
    t in ranks && x in ranks[t] && ap[x][0] in ranks[t] && ranks[t][ap[x][0]] < ranks[t][x]
  }

  /** All nodes but the fork lie on the cycle c, and the walk from the fork does not lead back to it. */
  ghost predicate ForkRing(ap: ApGraph, fork: Node, c: seq<Node>) {
    fork in ap && |ap[fork]| > 1 && ap[fork][0] != fork && ApRing(ap, fork, c)
  }

  ghost predicate FitsRing(ap: ApGraph) {
    exists fork, c :: ForkRing(ap, fork, c)
  }

  lemma {:induction false} RingNode(ap: ApGraph, fork: Node, c: seq<Node>, n: Node)
    requires ForkRing(ap, fork, c) && |ap| >= 3 && n in ap && n != fork
    ensures |ap[n]| == 1 && ap[n][0] != n
  {
    assert n in c;
    var i: nat :| i < |c| && c[i] == n;
    RingStep(ap, fork, c, i);
    if |c| == 1 {
      assert forall x :: x in ap ==> x == fork || x in c;
      SubsetSize(ap.Keys, {fork, c[0]});
    } else {
      assert Next(|c|, i) != i;
    }
  }

  /** The assertions in the walk over the nodes hold if there is a fork f with a cycle d. */
  method FindFork(ap: ApGraph, ghost f: Node, ghost d: seq<Node>) returns (ok: bool, fork: Node)
    requires Closed(ap) && |ap| >= 3
    ensures ok ==> fork in ap && |ap[fork]| > 1
    ensures ForkRing(ap, f, d) ==> ok && fork == f
  {
    var todo := ap.Keys;
    var found: Option<Node> := None;
    while todo != {}
      invariant todo <= ap.Keys
      invariant found.Some? ==> found.value in ap && |ap[found.value]| > 1
      invariant ForkRing(ap, f, d) ==> if f in todo then found.None? else found == Some(f)
    {
      var n;
      n, todo := Take(todo);
      if ForkRing(ap, f, d) && n != f {
        RingNode(ap, f, d, n);
      }
      if found.Some? {
        if !(|ap[n]| == 1 && ap[n][0] != n) {
          return false, n;
        }
      } else if |ap[n]| > 1 {
        found := Some(n);
      }
    }
    if found.None? {
      return false, Node(0);
    }
    return true, found.value;
  }

  ghost predicate Walked(ap: ApGraph, fork: Node, c: seq<Node>, cur: Node) {
    && Distinct(c) && cur in ap && fork in ap
    && (c == [] || c[0] in ap[fork])
    && (forall i :: 0 <= i < |c| ==> c[i] in ap && c[i] != fork && |ap[c[i]]| == 1)
    && (forall i :: 0 <= i < |c| - 1 ==> ap[c[i]] == [c[i + 1]])
    && (c != [] ==> ap[c[|c| - 1]] == [cur])
  }

  /** A walk in a well-shaped Ap does not run into itself. */
  lemma {:induction false} NoEarlyReturn(ap: ApGraph, p: Node, ranks: Ranks, c: seq<Node>, cur: Node)
    requires WellShaped(ap, p, ranks) && Closed(ap) && Walked(ap, p, c, cur) && c != [] && cur != c[0]
    ensures cur !in c
  {
    var t := c[0];
    forall i | 1 <= i < |c|
      ensures t in ranks && c[i] in ranks[t] && cur in ranks[t] && ranks[t][cur] < ranks[t][c[i]]
    {
      RanksDropAlong(ap, p, ranks, c, cur, i);
    }
  }

  lemma {:induction false} RanksDropAlong(ap: ApGraph, p: Node, ranks: Ranks, c: seq<Node>, cur: Node, i: nat)
    requires WellShaped(ap, p, ranks) && Walked(ap, p, c, cur) && 1 <= i < |c|
    ensures c[0] in ranks && c[i] in ranks[c[0]] && cur in ranks[c[0]] && ranks[c[0]][cur] < ranks[c[0]][c[i]]
    decreases |c| - i
  {
    assert c[i] != c[0];
    assert Descends(ap, ranks, c[0], c[i]);
    if i + 1 < |c| {
      RanksDropAlong(ap, p, ranks, c, cur, i + 1);
    }
  }

  /** A cycle in a well-shaped Ap leaves out no node but p. */
  lemma {:induction false} RingIsComplete(ap: ApGraph, p: Node, ranks: Ranks, c: seq<Node>, x: Node, t: Node)
    requires WellShaped(ap, p, ranks) && Closed(ap) && c != [] && Walked(ap, p, c, c[0]) && x in c
    requires t in ap && t != p
    ensures t in c
    decreases if x == t then 0 else if t in ranks && x in ranks[t] then ranks[t][x] + 1 else 0
  {
    if x != t {
      var i :| 0 <= i < |c| && c[i] == x;
      var y := ap[x][0];
      assert y == if i == |c| - 1 then c[0] else c[i + 1];
      assert Descends(ap, ranks, t, x);
      if y != t {
        assert Descends(ap, ranks, t, y);
      }
      RingIsComplete(ap, p, ranks, c, y, t);
    }
  }

  /** How far the walk from d[0] has come on the cycle d. */
  ghost predicate OnTheWay(d: seq<Node>, c: seq<Node>, cur: Node) {
    |c| <= |d| && d != [] && c == d[..|c|] && cur == d[if |c| < |d| then |c| else 0]
  }

  /** Follows the only successors until the walk is back at its start. */
  method WalkCycle(ap: ApGraph, fork: Node, ghost d: seq<Node>)
      returns (ok: bool, visited: set<Node>, ghost c: seq<Node>)
    requires Closed(ap) && fork in ap && ap[fork] != []
    ensures ok ==> c != [] && Walked(ap, fork, c, c[0]) && c[0] == ap[fork][0]
    ensures visited == set x | x in c
    ensures ForkRing(ap, fork, d) && d[0] == ap[fork][0] ==> ok && c == d
  {
    var n := ap[fork][0];
    var cur := n;
    visited, c := {}, [];
    var more := true;
    while more
      invariant visited == set x | x in c
      invariant Walked(ap, fork, c, cur)
      invariant c == [] ==> cur == n && more
      invariant c != [] ==> c[0] == n && (more <==> cur != n)
      invariant ForkRing(ap, fork, d) && d[0] == n ==> OnTheWay(d, c, cur)
      decreases ap.Keys - visited, more
    {
      if ForkRing(ap, fork, d) && d[0] == n {
        assert c != [] ==> |c| < |d|;
        NextOnRing(ap, fork, d, c, cur);
      }
      if cur == fork || cur in visited || |ap[cur]| != 1 {
        return false, visited, c;
      }
      visited := visited + {cur};
      c := c + [cur];
      cur := ap[cur][0];
      more := cur != n;
    }
    ok := true;
  }

  lemma {:induction false} NextOnRing(ap: ApGraph, fork: Node, d: seq<Node>, c: seq<Node>, cur: Node)
    requires ForkRing(ap, fork, d) && OnTheWay(d, c, cur) && |c| < |d|
    ensures cur in ap && cur != fork && cur !in c && |ap[cur]| == 1 && OnTheWay(d, c + [cur], ap[cur][0])
  {
    RingStep(ap, fork, d, |c|);
    assert cur in d;
    assert c + [cur] == d[..|c| + 1];
  }

  /** The assertions hold just if exactly one node has several successors and from it one gets into a
      cycle of all the others. */
  method CheckAp(ap: ApGraph) returns (ok: bool, ghost fork: Node, ghost c: seq<Node>)
    requires Closed(ap) && |ap| >= 3
    ensures ok <==> FitsRing(ap)
    ensures ok ==> ForkRing(ap, fork, c)
  {
    ghost var f, d := Node(0), [];
    if FitsRing(ap) {
      f, d :| ForkRing(ap, f, d);
      assert ap[f][0] in d;
      d := Rotate(ap, f, d, ap[f][0]);
    }
    var found, f' := FindFork(ap, f, d);
    fork, c := f', [];
    if !found {
      return false, fork, c;
    }
    var back, visited;
    back, visited, c := WalkCycle(ap, f', d);
    if !back {
      return false, fork, c;
    }
    assert visited <= ap.Keys - {f'};
    if ForkRing(ap, f', d) && d[0] == ap[f'][0] {
      assert visited == ap.Keys - {f'};
    }
    ok := |visited| == |ap.Keys| - 1;
    if ok {
      EqualBySize(visited, ap.Keys - {f'});
      assert OnRing(c, ap.Keys - {f'});
      assert ForkRing(ap, f', c);
    }
  }

  /** In a well-shaped Ap the walk can be continued until it is back at its start. */
  lemma {:induction false} WalkOn(ap: ApGraph, p: Node, ranks: Ranks, c: seq<Node>, cur: Node) returns (d: seq<Node>)
    requires WellShaped(ap, p, ranks) && Closed(ap) && Walked(ap, p, c, cur)
    requires cur != p && ((c != [] && cur == c[0]) || cur !in c) && (c == [] ==> cur in ap[p])
    ensures d != [] && Walked(ap, p, d, d[0])
    decreases ap.Keys - set x | x in c
  {
    if c != [] && cur == c[0] {
      d := c;
    } else {
      var longer, next := c + [cur], ap[cur][0];
      assert next in ap[cur];
      assert Walked(ap, p, longer, next);
      assert cur in ap.Keys && (set x | x in longer) == (set x | x in c) + {cur};
      if next != longer[0] {
        NoEarlyReturn(ap, p, ranks, longer, next);
      }
      d := WalkOn(ap, p, ranks, longer, next);
    }
  }

  /** So a well-shaped Ap passes, and its fork is p. */
  lemma {:induction false} WellShapedFits(ap: ApGraph, p: Node, ranks: Ranks)
    requires WellShaped(ap, p, ranks) && Closed(ap)
    ensures FitsRing(ap) && forall fork, c :: ForkRing(ap, fork, c) ==> fork == p
  {
    var start := ap[p][0];
    assert start in ap[p];
    var c := WalkOn(ap, p, ranks, [], start);
    forall t | t in ap && t != p
      ensures t in c
    {
      RingIsComplete(ap, p, ranks, c, c[0], t);
    }
    assert OnRing(c, ap.Keys - {p});
    assert ForkRing(ap, p, c);
  }

  // ---------------------------------------------------------------------------
  // Ap built from the right nodes

  ghost function SomeRanking(g: Graph, t: Node): (rank: map<Node, nat>)
    requires g.Valid()
    ensures RanksTo(g, t, rank)
  {
    RankingExists(g, t);
    var rank: map<Node, nat> :| RanksTo(g, t, rank);
    rank
  }

  lemma RankingExists(g: Graph, t: Node)
    requires g.Valid()
    ensures exists rank: map<Node, nat> :: RanksTo(g, t, rank)
  {
    var rank := RankingTo(g, t);
  }

  lemma FirstTwoDiffer(s: seq<Node>)
    requires Distinct(s)
    ensures |s| > 1 ==> s[0] != s[1]
  {
  }

  lemma {:induction false} SingleElement(s: seq<Node>, y: Node)
    requires Lists(s, {y})
    ensures s == [y]
  {
    assert y in {y} && y in s;
    forall i | 0 <= i < |s|
      ensures s[i] == y
    {
      assert s[i] in s;
    }
    FirstTwoDiffer(s);
  }

  lemma {:induction false} ApSuccessor(g: Graph, p: Node, a: Node, b: Node, ap: ApGraph, x: Node)
    requires Forks(g, p, a, b) && Represents(g, Certain(g, p), ap) && x in ap && x != p
    ensures |ap[x]| == 1 && ap[x][0] in ap && ap[x][0] != p && ap[x][0] != x && ApSuccs(g, p, x) == {ap[x][0]}
  {
    var y := OneSuccessor(g, p, a, b, x);
    assert Lists(ap[x], {y});
    SingleElement(ap[x], y);
  }

  lemma {:induction false} ApStep(g: Graph, p: Node, a: Node, b: Node, ap: ApGraph, x: Node, t: Node,
      rank: map<Node, nat>)
    requires Forks(g, p, a, b) && Represents(g, Certain(g, p), ap) && x in ap && x != p && t in ap && t != p && t != x
    requires RanksTo(g, t, rank) && |ap[x]| == 1
    ensures x in rank && ap[x][0] in rank && rank[ap[x][0]] < rank[x]
  {
    assert ap[x][0] in ap[x];
    StepCloser(g, p, a, b, x, ap[x][0], t, rank);
  }

  lemma TwoMembers(s: seq<Node>, a: Node, b: Node)
    requires a in s && b in s && a != b
    ensures |s| > 1
  {
  }

  lemma {:induction false} PredicateForks(g: Graph, p: Node, a: Node, b: Node, ap: ApGraph)
    requires Forks(g, p, a, b) && Represents(g, Certain(g, p), ap)
    ensures p in ap && |ap[p]| > 1 && forall y :: y in ap[p] ==> y != p
  {
    CertainHasSelf(g, p);
    TwoMembers(ap[p], a, b);
    forall y | y in ap[p]
      ensures y != p
    {
      NotThePredicate(g, p, a, b, y);
    }
  }

  lemma {:induction false} OthersDoNotFork(g: Graph, p: Node, a: Node, b: Node, ap: ApGraph)
    requires Forks(g, p, a, b) && Represents(g, Certain(g, p), ap)
    ensures forall x :: x in ap && x != p ==> |ap[x]| == 1 && ap[x][0] != p && ap[x][0] != x
  {
    forall x | x in ap && x != p
      ensures |ap[x]| == 1 && ap[x][0] != p && ap[x][0] != x
    {
      ApSuccessor(g, p, a, b, ap, x);
    }
  }

  /** Shape of Ap: one node with several successors, every other with exactly one, and a
      distance to every node of the cycle that drops along the edges. */
  lemma {:induction false} ExactShape(g: Graph, p: Node, a: Node, b: Node, ap: ApGraph) returns (ranks: Ranks)
    requires Forks(g, p, a, b) && Represents(g, Certain(g, p), ap)
    ensures Closed(ap) && WellShaped(ap, p, ranks)
  {
    ranks := map t | t in ap :: SomeRanking(g, t);
    assert forall t {:trigger ranks[t]} :: t in ap ==> RanksTo(g, t, ranks[t]);
    ShapeByRanks(g, p, a, b, ap, ranks);
  }

  lemma {:induction false} ShapeByRanks(g: Graph, p: Node, a: Node, b: Node, ap: ApGraph, ranks: Ranks)
    requires Forks(g, p, a, b) && Represents(g, Certain(g, p), ap)
    requires ranks.Keys == ap.Keys && forall t {:trigger ranks[t]} :: t in ap ==> RanksTo(g, t, ranks[t])
    ensures Closed(ap) && WellShaped(ap, p, ranks)
  {
    PredicateForks(g, p, a, b, ap);
    OthersDoNotFork(g, p, a, b, ap);
    RanksDrop(g, p, a, b, ap, ranks);
    RepresentsIsClosed(g, Certain(g, p), ap);
  }

  lemma RepresentsIsClosed(g: Graph, nodes: set<Node>, ap: ApGraph)
    requires Represents(g, nodes, ap)
    ensures Closed(ap)
  {
    forall x, y | x in ap && y in ap[x]
      ensures y in ap
    {
      assert y in FirstReached(g, nodes, x);
    }
  }

  lemma {:induction false} RanksDrop(g: Graph, p: Node, a: Node, b: Node, ap: ApGraph, ranks: Ranks)
    requires Forks(g, p, a, b) && Represents(g, Certain(g, p), ap)
    requires ranks.Keys == ap.Keys && forall t {:trigger ranks[t]} :: t in ap ==> RanksTo(g, t, ranks[t])
    requires forall x :: x in ap && x != p ==> |ap[x]| == 1
    ensures forall t, x {:trigger Descends(ap, ranks, t, x)} :: t in ap && x in ap && t != p && x != p && x != t ==>
              Descends(ap, ranks, t, x)
  {
    forall t, x | t in ap && x in ap && t != p && x != p && x != t
      ensures Descends(ap, ranks, t, x)
    {
      ApStep(g, p, a, b, ap, x, t, ranks[t]);
    }
  }

  lemma {:induction false} RingIsRing(g: Graph, p: Node, a: Node, b: Node, ap: ApGraph, c: seq<Node>)
    requires Forks(g, p, a, b) && Represents(g, Certain(g, p), ap) && ApRing(ap, p, c)
    ensures IsRing(g, p, c)
  {
    forall i | 0 <= i < |c|
      ensures ApSuccs(g, p, c[i]) == {c[Next(|c|, i)]}
    {
      assert c[i] in c;
      ApSuccessor(g, p, a, b, ap, c[i]);
    }
    forall i, j | 0 <= i < |c| && 0 <= j < |c|
      ensures OnAllPaths(g, c[i], c[j])
    {
      assert c[i] in c && c[j] in c;
      AllMutual(g, p, a, b, c[i], c[j]);
    }
  }

  lemma {:induction false} SeparationFitsArcs(length: nat, blue: set<nat>, red: set<nat>, b2: nat, r1: nat, r2: nat,
      b3: nat, i: nat, k: nat)
    requires Bounds(length, blue, red, b2, r1, r2, b3)
    requires Separates(length, blue, red, i, k) || Separates(length, blue, red, k, i)
    ensures OnArcs(b2, r1, r2, b3, i)
    ensures forall x: nat {:trigger x in red} :: x in red ==> x < b3
  {
    if Separates(length, blue, red, i, k) {
      SeparatedOnArcs(length, blue, red, b2, r1, r2, b3, i, k);
    } else {
      SeparatedOnArcs(length, blue, red, b2, r1, r2, b3, k, i);
    }
    forall x: nat | x in red
      ensures x < b3
    {
      if x >= b3 {
        NothingSeparates(length, blue, red, b2, r1, r2, b3, x, i, k);
        NothingSeparates(length, blue, red, b2, r1, r2, b3, x, k, i);
      }
    }
  }

  ghost predicate OnArcsOf(c: seq<Node>, b2: nat, r1: nat, r2: nat, b3: nat, m: Node) {
    exists i: nat :: i < |c| && OnArcs(b2, r1, r2, b3, i) && c[i] == m
  }

  ghost predicate AllBelow(red: set<nat>, b3: nat) {
    forall x: nat {:trigger x in red} :: x in red ==> x < b3
  }

  /** Two branches whose entries, found at the positions blue and red, are on the cycle c. */
  ghost predicate TwoColors(g: Graph, p: Node, s1: Node, s2: Node, c: seq<Node>, blue: set<nat>, red: set<nat>) {
    && g.Valid() && g.Has(p) && g.Succs(p) == [s1, s2] && IsRing(g, p, c)
    && Entry(g, Certain(g, p), s1) <= Certain(g, p) - {p} && Entry(g, Certain(g, p), s2) <= Certain(g, p) - {p}
    && blue == Positions(c, Entry(g, Certain(g, p), s1)) && red == Positions(c, Entry(g, Certain(g, p), s2))
  }

  lemma {:induction false} DependenceIsOnArcs(g: Graph, p: Node, s1: Node, s2: Node, c: seq<Node>, blue: set<nat>,
      red: set<nat>, b2: nat, r1: nat, r2: nat, b3: nat, m: Node, n: Node)
    requires TwoColors(g, p, s1, s2, c, blue, red) && Bounds(|c|, blue, red, b2, r1, r2, b3)
    requires DecidesOrder(g, p, m, n)
    ensures AllBelow(red, b3) && OnArcsOf(c, b2, r1, r2, b3, m)
  {
    PairWithoutPredicate(g, p, m, n);
    assert m in c && n in c;
    var i: nat :| i < |c| && c[i] == m;
    var k: nat :| k < |c| && c[k] == n;
    DecidesBySeparation(g, p, s1, s2, c, blue, red, i, k);
    SeparationFitsArcs(|c|, blue, red, b2, r1, r2, b3, i, k);
  }

  lemma {:induction false} ArcIsDependent(g: Graph, p: Node, s1: Node, s2: Node, c: seq<Node>, blue: set<nat>,
      red: set<nat>, b2: nat, r1: nat, r2: nat, b3: nat, i: nat)
    requires TwoColors(g, p, s1, s2, c, blue, red) && Bounds(|c|, blue, red, b2, r1, r2, b3)
    requires AllBelow(red, b3) && i < |c| && OnArcs(b2, r1, r2, b3, i)
    ensures OrderDependent(g, p, c[i])
  {
    var k := if b2 <= i < r1 then r2 else b2;
    if b2 <= i < r1 {
      ArcsSeparate(|c|, blue, red, b2, r1, r2, b3, i, k);
    } else {
      ArcsSeparate(|c|, blue, red, b2, r1, r2, b3, k, i);
    }
    DecidesBySeparation(g, p, s1, s2, c, blue, red, i, k);
    assert DecidesOrder(g, p, c[i], c[k]);
  }

  /** The arcs behind the last blue node and behind the last red node hold exactly the nodes
      whose order with some other node p decides. */
  lemma {:induction false} ArcsAreDependences(g: Graph, p: Node, s1: Node, s2: Node, c: seq<Node>, blue: set<nat>,
      red: set<nat>, b2: nat, r1: nat, r2: nat, b3: nat, m: Node)
    requires TwoColors(g, p, s1, s2, c, blue, red) && Bounds(|c|, blue, red, b2, r1, r2, b3)
    ensures OrderDependent(g, p, m) <==> AllBelow(red, b3) && OnArcsOf(c, b2, r1, r2, b3, m)
  {
    if OrderDependent(g, p, m) {
      var n :| DecidesOrder(g, p, m, n);
      DependenceIsOnArcs(g, p, s1, s2, c, blue, red, b2, r1, r2, b3, m, n);
    } else if AllBelow(red, b3) && OnArcsOf(c, b2, r1, r2, b3, m) {
      var i: nat :| i < |c| && OnArcs(b2, r1, r2, b3, i) && c[i] == m;
      ArcIsDependent(g, p, s1, s2, c, blue, red, b2, r1, r2, b3, i);
    }
  }

  // ---------------------------------------------------------------------------
  // Walking round the cycle

  ghost predicate NoneIn(c: seq<Node>, a: set<Node>, from: nat, to: nat) {
    forall x :: from <= x < to && x < |c| ==> c[x] !in a
  }

  lemma {:induction false} RingStep(ap: ApGraph, fork: Node, c: seq<Node>, j: nat)
    requires ApRing(ap, fork, c) && j < |c|
    ensures c[j] in ap && ap[c[j]] == [c[Next(|c|, j)]]
    ensures c[Next(|c|, j)] == c[0] <==> j + 1 == |c|
  {
    assert c[j] in c && c[j] in ap;
    assert ap[c[j]] == [c[Next(|c|, j)]];
  }

  /** From `start` to the first node of p2, or round to `end`: the last node of p1 on the way,
      and that node of p2. */
  method Find(ap: ApGraph, start: Node, end: Node, p1: set<Node>, p2: set<Node>, ghost fork: Node, ghost c: seq<Node>,
      ghost i0: nat)
    returns (n1: Option<Node>, n2: Option<Node>, ghost j1: nat, ghost j2: nat)
    requires ApRing(ap, fork, c) && i0 < |c| && start == c[i0] && end == c[0]
    ensures i0 <= j2 <= |c| && NoneIn(c, p2, i0, j2)
    ensures n2.Some? <==> j2 < |c|
    ensures n2.Some? ==> n2.value == c[j2] && c[j2] in p2
    ensures n1.Some? ==> i0 <= j1 < |c| && j1 <= j2 && n1.value == c[j1] && c[j1] in p1 && NoneIn(c, p1, j1 + 1, j2 + 1)
    ensures n1.None? ==> NoneIn(c, p1, i0, j2 + 1)
  {
    n1, n2, j1, j2 := None, None, i0, i0;
    var n := start;
    var more := true;
    while more
      invariant i0 <= j2 <= |c| && (j2 < |c| ==> n == c[j2]) && (more <==> j2 < |c|)
      invariant NoneIn(c, p2, i0, j2)
      invariant n1.Some? ==> i0 <= j1 < j2 && n1.value == c[j1] && c[j1] in p1 && NoneIn(c, p1, j1 + 1, j2)
      invariant n1.None? ==> NoneIn(c, p1, i0, j2)
      decreases |c| - j2
    {
      if n in p1 {
        n1, j1 := Some(n), j2;
      }
      if n in p2 {
        n2 := Some(n);
        break;
      }
      RingStep(ap, fork, c, j2);
      n := ap[n][0];
      more := n != end;
      j2 := j2 + 1;
    }
  }

  /** Records the nodes from `from` to the one in front of the next coloured node. */
  method RecordArc(cap: ColoredAp, p: Node, from: Node, CD: Relation, revCD: Relation,
                   ghost fork: Node, ghost c: seq<Node>, ghost i0: nat, ghost i1: nat)
    returns (CD': Relation, revCD': Relation)
    requires ApRing(cap.ap, fork, c) && Converse(CD, revCD)
    requires i0 < i1 <= |c| && from == c[i0] && NoneIn(c, cap.blues + cap.reds, i0 + 1, i1)
    requires c[if i1 == |c| then 0 else i1] in cap.blues + cap.reds
    ensures forall m, q :: Holds(CD', m, q) <==> Holds(CD, m, q) || (q == p && exists i :: i0 <= i < i1 && c[i] == m)
    ensures Converse(CD', revCD')
  {
    CD', revCD' := CD, revCD;
    var cur := from;
    ghost var j := i0;
    var more := true;
    while more
      invariant i0 <= j <= i1 && (more <==> j < i1) && (more ==> cur == c[j])
      invariant forall m, q :: Holds(CD', m, q) <==> Holds(CD, m, q) || (q == p && exists i :: i0 <= i < j && c[i] == m)
      invariant Converse(CD', revCD')
      decreases i1 - j
    {
      CD' := Insert(CD', cur, p);
      revCD' := Insert(revCD', p, cur);
      RingStep(cap.ap, fork, c, j);
      cur := cap.ap[cur][0];
      more := !(cur in cap.blues || cur in cap.reds);
      j := j + 1;
    }
  }

  function Rotated(length: nat, k: nat, i: nat): nat
    requires k < length && i < length
  {
    if i < length - k then i + k else i - (length - k)
  }

  lemma {:induction false} RotateStep(ap: ApGraph, fork: Node, c: seq<Node>, d: seq<Node>, k: nat, i: nat)
    requires ApRing(ap, fork, c) && k < |c| && |d| == |c| && i < |d|
    requires forall i: nat :: i < |d| ==> d[i] == c[Rotated(|c|, k, i)]
    ensures d[i] in ap && ap[d[i]] == [d[Next(|d|, i)]]
  {
    RingStep(ap, fork, c, Rotated(|c|, k, i));
    assert Rotated(|c|, k, Next(|d|, i)) == Next(|c|, Rotated(|c|, k, i));
  }

  lemma {:induction false} RotateElements(c: seq<Node>, d: seq<Node>, k: nat)
    requires k < |c| && Distinct(c) && d == c[k..] + c[..k]
    ensures Distinct(d) && forall x :: x in d <==> x in c
    ensures forall i: nat :: i < |d| ==> d[i] == c[Rotated(|c|, k, i)]
  {
    assert c == c[..k] + c[k..];
    assert forall i: nat, j: nat :: i < j < |d| ==> Rotated(|c|, k, i) != Rotated(|c|, k, j);
    forall i: nat, j: nat | i < j < |d|
      ensures d[i] != d[j]
    {
      assert d[i] == c[Rotated(|c|, k, i)] && d[j] == c[Rotated(|c|, k, j)];
    }
  }

  lemma {:induction false} Rotate(ap: ApGraph, fork: Node, c: seq<Node>, start: Node) returns (d: seq<Node>)
    requires ApRing(ap, fork, c) && start in c
    ensures ApRing(ap, fork, d) && d[0] == start
  {
    var k: nat :| k < |c| && c[k] == start;
    d := c[k..] + c[..k];
    RotateElements(c, d, k);
    forall i | 0 <= i < |d|
      ensures d[i] in ap && ap[d[i]] == [d[Next(|d|, i)]]
    {
      RotateStep(ap, fork, c, d, k, i);
    }
  }

  /** What the walks round the cycle have found. */
  datatype Arcs = Arcs(c: seq<Node>, b2: nat, r1: nat, r2: nat, b3: nat)

  ghost predicate IsArcs(cap: ColoredAp, fork: Node, arcs: Arcs) {
    && ApRing(cap.ap, fork, arcs.c)
    && Bounds(|arcs.c|, Positions(arcs.c, cap.blues), Positions(arcs.c, cap.reds), arcs.b2, arcs.r1, arcs.r2, arcs.b3)
  }

  ghost predicate Recorded(cap: ColoredAp, arcs: Arcs, m: Node) {
    AllBelow(Positions(arcs.c, cap.reds), arcs.b3) && OnArcsOf(arcs.c, arcs.b2, arcs.r1, arcs.r2, arcs.b3, m)
  }

  lemma {:induction false} BoundsFound(c: seq<Node>, blues: set<Node>, reds: set<Node>, b2: nat, r1: nat, r2: nat,
      b3: nat)
    requires blues !! reds && b2 < r1 <= r2 < b3 <= |c|
    requires c[0] in blues && c[b2] in blues && c[r1] in reds && c[r2] in reds && (b3 < |c| ==> c[b3] in blues)
    requires NoneIn(c, reds, 0, r1) && NoneIn(c, blues, b2 + 1, r1 + 1)
    requires NoneIn(c, blues, r1, b3) && NoneIn(c, reds, r2 + 1, b3 + 1)
    ensures Bounds(|c|, Positions(c, blues), Positions(c, reds), b2, r1, r2, b3)
  {
    forall x: nat | x in Positions(c, blues)
      ensures x <= b2 || b3 <= x
    {
      assert c[x] in blues;
    }
    forall x: nat | x in Positions(c, reds)
      ensures r1 <= x && (x <= r2 || b3 <= x)
    {
      assert c[x] in reds;
    }
  }

  /** The walks: from a blue node to the last blue one in front of a red one, from there to
      the last red one in front of a blue one or of the start, and on to see whether another
      red one follows. */
  method FindArcs(cap: ColoredAp, start: Node, ghost fork: Node, ghost c: seq<Node>)
    returns (b2: Option<Node>, r1: Option<Node>, r2: Option<Node>, b3: Option<Node>, more: bool, ghost arcs: Arcs)
    requires ApRing(cap.ap, fork, c) && c[0] == start && start in cap.blues && cap.blues !! cap.reds
    ensures r1.None? <==> NoneIn(c, cap.reds, 0, |c|)
    ensures r1.Some? ==> IsArcs(cap, fork, arcs) && arcs.c == c && b2.Some? && r2.Some?
    ensures r1.Some? ==> b2.value == c[arcs.b2] && r2.value == c[arcs.r2]
    ensures r1.Some? ==> (!more <==> AllBelow(Positions(c, cap.reds), arcs.b3))
    ensures r1.Some? ==>
      NoneIn(c, cap.blues + cap.reds, arcs.b2 + 1, arcs.r1) && NoneIn(c, cap.blues + cap.reds, arcs.r2 + 1, arcs.b3)
  {
    ghost var j1, j2, k1, k2, l1, l2;
    r2, b3, more, arcs := None, None, false, Arcs(c, 0, 0, 0, 0);
    b2, r1, j1, j2 := Find(cap.ap, start, start, cap.blues, cap.reds, fork, c, 0);
    if r1.None? {
      return;
    }
    r2, b3, k1, k2 := Find(cap.ap, r1.value, start, cap.reds, cap.blues, fork, c, j2);
    arcs := Arcs(c, j1, j2, k1, k2);
    BoundsFound(c, cap.blues, cap.reds, j1, j2, k1, k2);
    if b3.Some? {
      var red, other;
      red, other, l1, l2 := Find(cap.ap, b3.value, start, cap.reds, cap.reds, fork, c, k2);
      more := red.Some?;
      if more {
        assert l1 in Positions(c, cap.reds);
      } else {
        assert NoneIn(c, cap.reds, k2, |c|);
      }
    }
  }

  /** With a cycle that starts at a blue node: record the two arcs, unless a second group of
      red nodes follows. */
  method RecordArcs(cap: ColoredAp, p: Node, start: Node, CD: Relation, revCD: Relation, ghost fork: Node,
      ghost c: seq<Node>)
    returns (ok: bool, CD': Relation, revCD': Relation, ghost arcs: Arcs)
    requires ApRing(cap.ap, fork, c) && c[0] == start && start in cap.blues && cap.blues !! cap.reds
    requires Converse(CD, revCD)
    ensures ok <==> !NoneIn(c, cap.reds, 0, |c|)
    ensures ok ==> IsArcs(cap, fork, arcs) && arcs.c == c
    ensures ok ==> forall m, q :: Holds(CD', m, q) <==> Holds(CD, m, q) || (q == p && Recorded(cap, arcs, m))
    ensures Converse(CD', revCD')
  {
    CD', revCD' := CD, revCD;
    var b2, r1, r2, b3, more;
    b2, r1, r2, b3, more, arcs := FindArcs(cap, start, fork, c);
    ok := r1.Some?;
    if ok && !more {
      CD', revCD' := RecordArc(cap, p, b2.value, CD', revCD', fork, c, arcs.b2, arcs.r1);
      CD', revCD' := RecordArc(cap, p, r2.value, CD', revCD', fork, c, arcs.r2, arcs.b3);
    }
  }

  /** All the assertions hold: Ap passes the check, there is a blue node, the lowest one is not the fork,
      and some red node is not the fork either. */
  ghost predicate Walkable(cap: ColoredAp) {
    forall k {:trigger Shown(k)} :: Shown(k) ==>
      cap.blues != {} && exists fork, c ::
          ForkRing(cap.ap, fork, c) && Least(cap.blues) != fork && !(cap.reds <= {fork})
  }

  ghost predicate LeastArcs(cap: ColoredAp, fork: Node, arcs: Arcs) {
    cap.blues != {} && ForkRing(cap.ap, fork, arcs.c) && IsArcs(cap, fork, arcs) && arcs.c[0] == Least(cap.blues)
  }

  ghost predicate HasArcs(cap: ColoredAp) {
    exists fork, arcs: Arcs :: LeastArcs(cap, fork, arcs)
  }

  /** The node is on one of the two arcs that start behind the last blue and the last red node, as counted
      from the lowest blue one. */
  ghost predicate OnRecordedArc(cap: ColoredAp, m: Node) {
    exists fork, arcs: Arcs :: LeastArcs(cap, fork, arcs) && Recorded(cap, arcs, m)
  }

  lemma {:induction false} OneFork(ap: ApGraph, fork: Node, c: seq<Node>, f: Node, d: seq<Node>)
    requires ForkRing(ap, fork, c) && ForkRing(ap, f, d)
    ensures f == fork
  {
    forall i | 0 <= i < |c|
      ensures c[i] in ap && |ap[c[i]]| == 1
    {
      RingStep(ap, fork, c, i);
    }
    assert f in ap && (f != fork ==> f in c);
  }

  lemma {:induction false} RedOnRing(cap: ColoredAp, fork: Node, c: seq<Node>)
    requires ApRing(cap.ap, fork, c) && cap.reds <= cap.ap.Keys
    ensures NoneIn(c, cap.reds, 0, |c|) <==> cap.reds <= {fork}
  {
    if x :| x in cap.reds && x != fork {
      assert x in c;
    }
    assert forall i :: 0 <= i < |c| ==> c[i] in c;
  }

  /** A cycle is fixed by where it starts. */
  lemma {:induction false} SameRing(ap: ApGraph, fork: Node, c: seq<Node>, d: seq<Node>, i: nat)
    requires ApRing(ap, fork, c) && ApRing(ap, fork, d) && c[0] == d[0] && i < |c|
    ensures i < |d| && d[i] == c[i]
  {
    if i > 0 {
      SameRing(ap, fork, c, d, i - 1);
      RingStep(ap, fork, c, i - 1);
      RingStep(ap, fork, d, i - 1);
    }
  }

  lemma {:induction false} OneRing(ap: ApGraph, fork: Node, c: seq<Node>, d: seq<Node>)
    requires ApRing(ap, fork, c) && ApRing(ap, fork, d) && c[0] == d[0]
    ensures c == d
  {
    SameRing(ap, fork, c, d, |c| - 1);
    SameRing(ap, fork, d, c, |d| - 1);
    forall i | 0 <= i < |c|
      ensures c[i] == d[i]
    {
      SameRing(ap, fork, c, d, i);
    }
  }

  /** The bounds of the arcs are fixed by the colours. */
  lemma OneBounds(length: nat, blue: set<nat>, red: set<nat>, b2: nat, r1: nat, r2: nat, b3: nat, b2': nat, r1': nat,
      r2': nat, b3': nat)
    requires Bounds(length, blue, red, b2, r1, r2, b3) && Bounds(length, blue, red, b2', r1', r2', b3')
    ensures b2 == b2' && r1 == r1' && r2 == r2' && b3 == b3'
  {
    assert r1 in red && r1' in red;
    assert b2 in blue && b2' in blue;
    assert b3 in blue || b3 == length;
    assert b3' in blue || b3' == length;
    assert r2 in red && r2' in red;
  }

  lemma {:induction false} OneArcs(cap: ColoredAp, fork: Node, arcs: Arcs, f: Node, arcs': Arcs)
    requires ForkRing(cap.ap, fork, arcs.c) && IsArcs(cap, fork, arcs) && ForkRing(cap.ap, f, arcs'.c)
    requires IsArcs(cap, f, arcs')
    requires arcs.c[0] == arcs'.c[0]
    ensures arcs == arcs'
  {
    OneFork(cap.ap, fork, arcs.c, f, arcs'.c);
    OneRing(cap.ap, fork, arcs.c, arcs'.c);
    OneBounds(|arcs.c|, Positions(arcs.c, cap.blues), Positions(arcs.c, cap.reds), arcs.b2, arcs.r1, arcs.r2, arcs.b3,
              arcs'.b2, arcs'.r1, arcs'.r2, arcs'.b3);
  }

  lemma {:induction false} ArcsAreFixed(cap: ColoredAp, fork: Node, arcs: Arcs)
    requires LeastArcs(cap, fork, arcs)
    ensures forall m :: OnRecordedArc(cap, m) <==> Recorded(cap, arcs, m)
  {
    forall m | OnRecordedArc(cap, m)
      ensures Recorded(cap, arcs, m)
    {
      var f, arcs': Arcs :| LeastArcs(cap, f, arcs') && Recorded(cap, arcs', m);
      OneArcs(cap, fork, arcs, f, arcs');
    }
  }

  lemma {:induction false} WalkableBy(cap: ColoredAp, fork: Node, c: seq<Node>)
    requires ForkRing(cap.ap, fork, c) && cap.blues != {}
    ensures Walkable(cap) <==> Least(cap.blues) != fork && !(cap.reds <= {fork})
  {
    assert Shown(true);
    if Walkable(cap) {
      var f, d :| ForkRing(cap.ap, f, d) && Least(cap.blues) != f && !(cap.reds <= {f});
      OneFork(cap.ap, fork, c, f, d);
    }
  }

  lemma NotWalkable(cap: ColoredAp)
    requires !FitsRing(cap.ap) || cap.blues == {}
    ensures !Walkable(cap)
  {
    assert Shown(true);
  }

  method ComputeOnAp(cap: ColoredAp, p: Node, CD: Relation, revCD: Relation)
    returns (ok: bool, CD': Relation, revCD': Relation)
    requires Closed(cap.ap) && |cap.ap| >= 3 && cap.blues !! cap.reds && cap.blues + cap.reds <= cap.ap.Keys
    requires Converse(CD, revCD)
    ensures ok <==> Walkable(cap)
    ensures ok ==> HasArcs(cap)
    ensures ok ==> forall m, q :: Holds(CD', m, q) <==> Holds(CD, m, q) || (q == p && OnRecordedArc(cap, m))
    ensures Converse(CD', revCD')
  {
    CD', revCD' := CD, revCD;
    ghost var fork, c;
    ok, fork, c := CheckAp(cap.ap);
    if !ok || cap.blues == {} {
      NotWalkable(cap);
      ok := false;
      return;
    }
    var b1 := TakeLeast(cap.blues);
    WalkableBy(cap, fork, c);
    if b1 != fork {
      RingNode(cap.ap, fork, c, b1);
    }
    if |cap.ap[b1]| != 1 {
      ok := false;
      return;
    }
    assert b1 in c;
    c := Rotate(cap.ap, fork, c, b1);
    RedOnRing(cap, fork, c);
    ghost var arcs;
    ok, CD', revCD', arcs := RecordArcs(cap, p, b1, CD, revCD, fork, c);
    if ok {
      assert LeastArcs(cap, fork, arcs);
      ArcsAreFixed(cap, fork, arcs);
    }
  }
}
