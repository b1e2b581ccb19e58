/** Clients of the strongly connected components: the condensation and the loops of a
    pointer graph. */
module Condensations {
  import opened Graphs
  import opened StrongComponents

  // ---------------------------------------------------------------------------
  // The condensation

  datatype Component = Component(nodes: seq<Node>, successors: set<nat>)

  ghost predicate EdgeTo(g: Graph, id: map<Node, nat>, u: Node, k: nat) {
    exists v :: g.Edge(u, v) && v in id && id[v] == k
  }

  /** Some edge leads from one of the nodes into component k. */
  ghost predicate LeadsTo(g: Graph, id: map<Node, nat>, nodes: seq<Node>, k: nat) {
    exists u :: u in nodes && EdgeTo(g, id, u, k)
  }

  /** One node for each list, and an edge where an edge of the graph leads into another list. */
  ghost predicate Condensed(g: Graph, components: seq<seq<Node>>, id: map<Node, nat>, nodes: seq<Component>) {
    && |nodes| == |components|
    && (forall i :: 0 <= i < |components| ==> nodes[i].nodes == components[i])
    && (forall i, k {:trigger k in nodes[i].successors} :: 0 <= i < |components| ==>
          (k in nodes[i].successors <==> k != i && LeadsTo(g, id, components[i], k)))
  }

  class SCCCondensation {
    var nodes: seq<Component>

    constructor ()
      ensures nodes == []
    {
      nodes := [];
    }

    method Compute(g: Graph, ghost start: Node, components: seq<seq<Node>>, id: map<Node, nat>)
      requires EdgesStay(g) && AreComponents(g, start, components, id) && nodes == []
      modifies this
      ensures Condensed(g, components, id, nodes)
    {
      for i := 0 to |components|
        invariant |nodes| == i
        invariant forall j :: 0 <= j < i ==> nodes[j] == Component(components[j], {})
      {
        nodes := nodes + [Component(components[i], {})];
      }
      for i := 0 to |components|
        invariant |nodes| == |components|
        invariant forall j :: 0 <= j < |components| ==> nodes[j].nodes == components[j]
        invariant forall j :: i <= j < |components| ==> nodes[j].successors == {}
        invariant forall j, k ::
          0 <= j < i ==> (k in nodes[j].successors <==> k != j && LeadsTo(g, id, components[j], k))
      {
        var all := SuccessorsOf(g, start, components, id, i);
        nodes := nodes[i := nodes[i].(successors := all)];
      }
    }

    static method SuccessorsOf(g: Graph, ghost start: Node, components: seq<seq<Node>>, id: map<Node, nat>, i: nat)
        returns (all: set<nat>)
      requires EdgesStay(g) && AreComponents(g, start, components, id) && i < |components|
      ensures forall k :: k in all <==> k != i && LeadsTo(g, id, components[i], k)
    {
      all := {};
      for a := 0 to |components[i]|
        invariant forall k :: k in all <==> k != i && LeadsTo(g, id, components[i][..a], k)
      {
        var u := components[i][a];
        assert u in components[i] && Reach(g, start, u);
        all := AddSuccessors(g, start, components, id, i, u, all);
        assert components[i][..a + 1] == components[i][..a] + [u];
      }
      assert components[i][..|components[i]|] == components[i];
    }

    static method AddSuccessors(g: Graph, ghost start: Node, components: seq<seq<Node>>, id: map<Node, nat>, i: nat,
        u: Node, before: set<nat>)
      returns (all: set<nat>)
      requires EdgesStay(g) && AreComponents(g, start, components, id) && Reach(g, start, u)
      ensures forall k :: k in all <==> k in before || (k != i && EdgeTo(g, id, u, k))
    {
      all := before;
      assert forall v :: g.Edge(u, v) ==> Reach(g, start, v) && v in id;
      for b := 0 to |g.Succs(u)|
        invariant forall k :: k in all <==>
          k in before || (k != i && exists v :: v in g.Succs(u)[..b] && g.Edge(u, v) && v in id && id[v] == k)
      {
        var succ := g.Succs(u)[b];
        assert g.Edge(u, succ) && g.Succs(u)[..b + 1] == g.Succs(u)[..b] + [succ];
        if id[succ] != i {
          all := all + {id[succ]};
        }
      }
      assert g.Succs(u)[..|g.Succs(u)|] == g.Succs(u);
    }
  }

  // ---------------------------------------------------------------------------
  // What the condensation says

  lemma {:induction false} SuccessorsAreSmaller(g: Graph, start: Node, components: seq<seq<Node>>, id: map<Node, nat>,
      nodes: seq<Component>, i: nat, k: nat)
    requires AreComponents(g, start, components, id) && Condensed(g, components, id, nodes) && i < |nodes|
    requires k in nodes[i].successors
    ensures k < i
  {
    var u :| u in components[i] && EdgeTo(g, id, u, k);
    var v :| g.Edge(u, v) && v in id && id[v] == k;
    assert Reach(g, start, u);
  }

  /** A path of the condensation. */
  ghost predicate Descends(nodes: seq<Component>, i: nat, j: nat)
    requires i < |nodes|
    decreases i
  {
    i == j || exists k :: k in nodes[i].successors && k < i && Descends(nodes, k, j)
  }

  lemma {:induction false} DescendsThenStep(nodes: seq<Component>, i: nat, j: nat, k: nat)
    requires i < |nodes| && j < |nodes| && Descends(nodes, i, j) && k in nodes[j].successors && k < j
    ensures Descends(nodes, i, k)
    decreases i
  {
    if i == j {
      assert Descends(nodes, k, k);
    } else {
      var m :| m in nodes[i].successors && m < i && Descends(nodes, m, j);
      DescendsThenStep(nodes, m, j, k);
    }
  }

  lemma {:induction false} ReachDescends(g: Graph, start: Node, components: seq<seq<Node>>, id: map<Node, nat>,
      nodes: seq<Component>, x: Node, y: Node)
    requires EdgesStay(g) && AreComponents(g, start, components, id) && Condensed(g, components, id, nodes)
    requires Reach(g, start, x) && Reach(g, x, y)
    ensures y in id && id[y] < |nodes| && Descends(nodes, id[x], id[y])
  {
    var r := set n | n in g.Nodes() && Reach(g, start, n) && Descends(nodes, id[x], id[n]);
    forall u, v | u in r && g.Edge(u, v)
      ensures v in r
    {
      assert Reach(g, start, v) && id[v] <= id[u];
      if id[v] != id[u] {
        assert u in components[id[u]] && EdgeTo(g, id, u, id[v]);
        assert id[v] in nodes[id[u]].successors;
        DescendsThenStep(nodes, id[x], id[u], id[v]);
      }
    }
    assert EdgeClosed(g, r);
  }

  lemma {:induction false} DescendsReach(g: Graph, start: Node, components: seq<seq<Node>>, id: map<Node, nat>,
      nodes: seq<Component>, x: Node, y: Node)
    requires EdgesStay(g) && AreComponents(g, start, components, id) && Condensed(g, components, id, nodes)
    requires Reach(g, start, x) && Reach(g, start, y) && Descends(nodes, id[x], id[y])
    ensures Reach(g, x, y)
    decreases id[x]
  {
    if id[x] != id[y] {
      var k :| k in nodes[id[x]].successors && k < id[x] && Descends(nodes, k, id[y]);
      var u :| u in components[id[x]] && EdgeTo(g, id, u, k);
      var v :| g.Edge(u, v) && v in id && id[v] == k;
      assert Reach(g, start, u) && Mutual(g, x, u);
      ReachEdge(g, u, v);
      ReachChain(g, x, u, v);
      ReachChain(g, start, x, v);
      DescendsReach(g, start, components, id, nodes, v, y);
      ReachChain(g, x, v, y);
    }
  }

  /** The condensation, which has no cycles, keeps who reaches whom. */
  lemma {:induction false} CondensationReaches(g: Graph, start: Node, components: seq<seq<Node>>, id: map<Node, nat>,
      nodes: seq<Component>, x: Node, y: Node)
    requires EdgesStay(g) && AreComponents(g, start, components, id) && Condensed(g, components, id, nodes)
    requires Reach(g, start, x) && Reach(g, start, y)
    ensures Reach(g, x, y) <==> Descends(nodes, id[x], id[y])
  {
    if Reach(g, x, y) {
      ReachDescends(g, start, components, id, nodes, x, y);
    }
    if Descends(nodes, id[x], id[y]) {
      DescendsReach(g, start, components, id, nodes, x, y);
    }
  }

  // ---------------------------------------------------------------------------
  // Loops of a pointer graph

  ghost predicate OnCycle(g: Graph, n: Node) {
    exists v :: g.Edge(n, v) && Reach(g, v, n)
  }

  ghost predicate HasCompany(g: Graph, n: Node) {
    exists m :: m != n && Mutual(g, n, m)
  }

  ghost predicate Recorded(g: Graph, root: Node, n: Node) {
    Reach(g, root, n) && (HasCompany(g, n) || g.Succs(n) == [n])
  }

  lemma {:induction false} ReachStartsWithEdge(g: Graph, x: Node, y: Node)
    requires EdgesStay(g) && Reach(g, x, y) && x != y
    ensures exists v :: g.Edge(x, v) && Reach(g, v, y)
  {
    var r := set n | n in g.Nodes() && (n == x || exists v :: g.Edge(x, v) && Reach(g, v, n));
    forall u, v | u in r && g.Edge(u, v)
      ensures v in r
    {
      ReachEdge(g, u, v);
      if u == x {
        assert Reach(g, v, v);
      } else {
        var w :| g.Edge(x, w) && Reach(g, w, u);
        ReachChain(g, w, u, v);
      }
    }
    assert EdgeClosed(g, r);
  }

  /** What is recorded lies on a cycle, and it is all that lies on cycles but for nodes whose only
      cycle is an edge to itself beside other edges. */
  lemma {:induction false} RecordedIsOnCycle(g: Graph, root: Node, n: Node)
    requires EdgesStay(g) && Reach(g, root, n)
    ensures Recorded(g, root, n) ==> OnCycle(g, n)
    ensures OnCycle(g, n) ==> (Recorded(g, root, n) <==> HasCompany(g, n) || |g.Succs(n)| == 1)
    ensures HasCompany(g, n) || g.Edge(n, n) <==> OnCycle(g, n)
  {
    if HasCompany(g, n) {
      var m :| m != n && Mutual(g, n, m);
      ReachStartsWithEdge(g, n, m);
      var v :| g.Edge(n, v) && Reach(g, v, m);
      ReachChain(g, v, m, n);
      assert OnCycle(g, n);
    }
    if g.Edge(n, n) {
      assert Reach(g, n, n);
      assert OnCycle(g, n);
    }
    if OnCycle(g, n) {
      var v :| g.Edge(n, v) && Reach(g, v, n);
      ReachEdge(g, n, v);
      assert v != n ==> Mutual(g, n, v);
    }
    assert g.Succs(n) == [n] ==> g.Succs(n)[0] == n && g.Edge(n, n);
    assert |g.Succs(n)| == 1 && g.Edge(n, n) ==> g.Succs(n) == [n];
  }

  /** The loops are classes of mutually reachable nodes. */
  ghost predicate AreLoops(g: Graph, root: Node, loops: seq<seq<Node>>, nodeToLoop: map<Node, nat>) {
    && (forall n {:trigger n in nodeToLoop} :: n in nodeToLoop <==> Recorded(g, root, n))
    && (forall k, n :: 0 <= k < |loops| ==> (n in loops[k] <==> n in nodeToLoop && nodeToLoop[n] == k))
    && (forall n :: n in nodeToLoop ==> nodeToLoop[n] < |loops|)
    && (forall x, y :: x in nodeToLoop && y in nodeToLoop ==> (nodeToLoop[x] == nodeToLoop[y] <==> Mutual(g, x, y)))
  }

  /** The same for the lists before i. */
  ghost predicate Collected(g: Graph, root: Node, components: seq<seq<Node>>, id: map<Node, nat>, i: nat,
                            loops: seq<seq<Node>>, nodeToLoop: map<Node, nat>) {
    && (forall n {:trigger n in nodeToLoop} :: n in nodeToLoop <==> Recorded(g, root, n) && n in id && id[n] < i)
    && (forall k, n :: 0 <= k < |loops| ==> (n in loops[k] <==> n in nodeToLoop && nodeToLoop[n] == k))
    && (forall n :: n in nodeToLoop ==> nodeToLoop[n] < |loops|)
    && (forall x, y {:trigger nodeToLoop[x], nodeToLoop[y]} :: x in nodeToLoop && y in nodeToLoop ==>
          (nodeToLoop[x] == nodeToLoop[y] <==> id[x] == id[y]))
  }

  predicate IsLoop(g: Graph, nodes: seq<Node>)
    requires forall n :: n in nodes ==> g.Has(n)
  {
    nodes != [] && (|nodes| == 1 ==> |g.Succs(nodes[0])| == 1 && g.Succs(nodes[0])[0] == nodes[0])
  }

  lemma {:induction false} IsLoopIsRecorded(g: Graph, root: Node, components: seq<seq<Node>>, id: map<Node, nat>,
      i: nat, n: Node)
    requires EdgesStay(g) && AreComponents(g, root, components, id) && i < |components| && n in components[i]
    requires forall m :: m in components[i] ==> g.Has(m)
    ensures Recorded(g, root, n) <==> IsLoop(g, components[i])
  {
    var list := components[i];
    assert forall m {:trigger Mutual(g, n, m)} :: Mutual(g, n, m) <==> m in list by {
      forall m
        ensures Mutual(g, n, m) <==> m in list
      {
        ComponentsAreMaximal(g, root, components, id, i, n, m);
      }
    }
    if |list| == 1 {
      assert forall m :: m in list ==> m == list[0];
      assert !HasCompany(g, n);
    } else {
      assert list[0] in list && list[1] in list && list[0] != list[1];
      assert Mutual(g, n, list[0]) && Mutual(g, n, list[1]);
    }
  }

  lemma MembersReached(g: Graph, root: Node, components: seq<seq<Node>>, id: map<Node, nat>, i: nat)
    requires AreComponents(g, root, components, id) && i < |components|
    ensures forall n :: n in components[i] ==> Reach(g, root, n) && g.Has(n) && n in id && id[n] == i
  {
    forall n | n in components[i]
      ensures Reach(g, root, n)  && n in id && id[n] == i
    {
    }
  }

  class PointerSubgraph {
    var loops: seq<seq<Node>>
    var nodeToLoop: map<Node, nat>
    var computedLoops: bool

    constructor ()
      ensures loops == [] && nodeToLoop == map[] && !computedLoops
    {
      loops, nodeToLoop, computedLoops := [], map[], false;
    }

    method ComputeLoops(g: Graph, root: Node)
      requires EdgesStay(g) && g.Has(root) && loops == [] && nodeToLoop == map[] && !computedLoops
      modifies this
      ensures computedLoops && AreLoops(g, root, loops, nodeToLoop)
    {
      computedLoops := true;
      var search := new SCC();
      var components := search.Compute(g, root);
      ghost var id := search.sccId;
      for i := 0 to |components|
        invariant computedLoops && Collected(g, root, components, id, i, loops, nodeToLoop)
      {
        MembersReached(g, root, components, id, i);
        ghost var before, beforeMap := loops, nodeToLoop;
        assert forall n :: n in components[i] ==> n !in beforeMap;
        if IsLoop(g, components[i]) {
          RecordLoop(components[i]);
        }
        CollectNext(g, root, components, id, i, before, beforeMap, loops, nodeToLoop);
      }
      AllCollected(g, root, components, id, loops, nodeToLoop);
    }

    method RecordLoop(nodes: seq<Node>)
      requires Distinct(nodes) && forall n :: n in nodes ==> n !in nodeToLoop
      modifies `loops, `nodeToLoop
      ensures loops == old(loops) + [nodes]
      ensures forall n :: n in nodeToLoop <==> n in old(nodeToLoop) || n in nodes
      ensures forall n :: n in nodeToLoop ==> nodeToLoop[n] == if n in nodes then |old(loops)| else old(nodeToLoop)[n]
    {
      loops := loops + [nodes];
      for i := 0 to |nodes|
        invariant loops == old(loops) + [nodes]
        invariant forall n :: n in nodeToLoop <==> n in old(nodeToLoop) || n in nodes[..i]
        invariant forall n :: n in nodeToLoop ==> nodeToLoop[n] == if n in nodes[..i] then |old(loops)|
          else old(nodeToLoop)[n]
      {
        assert nodes[i] !in nodeToLoop;
        nodeToLoop := nodeToLoop[nodes[i] := |loops| - 1];
        assert nodes[..i + 1] == nodes[..i] + [nodes[i]];
      }
      assert nodes[..|nodes|] == nodes;
    }
  }

  lemma {:induction false} CollectNext(g: Graph, root: Node, components: seq<seq<Node>>, id: map<Node, nat>, i: nat,
                                       loops: seq<seq<Node>>, nodeToLoop: map<Node, nat>,
                                       loops': seq<seq<Node>>, nodeToLoop': map<Node, nat>)
    requires EdgesStay(g) && AreComponents(g, root, components, id) && i < |components|
    requires Collected(g, root, components, id, i, loops, nodeToLoop)
    requires forall n :: n in components[i] ==> Reach(g, root, n) && g.Has(n) && id[n] == i
    requires if IsLoop(g, components[i]) then
      && loops' == loops + [components[i]]
      && (forall n :: n in nodeToLoop' <==> n in nodeToLoop || n in components[i])
      && (forall n :: n in nodeToLoop' ==> nodeToLoop'[n] == if n in components[i] then |loops| else nodeToLoop[n])
      else loops' == loops && nodeToLoop' == nodeToLoop
    ensures Collected(g, root, components, id, i + 1, loops', nodeToLoop')
  {
    forall n
      ensures n in nodeToLoop' <==> Recorded(g, root, n) && n in id && id[n] < i + 1
    {
      if n in components[i] {
        IsLoopIsRecorded(g, root, components, id, i, n);
      }
    }
  }

  lemma {:induction false} AllCollected(g: Graph, root: Node, components: seq<seq<Node>>, id: map<Node, nat>,
                                        loops: seq<seq<Node>>, nodeToLoop: map<Node, nat>)
    requires AreComponents(g, root, components, id)
    requires Collected(g, root, components, id, |components|, loops, nodeToLoop)
    ensures AreLoops(g, root, loops, nodeToLoop)
  {
    assert forall n :: n in nodeToLoop ==> Reach(g, root, n);
  }
}
