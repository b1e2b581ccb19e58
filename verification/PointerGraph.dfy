/** The graph on which pointers are analysed. */
module PointerGraphs {
  import opened Graphs
  import opened Offsets
  import opened PointsToSets
  import opened StrongComponents

  /** Other nodes (calls, entries, frees, ...) compute no pointers. */
  datatype Kind =
    Alloc | Function | Constant | Load | Store | Gep | Cast | Phi | Return | CallReturn | Memcpy | NullAddr |
    UnknownMem | Other

  /** A node with its operands. `successors` are within the procedure; `callees` are the roots of the
      called procedures and `returnSites` the nodes that a return goes to. `offset` is that of a constant
      or a GEP and `len` the length of a copy; `size` is the size of an allocation. */
  datatype PSNode = PSNode(kind: Kind, operands: seq<Node>, successors: seq<Node>, callees: seq<Node>,
      returnSites: seq<Node>,
                           offset: Offset, len: Offset, size: Offset, isCall: bool) {

    /** Where control goes: into the procedures that are called, if any are known, and back from them. */
    function Next(): seq<Node> {
      if isCall then if callees != [] then callees else successors
      else if kind == Return && returnSites != [] then returnSites
      else successors
    }

    /** Memory that pointers can point to. */
    predicate IsTarget() {
      kind == Alloc || kind == Function || kind == NullAddr || kind == UnknownMem
    }
  }

  datatype PointerGraph = PointerGraph(nodes: seq<PSNode>, root: Node, nullptr: Node, unknown: Node,
      fieldSensitivity: Offset) {

    predicate Has(n: Node) {
      n.pos < |nodes|
    }

    function At(n: Node): PSNode
      requires Has(n)
    {
      nodes[n.pos]
    }

    ghost function Nodes(): (all: set<Node>)
      ensures forall n :: n in all <==> Has(n)
    {
      set i: nat | i < |nodes| :: Node(i)
    }

    /** How control flows, as a graph. */
    ghost function Flow(): Graph {
      Graph(seq(|nodes|, i requires 0 <= i < |nodes| => nodes[i].Next()), [], {})
    }

    /** Operands and successors are nodes, there are as many operands as needed, and constants point to memory. */
    ghost predicate Valid() {
      && Has(root)
      && Has(nullptr) && At(nullptr).kind == NullAddr
      && Has(unknown) && At(unknown).kind == UnknownMem
      && forall n {:trigger At(n)} :: Has(n) ==> ValidNode(n)
    }

    ghost predicate ValidNode(n: Node)
      requires Has(n)
    {
      && (forall m :: m in At(n).operands ==> Has(m))
      && (forall m :: m in At(n).Next() ==> Has(m))
      && (At(n).kind == Load || At(n).kind == Gep || At(n).kind == Cast || At(n).kind == Constant ==>
           |At(n).operands| == 1)
      && (At(n).kind == Store || At(n).kind == Memcpy ==> |At(n).operands| == 2)
      && (At(n).kind == Constant ==> At(At(n).operands[0]).IsTarget())
      && (At(n).kind == NullAddr ==> n == nullptr) && (At(n).kind == UnknownMem ==> n == unknown)
    }
  }

  lemma FlowEdges(g: PointerGraph)
    requires g.Valid()
    ensures EdgesStay(g.Flow())
    ensures forall n :: g.Flow().Has(n) <==> g.Has(n)
    ensures forall n, m {:trigger g.Flow().Edge(n, m)} :: g.Flow().Edge(n, m) <==> g.Has(n) && m in g.At(n).Next()
  {
    forall n, m {:trigger g.Flow().Edge(n, m)}
      ensures g.Flow().Edge(n, m) <==> g.Has(n) && m in g.At(n).Next()
      ensures g.Flow().Edge(n, m) ==> g.Has(m)
    {
    }
  }

  // ---------------------------------------------------------------------------
  // GEPs in loops

  /** A GEP in a loop will end up with the unknown offset, which it is given at once. */
  function Preprocessed(node: PSNode, inLoop: bool): PSNode {
    if inLoop && node.kind == Gep then node.(offset := UNKNOWN) else node
  }

  ghost predicate InLoop(loops: seq<seq<Node>>, n: Node) {
    exists k :: 0 <= k < |loops| && n in loops[k]
  }

  method PreprocessGeps(g: PointerGraph, loops: seq<seq<Node>>) returns (g': PointerGraph)
    requires g.Valid() && forall k, n {:trigger n in loops[k]} :: 0 <= k < |loops| && n in loops[k] ==> g.Has(n)
    ensures g'.Valid() && g' == g.(nodes := g'.nodes) && |g'.nodes| == |g.nodes|
    ensures forall i :: 0 <= i < |g.nodes| ==> g'.nodes[i] == Preprocessed(g.nodes[i], InLoop(loops, Node(i)))
    ensures forall n {:trigger g'.At(n)} :: g.Has(n) ==>
      && (g.At(n).kind == Gep && InLoop(loops, n) ==> g'.At(n) == g.At(n).(offset := UNKNOWN))
      && (g.At(n).kind != Gep || !InLoop(loops, n) ==> g'.At(n) == g.At(n))
  {
    var nodes := g.nodes;
    for k := 0 to |loops|
      invariant |nodes| == |g.nodes|
      invariant forall i {:trigger nodes[i]} ::
        0 <= i < |nodes| ==> nodes[i] == Preprocessed(g.nodes[i], InLoop(loops[..k], Node(i)))
    {
      assert forall n :: n in loops[k] ==> g.Has(n);
      nodes := PreprocessLoop(nodes, loops[k]);
      forall i | 0 <= i < |nodes|
        ensures nodes[i] == Preprocessed(g.nodes[i], InLoop(loops[..k + 1], Node(i)))
      {
        InLoopMore(loops, k, Node(i));
      }
    }
    assert loops[..|loops|] == loops;
    g' := g.(nodes := nodes);
    PreprocessedIsValid(g, g', loops);
  }

  method PreprocessLoop(nodes: seq<PSNode>, loop: seq<Node>) returns (nodes': seq<PSNode>)
    requires forall n :: n in loop ==> n.pos < |nodes|
    ensures |nodes'| == |nodes|
    ensures forall i {:trigger nodes'[i]} :: 0 <= i < |nodes| ==> nodes'[i] == Preprocessed(nodes[i], Node(i) in loop)
  {
    nodes' := nodes;
    for j := 0 to |loop|
      invariant |nodes'| == |nodes|
      invariant forall i {:trigger nodes'[i]} ::
        0 <= i < |nodes| ==> nodes'[i] == Preprocessed(nodes[i], Node(i) in loop[..j])
    {
      var n := loop[j];
      assert n in loop;
      assert loop[..j + 1] == loop[..j] + [n];
      if nodes'[n.pos].kind == Gep {
        nodes' := nodes'[n.pos := nodes'[n.pos].(offset := UNKNOWN)];
      }
    }
    assert loop[..|loop|] == loop;
  }

  lemma {:induction false} InLoopMore(loops: seq<seq<Node>>, k: nat, n: Node)
    requires k < |loops|
    ensures InLoop(loops[..k + 1], n) <==> InLoop(loops[..k], n) || n in loops[k]
  {
    var front, more := loops[..k], loops[..k + 1];
    assert more == front + [loops[k]];
    if j :| 0 <= j < |front| && n in front[j] {
      assert more[j] == front[j];
    }
    assert more[k] == loops[k];
  }

  lemma {:induction false} PreprocessedIsValid(g: PointerGraph, g': PointerGraph, loops: seq<seq<Node>>)
    requires g.Valid() && g' == g.(nodes := g'.nodes) && |g'.nodes| == |g.nodes|
    requires forall i {:trigger g'.nodes[i]} ::
      0 <= i < |g.nodes| ==> g'.nodes[i] == Preprocessed(g.nodes[i], InLoop(loops, Node(i)))
    ensures g'.Valid()
  {
    assert forall n :: g.Has(n) ==> g'.At(n).kind == g.At(n).kind;
    forall n | g'.Has(n)
      ensures g'.ValidNode(n)
    {
      assert g.ValidNode(n) && g'.At(n).operands == g.At(n).operands && g'.At(n).Next() == g.At(n).Next();
    }
  }

  // ---------------------------------------------------------------------------
  // Reachable nodes

  ghost predicate ReachedFrom(g: PointerGraph, start: seq<Node>, n: Node) {
    exists s :: s in start && Reach(g.Flow(), s, n)
  }

  /** With a node the set has the nodes that control goes on to: from a call the roots of the procedures called,
      unless none is known; from a return where it returns to, unless that is not known; otherwise, and in
      these two cases, the successors in the procedure. */
  ghost predicate Walked(g: PointerGraph, r: set<Node>) {
    forall n {:trigger g.At(n)} :: n in r && g.Has(n) ==>
      var node := g.At(n);
      && (node.isCall && node.callees != [] ==> forall m :: m in node.callees ==> m in r)
      && (node.isCall && node.callees == [] ==> forall m :: m in node.successors ==> m in r)
      && (!node.isCall && node.kind != Return ==> forall m :: m in node.successors ==> m in r)
      && (!node.isCall && node.kind == Return ==>
            && (node.returnSites != [] ==> forall m :: m in node.returnSites ==> m in r)
            && (node.returnSites == [] ==> forall m :: m in node.successors ==> m in r))
  }

  ghost predicate IsLeastWalked(g: PointerGraph, start: seq<Node>, r: set<Node>) {
    && (forall n :: n in start ==> n in r) && Walked(g, r)
    && forall q :: (forall n :: n in start ==> n in q) && Walked(g, q) ==> r <= q
  }

  lemma {:induction false} WalkedIsClosed(g: PointerGraph, r: set<Node>)
    requires g.Valid()
    ensures Walked(g, r) <==> EdgeClosed(g.Flow(), r)
  {
    FlowEdges(g);
    if Walked(g, r) {
      forall n, m | n in r && g.Flow().Edge(n, m)
        ensures m in r
      {
        assert g.Has(n) && m in g.At(n).Next();
      }
    }
    if EdgeClosed(g.Flow(), r) {
      forall n {:trigger g.At(n)} | n in r && g.Has(n)
        ensures forall m :: m in g.At(n).Next() ==> m in r
      {
        assert forall m :: m in g.At(n).Next() ==> g.Flow().Edge(n, m);
      }
    }
  }

  /** What control reaches from some nodes is the least set of this kind. */
  lemma {:induction false} ReachedIsLeast(g: PointerGraph, start: seq<Node>, r: set<Node>)
    requires g.Valid() && forall n :: n in start ==> g.Has(n)
    requires forall n :: n in r <==> ReachedFrom(g, start, n)
    ensures IsLeastWalked(g, start, r)
  {
    StartIsReached(g, start);
    FlowEdges(g);
    forall n, m | n in r && g.Flow().Edge(n, m)
      ensures m in r
    {
      var s :| s in start && Reach(g.Flow(), s, n);
      ReachEdge(g.Flow(), n, m);
      ReachChain(g.Flow(), s, n, m);
    }
    WalkedIsClosed(g, r);
    forall q | (forall n :: n in start ==> n in q) && Walked(g, q)
      ensures r <= q
    {
      WalkedIsClosed(g, q);
      forall n | n in r
        ensures n in q
      {
        var s :| s in start && Reach(g.Flow(), s, n);
      }
    }
  }

  ghost predicate AllReached(g: PointerGraph, start: seq<Node>, seen: seq<Node>) {
    forall n {:trigger n in seen} :: n in seen ==> g.Has(n) && ReachedFrom(g, start, n)
  }

  /** Successors of what has been processed have been seen. */
  ghost predicate Expanded(g: PointerGraph, cont: seq<Node>, seen: seq<Node>) {
    forall n, m {:trigger g.Flow().Edge(n, m)} :: n in cont && g.Flow().Edge(n, m) ==> m in seen
  }

  /** The nodes not visited yet among the ones that control goes to from a node. */
  method EnqueueNext(g: PointerGraph, current: Node, queue: seq<Node>, visited: set<Node>, ghost seen: seq<Node>)
    returns (queue': seq<Node>, visited': set<Node>, ghost new': seq<Node>)
    requires g.Valid() && g.Has(current) && Distinct(seen) && forall n :: n in visited <==> n in seen
    ensures queue' == queue + new' && Distinct(seen + new') && forall n :: n in visited' <==> n in seen + new'
    ensures forall m :: m in g.At(current).Next() ==> m in seen + new'
    ensures forall m :: m in new' ==> m in g.At(current).Next()
  {
    queue', visited', new' := queue, visited, [];
    var next := g.At(current).Next();
    assert queue == queue + [] && seen == seen + [];
    for k := 0 to |next|
      invariant queue' == queue + new' && Distinct(seen + new') && forall n :: n in visited' <==> n in seen + new'
      invariant forall m :: m in next[..k] ==> m in seen + new'
      invariant forall m :: m in new' ==> m in next
    {
      if next[k] !in visited' {
        assert seen + (new' + [next[k]]) == (seen + new') + [next[k]];
        assert queue + (new' + [next[k]]) == (queue + new') + [next[k]];
        queue' := queue' + [next[k]];
        visited' := visited' + {next[k]};
        new' := new' + [next[k]];
      }
      assert next[..k + 1] == next[..k] + [next[k]];
    }
    assert next[..|next|] == next;
  }

  /** Everything that control can reach from the starting nodes, in breadth-first order. */
  method GetNodes(g: PointerGraph, start: seq<Node>) returns (cont: seq<Node>)
    requires g.Valid() && Distinct(start) && forall s :: s in start ==> g.Has(s)
    ensures Distinct(cont) && forall n :: n in cont <==> ReachedFrom(g, start, n)
    ensures IsLeastWalked(g, start, set n | n in cont)
  {
    cont := [];
    var queue := start;
    var visited := set n | n in start;
    WalkStarts(g, start);
    while queue != []
      invariant Walking(g, start, cont, queue, visited)
      decreases |g.Nodes() - visited|, |queue|
    {
      var current := queue[0];
      CurrentIsSeen(g, start, cont, queue, visited);
      ghost var before, rest, new' := visited, queue, [];
      queue, visited, new' := EnqueueNext(g, current, queue[1..], visited, cont + queue);
      WalkStep(g, start, cont, rest, before, visited, new');
      cont := cont + [current];
    }
    WalkEnds(g, start, cont, visited);
    ReachedIsLeast(g, start, set n | n in cont);
  }

  /** The nodes processed and those queued are what has been visited. */
  ghost predicate Walking(g: PointerGraph, start: seq<Node>, cont: seq<Node>, queue: seq<Node>, visited: set<Node>) {
    exists seen :: seen == cont + queue && Distinct(seen) && (forall n :: n in visited <==> n in seen)
      && start <= seen && AllReached(g, start, seen) && Expanded(g, cont, seen)
  }

  lemma WalkStarts(g: PointerGraph, start: seq<Node>)
    requires g.Valid() && Distinct(start) && forall s :: s in start ==> g.Has(s)
    ensures Walking(g, start, [], start, set n | n in start)
  {
    StartIsReached(g, start);
    assert start == [] + start;
  }

  lemma CurrentIsSeen(g: PointerGraph, start: seq<Node>, cont: seq<Node>, queue: seq<Node>, visited: set<Node>)
    requires Walking(g, start, cont, queue, visited) && queue != []
    ensures g.Has(queue[0]) && Distinct(cont + queue) && forall n :: n in visited <==> n in cont + queue
  {
    assert queue[0] in cont + queue;
  }

  lemma {:induction false} WalkStep(g: PointerGraph, start: seq<Node>, cont: seq<Node>, queue: seq<Node>,
      visited: set<Node>, visited': set<Node>, more: seq<Node>)
    requires g.Valid() && Walking(g, start, cont, queue, visited) && queue != [] && g.Has(queue[0])
    requires Distinct(cont + queue + more) && forall n :: n in visited' <==> n in cont + queue + more
    requires forall m :: m in g.At(queue[0]).Next() ==> m in cont + queue + more
    requires forall m :: m in more ==> m in g.At(queue[0]).Next()
    ensures Walking(g, start, cont + [queue[0]], queue[1..] + more, visited')
    ensures if more == [] then visited' == visited else |g.Nodes() - visited'| < |g.Nodes() - visited|
  {
    var seen := cont + queue;
    assert queue[0] in seen;
    SeenMore(g, start, cont, seen, queue[0], more);
    FirstMoves(cont, queue, more);
    FewerUnvisited(g, visited, visited', seen, more);
    WalkGoesOn(g, start, cont + [queue[0]], queue[1..] + more, visited', seen + more);
  }

  lemma WalkGoesOn(g: PointerGraph, start: seq<Node>, cont: seq<Node>, queue: seq<Node>, visited: set<Node>,
      seen: seq<Node>)
    requires seen == cont + queue && Distinct(seen) && (forall n :: n in visited <==> n in seen)
    requires start <= seen && AllReached(g, start, seen) && Expanded(g, cont, seen)
    ensures Walking(g, start, cont, queue, visited)
  {
  }

  lemma WalkEnds(g: PointerGraph, start: seq<Node>, cont: seq<Node>, visited: set<Node>)
    requires Walking(g, start, cont, [], visited)
    ensures Distinct(cont) && forall n :: n in cont <==> ReachedFrom(g, start, n)
  {
    assert cont + [] == cont;
    ContIsReached(g, start, cont);
  }

  lemma FirstMoves<T>(a: seq<T>, b: seq<T>, c: seq<T>)
    requires b != []
    ensures a + b + c == a + [b[0]] + (b[1..] + c)
  {
  }

  lemma ContIsReached(g: PointerGraph, start: seq<Node>, cont: seq<Node>)
    requires start <= cont && AllReached(g, start, cont) && Expanded(g, cont, cont)
    ensures forall n :: n in cont <==> ReachedFrom(g, start, n)
  {
    forall n | ReachedFrom(g, start, n)
      ensures n in cont
    {
      AllSeen(g, start, cont, n);
    }
  }

  lemma FewerUnvisited(g: PointerGraph, before: set<Node>, after: set<Node>, seen: seq<Node>, more: seq<Node>)
    requires g.Valid() && (forall n :: n in before <==> n in seen) && (forall n :: n in after <==> n in seen + more)
    requires Distinct(seen + more) && forall n :: n in more ==> g.Has(n)
    ensures more == [] ==> after == before
    ensures more != [] ==> |g.Nodes() - after| < |g.Nodes() - before|
  {
    if more != [] {
      var all := seen + more;
      assert all[|seen|] == more[0] && forall i :: 0 <= i < |seen| ==> all[i] == seen[i];
      assert more[0] in more && more[0] !in before && more[0] in after;
      StrictSubset(g.Nodes() - after, g.Nodes() - before);
    }
  }

  lemma StartIsReached(g: PointerGraph, start: seq<Node>)
    requires g.Valid() && forall s :: s in start ==> g.Has(s)
    ensures AllReached(g, start, start) && Expanded(g, [], start)
  {
    FlowEdges(g);
    forall n | n in start
      ensures ReachedFrom(g, start, n)
    {
      assert Reach(g.Flow(), n, n);
    }
  }

  lemma {:induction false} SeenMore(g: PointerGraph, start: seq<Node>, cont: seq<Node>, seen: seq<Node>, current: Node,
      more: seq<Node>)
    requires g.Valid() && AllReached(g, start, seen) && Expanded(g, cont, seen) && current in seen
    requires g.Has(current) && (forall m :: m in more ==> m in g.At(current).Next())
    requires forall m :: m in g.At(current).Next() ==> m in seen + more
    ensures AllReached(g, start, seen + more) && Expanded(g, cont + [current], seen + more)
  {
    FlowEdges(g);
    var s :| s in start && Reach(g.Flow(), s, current);
    forall m | m in more
      ensures g.Has(m) && ReachedFrom(g, start, m)
    {
      assert g.Flow().Edge(current, m);
      ReachEdge(g.Flow(), current, m);
      ReachChain(g.Flow(), s, current, m);
    }
  }

  lemma {:induction false} AllSeen(g: PointerGraph, start: seq<Node>, cont: seq<Node>, n: Node)
    requires start <= cont && Expanded(g, cont, cont) && ReachedFrom(g, start, n)
    ensures n in cont
  {
    var s :| s in start && Reach(g.Flow(), s, n);
    var r := set m | m in cont;
    assert EdgeClosed(g.Flow(), r);
    var k :| 0 <= k < |start| && start[k] == s;
    assert cont[k] == s;
  }
}
