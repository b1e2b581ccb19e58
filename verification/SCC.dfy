/** Tarjan's algorithm for strongly connected components. */
module StrongComponents {
  import opened Graphs

  // ---------------------------------------------------------------------------
  // Reachability

  /** The search uses successors alone; an edge may be stored several times. */
  ghost predicate EdgesStay(g: Graph) {
    forall u, v {:trigger g.Edge(u, v)} :: g.Edge(u, v) ==> g.Has(v)
  }

  ghost predicate EdgeClosed(g: Graph, r: set<Node>) {
    forall u, v {:trigger g.Edge(u, v), u in r} :: u in r && g.Edge(u, v) ==> v in r
  }

  /** There is a path, possibly without edges, from x to y. */
  ghost predicate Reach(g: Graph, x: Node, y: Node) {
    g.Has(x) && g.Has(y) && forall r {:trigger EdgeClosed(g, r)} :: EdgeClosed(g, r) && x in r ==> y in r
  }

  ghost predicate Mutual(g: Graph, x: Node, y: Node) {
    Reach(g, x, y) && Reach(g, y, x)
  }

  lemma ReachChain(g: Graph, x: Node, y: Node, z: Node)
    requires Reach(g, x, y) && Reach(g, y, z)
    ensures Reach(g, x, z)
  {
  }

  lemma ReachEdge(g: Graph, x: Node, y: Node)
    requires EdgesStay(g) && g.Edge(x, y)
    ensures Reach(g, x, y)
  {
  }

  // ---------------------------------------------------------------------------
  // The state of the search

  datatype NodeInfo = NodeInfo(dfsId: nat, lowpt: nat, onStack: bool)

  datatype State = State(index: nat, info: map<Node, NodeInfo>, stack: seq<Node>, scc: seq<seq<Node>>, sccId: map<Node,
      nat>) {

    function Info(n: Node): NodeInfo {
      if n in info then info[n] else NodeInfo(0, 0, false)
    }

    function Dfs(n: Node): nat {
      Info(n).dfsId
    }

    predicate Visited(n: Node) {
      Dfs(n) > 0
    }

    /** In one of the components found so far. */
    predicate Done(n: Node) {
      Visited(n) && n !in stack
    }
  }

  /** The stack holds visited nodes in the order of their numbers. */
  ghost predicate Numbered(g: Graph, s: State) {
    && (forall n {:trigger s.Visited(n)} :: s.Visited(n) ==> g.Has(n) && s.Dfs(n) <= s.index)
    && (forall n :: n in s.stack ==> s.Visited(n))
    && (forall n {:trigger s.Info(n).onStack} :: s.Info(n).onStack <==> n in s.stack)
    && (forall i, j {:trigger s.stack[i], s.stack[j]} ::
         0 <= i < j < |s.stack| ==> s.Dfs(s.stack[i]) < s.Dfs(s.stack[j]))
  }

  /** x can climb down the stack: it reaches a node in progress that is not above it. */
  ghost predicate ReachesGray(g: Graph, s: State, gray: set<Node>, y: Node) {
    exists x :: x in gray && s.Dfs(x) <= s.Dfs(y) && Reach(g, y, x)
  }

  ghost predicate ReachesUp(g: Graph, s: State) {
    forall x, y {:trigger Reach(g, x, y)} :: x in s.stack && y in s.stack && s.Dfs(x) <= s.Dfs(y) ==> Reach(g, x, y)
  }

  /** Nodes lower on the stack reach those above, and every node reaches one in progress. */
  ghost predicate Connected(g: Graph, s: State, gray: set<Node>) {
    && (forall x :: x in gray ==> x in s.stack)
    && ReachesUp(g, s)
    && (forall y {:trigger ReachesGray(g, s, gray, y)} :: y in s.stack ==> ReachesGray(g, s, gray, y))
  }

  /** Edges of visited nodes that are not in progress lead to visited nodes. */
  ghost predicate Explored(g: Graph, s: State, gray: set<Node>) {
    forall n, v {:trigger g.Edge(n, v)} :: s.Visited(n) && n !in gray && g.Edge(n, v) ==> s.Visited(v)
  }

  /** The lists hold the nodes done, each under its component number. */
  ghost predicate Listed(s: State) {
    && (forall n {:trigger s.Done(n)} :: s.Done(n) ==> n in s.sccId && s.sccId[n] < |s.scc|)
    && (forall k :: 0 <= k < |s.scc| ==> s.scc[k] != [] && Distinct(s.scc[k]))
    && (forall k, n {:trigger n in s.scc[k]} :: 0 <= k < |s.scc| ==> (n in s.scc[k] <==> s.Done(n) && s.sccId[n] == k))
  }

  /** Edges lead to components with no greater number. */
  ghost predicate Descending(g: Graph, s: State)
    requires Listed(s)
  {
    forall n, v {:trigger g.Edge(n, v)} :: s.Done(n) && g.Edge(n, v) ==> s.Done(v) && s.sccId[v] <= s.sccId[n]
  }

  /** The components are the classes of mutually reachable nodes. */
  ghost predicate Classes(g: Graph, s: State)
    requires Listed(s)
  {
    forall x, y {:trigger s.Done(x), s.Done(y)} ::
        s.Done(x) && s.Done(y) ==> (s.sccId[x] == s.sccId[y] <==> Mutual(g, x, y))
  }

  ghost predicate Components(g: Graph, s: State) {
    Listed(s) && Descending(g, s) && Classes(g, s)
  }

  ghost predicate Inv(g: Graph, s: State, gray: set<Node>, root: Node) {
    && Numbered(g, s) && Connected(g, s, gray) && Explored(g, s, gray) && Components(g, s)
    && forall n :: s.Visited(n) ==> Reach(g, root, n)
  }

  // ---------------------------------------------------------------------------
  // Steps of the search

  /** Only lowpoints differ. */
  ghost predicate SameButLowpt(s: State, s': State) {
    && s'.index == s.index && s'.stack == s.stack && s'.scc == s.scc && s'.sccId == s.sccId
    && forall x {:trigger s'.Info(x)} :: s'.Dfs(x) == s.Dfs(x) && s'.Info(x).onStack == s.Info(x).onStack
  }

  lemma {:induction false} LowptIsFree(g: Graph, s: State, s': State, gray: set<Node>, root: Node)
    requires Inv(g, s, gray, root) && SameButLowpt(s, s')
    ensures Inv(g, s', gray, root)
  {
    assert forall x :: s'.Dfs(x) == s.Dfs(x) && s'.Visited(x) == s.Visited(x) && s'.Done(x) == s.Done(x);
    forall y | y in s'.stack
      ensures ReachesGray(g, s', gray, y)
    {
      assert ReachesGray(g, s, gray, y);
    }
  }

  ghost predicate Entered(s: State, s': State, n: Node) {
    && s'.index == s.index + 1 && s'.stack == s.stack + [n] && s'.scc == s.scc && s'.sccId == s.sccId
    && s'.info == s.info[n := NodeInfo(s.index + 1, s.index + 1, true)]
  }

  lemma {:induction false} EnterKeeps(g: Graph, s: State, s': State, n: Node, gray: set<Node>, root: Node)
    requires EdgesStay(g) && Inv(g, s, gray, root) && Entered(s, s', n)
    requires !s.Visited(n) && Reach(g, root, n) && forall x :: x in gray ==> Reach(g, x, n)
    ensures Inv(g, s', gray + {n}, root)
  {
    assert forall x :: s'.Info(x) == if x == n then NodeInfo(s.index + 1, s.index + 1, true) else s.Info(x);
    EnterNumbered(g, s, s', n);
    EnterConnected(g, s, s', n, gray);
    assert forall x :: s'.Visited(x) <==> s.Visited(x) || x == n;
    assert forall x :: s'.Done(x) <==> s.Done(x);
    SameComponents(g, s, s');
  }

  lemma SameComponents(g: Graph, s: State, s': State)
    requires Components(g, s) && s'.scc == s.scc && s'.sccId == s.sccId
    requires forall x {:trigger s'.Done(x)} {:trigger s.Done(x)} :: s'.Done(x) <==> s.Done(x)
    ensures Components(g, s')
  {
  }

  lemma {:induction false} EnterNumbered(g: Graph, s: State, s': State, n: Node)
    requires Numbered(g, s) && Entered(s, s', n) && g.Has(n) && !s.Visited(n)
    ensures Numbered(g, s')
  {
    assert forall x :: s'.Info(x) == if x == n then NodeInfo(s.index + 1, s.index + 1, true) else s.Info(x);
    assert forall x :: s'.Visited(x) ==> x == n || s.Visited(x);
    assert forall x :: x in s.stack ==> s.Visited(x) && s'.Visited(x);
  }

  lemma {:induction false} GrayIsReached(g: Graph, s: State, gray: set<Node>, n: Node, x: Node)
    requires ReachesGray(g, s, gray, x) && forall z :: z in gray ==> Reach(g, z, n)
    ensures Reach(g, x, n)
  {
    var z :| z in gray && s.Dfs(z) <= s.Dfs(x) && Reach(g, x, z);
    ReachChain(g, x, z, n);
  }

  lemma {:induction false} EnterReachesGray(g: Graph, s: State, s': State, n: Node, gray: set<Node>, y: Node)
    requires ReachesGray(g, s, gray, y) && s'.Dfs(y) == s.Dfs(y)
    requires forall z :: z in gray ==> s'.Dfs(z) == s.Dfs(z)
    ensures ReachesGray(g, s', gray + {n}, y)
  {
    var z :| z in gray && s.Dfs(z) <= s.Dfs(y) && Reach(g, y, z);
    assert z in gray + {n};
  }

  lemma ReachesItself(g: Graph, s: State, gray: set<Node>, n: Node)
    requires g.Has(n) && n in gray
    ensures ReachesGray(g, s, gray, n)
  {
    assert Reach(g, n, n);
  }

  lemma {:induction false} EnterReachesUp(g: Graph, s: State, s': State, n: Node)
    requires ReachesUp(g, s) && s'.stack == s.stack + [n] && g.Has(n)
    requires forall x :: x in s.stack ==> Reach(g, x, n) && s'.Dfs(x) == s.Dfs(x) < s'.Dfs(n)
    ensures ReachesUp(g, s')
  {
    forall x, y | x in s'.stack && y in s'.stack && s'.Dfs(x) <= s'.Dfs(y)
      ensures Reach(g, x, y)
    {
      assert x in s.stack || x == n;
      assert y in s.stack || y == n;
    }
  }

  lemma {:induction false} EnterConnected(g: Graph, s: State, s': State, n: Node, gray: set<Node>)
    requires Numbered(g, s) && Connected(g, s, gray) && Entered(s, s', n) && !s.Visited(n) && g.Has(n)
    requires forall x :: x in gray ==> Reach(g, x, n)
    ensures Connected(g, s', gray + {n})
  {
    assert forall x :: s'.Info(x) == if x == n then NodeInfo(s.index + 1, s.index + 1, true) else s.Info(x);
    assert forall x :: x in s.stack ==> s.Visited(x) && x != n && s.Dfs(x) <= s.index;
    forall x | x in s.stack
      ensures Reach(g, x, n)
    {
      GrayIsReached(g, s, gray, n, x);
    }
    EnterReachesUp(g, s, s', n);
    forall y | y in s'.stack
      ensures ReachesGray(g, s', gray + {n}, y)
    {
      if y != n {
        EnterReachesGray(g, s, s', n, gray, y);
      } else {
        ReachesItself(g, s', gray + {n}, n);
      }
    }
  }

  /** The search only adds to the stack and numbers new nodes. */
  ghost predicate Extends(s0: State, s: State) {
    && s0.stack <= s.stack
    && (forall x {:trigger s.Info(x)} :: s0.Visited(x) ==> s.Info(x) == s0.Info(x))
    && (forall x {:trigger s.Visited(x)} :: s.Visited(x) && !s0.Visited(x) ==> s.Dfs(x) > s0.index)
  }

  /** A node of the given part of the stack has the lowpoint of n as its number, and n reaches it. */
  ghost predicate Named(g: Graph, s: State, part: seq<Node>, n: Node) {
    exists y :: y in part && s.Dfs(y) == s.Info(n).lowpt && Reach(g, n, y)
  }

  /** Edges that lead from above the old stack, except from `skipped`, into the old stack do not go below low. */
  ghost predicate Bounded(g: Graph, s0: State, s: State, skipped: set<Node>, low: nat) {
    forall u, v {:trigger g.Edge(u, v)} ::
      Above(s0, s, u) && u !in skipped && v in s0.stack && g.Edge(u, v) ==> low <= s.Dfs(v)
  }

  ghost predicate Above(s0: State, s: State, x: Node) {
    x in s.stack && x !in s0.stack
  }

  /** The first i successors of n have been looked at. */
  ghost predicate Seen(g: Graph, s0: State, s: State, n: Node, i: nat)
    requires g.Has(n) && i <= |g.Succs(n)|
  {
    forall j {:trigger g.Succs(n)[j]} :: 0 <= j < i ==>
      s.Visited(g.Succs(n)[j]) && (g.Succs(n)[j] in s0.stack ==> s.Info(n).lowpt <= s.Dfs(g.Succs(n)[j]))
  }

  /** The search below n, started in s0, has got to s: i successors of n have been looked at. */
  ghost predicate InProgress(g: Graph, s0: State, s: State, n: Node, i: nat)
    requires g.Has(n) && i <= |g.Succs(n)|
  {
    && s0.stack + [n] <= s.stack && Extends(s0, s)
    && !s0.Visited(n) && s.Dfs(n) == s0.index + 1 && s.Info(n).lowpt <= s.Dfs(n)
    && Named(g, s, s0.stack + [n], n) && Bounded(g, s0, s, {n}, s.Info(n).lowpt) && Seen(g, s0, s, n, i)
  }

  /** What a finished visit of n promises: either n has been popped with all that was above
      the old stack, or it reaches the node of the old stack that its lowpoint names. */
  ghost predicate Finished(g: Graph, s0: State, s: State, n: Node) {
    && Extends(s0, s) && s.Visited(n)
    && (if n in s.stack then Named(g, s, s0.stack, n) else s.stack == s0.stack && s.Info(n).lowpt == s.Dfs(n))
    && Bounded(g, s0, s, {}, s.Info(n).lowpt)
  }

  // ---------------------------------------------------------------------------
  // Leaving a node

  lemma {:induction false} AboveOrBelow(g: Graph, s0: State, s: State, n: Node, x: Node)
    requires Numbered(g, s) && s0.stack + [n] <= s.stack && x in s.stack
    ensures x in s0.stack <==> s.Dfs(x) < s.Dfs(n)
    ensures x !in s0.stack <==> s.Dfs(x) >= s.Dfs(n)
  {
    var k := |s0.stack|;
    assert s.stack[k] == n;
    var i :| 0 <= i < |s.stack| && s.stack[i] == x;
    if i < k {
      assert s0.stack[i] == x;
      assert s.Dfs(s.stack[i]) < s.Dfs(s.stack[k]);
    } else {
      if i > k {
        assert s.Dfs(s.stack[k]) < s.Dfs(s.stack[i]);
      }
      forall j | 0 <= j < k
        ensures s0.stack[j] != x
      {
        assert s0.stack[j] == s.stack[j];
        assert s.Dfs(s.stack[j]) < s.Dfs(s.stack[k]);
      }
    }
  }

  lemma {:induction false} StayReachesGray(g: Graph, s: State, n: Node, gray: set<Node>, low: Node, y: Node)
    requires ReachesGray(g, s, gray + {n}, y) && ReachesGray(g, s, gray + {n}, low)
    requires s.Dfs(low) < s.Dfs(n) && Reach(g, n, low)
    ensures ReachesGray(g, s, gray, y)
  {
    var z :| z in gray + {n} && s.Dfs(z) <= s.Dfs(low) && Reach(g, low, z);
    var x :| x in gray + {n} && s.Dfs(x) <= s.Dfs(y) && Reach(g, y, x);
    if x == n {
      ReachChain(g, y, n, low);
      ReachChain(g, y, low, z);
      assert z in gray && s.Dfs(z) <= s.Dfs(y) && Reach(g, y, z);
    }
  }

  /** n stays on the stack and is no longer in progress: what reached n reaches the node that
      the lowpoint names, and from there one in progress. */
  lemma {:induction false} StayConnected(g: Graph, s0: State, s: State, n: Node, gray: set<Node>)
    requires Connected(g, s, gray + {n}) && s0.stack + [n] <= s.stack && Named(g, s, s0.stack + [n], n)
    requires gray <= (set x | x in s0.stack) && s.Info(n).lowpt < s.Dfs(n)
    ensures Connected(g, s, gray)
  {
    var low :| low in s0.stack + [n] && s.Dfs(low) == s.Info(n).lowpt && Reach(g, n, low);
    assert low in s0.stack && low in s.stack;
    forall y | y in s.stack
      ensures ReachesGray(g, s, gray, y)
    {
      StayReachesGray(g, s, n, gray, low, y);
    }
  }

  lemma {:induction false} StayExplored(g: Graph, s0: State, s: State, n: Node, gray: set<Node>)
    requires g.Has(n) && Explored(g, s, gray + {n}) && InProgress(g, s0, s, n, |g.Succs(n)|)
    ensures Explored(g, s, gray)
  {
    forall u, v | s.Visited(u) && u !in gray && g.Edge(u, v)
      ensures s.Visited(v)
    {
      if u == n {
        var j :| 0 <= j < |g.Succs(n)| && g.Succs(n)[j] == v;
      }
    }
  }

  /** If the lowpoint of n is its own number, no edge leads from n or above to a node below,
      and everything from n upward reaches n. */
  lemma {:induction false} EdgesStayAbove(g: Graph, s0: State, s: State, n: Node, gray: set<Node>, root: Node, u: Node,
      v: Node)
    requires EdgesStay(g) && g.Has(n) && Inv(g, s, gray + {n}, root) && InProgress(g, s0, s, n, |g.Succs(n)|)
    requires gray <= (set x | x in s0.stack) && s.Info(n).lowpt == s.Dfs(n)
    requires u in s.stack && u !in s0.stack && g.Edge(u, v)
    ensures s.Done(v) || (v in s.stack && v !in s0.stack)
  {
    assert s.Visited(u);
    if u == n {
      var j :| 0 <= j < |g.Succs(n)| && g.Succs(n)[j] == v;
    }
    assert s.Visited(v);
    if v in s.stack && v in s0.stack {
      AboveOrBelow(g, s0, s, n, v);
    }
  }

  lemma {:induction false} AboveReachesOnlyAbove(g: Graph, s0: State, s: State, n: Node, gray: set<Node>, root: Node,
      u: Node, v: Node)
    requires EdgesStay(g) && g.Has(n) && Inv(g, s, gray + {n}, root) && InProgress(g, s0, s, n, |g.Succs(n)|)
    requires gray <= (set x | x in s0.stack) && s.Info(n).lowpt == s.Dfs(n)
    requires Above(s0, s, u) && Reach(g, u, v)
    ensures s.Done(v) || Above(s0, s, v)
  {
    var r := set x | x in g.Nodes() && (s.Done(x) || Above(s0, s, x));
    forall x, y | x in r && g.Edge(x, y)
      ensures y in r
    {
      if !s.Done(x) {
        EdgesStayAbove(g, s0, s, n, gray, root, x, y);
      }
    }
    assert EdgeClosed(g, r);
  }

  lemma {:induction false} DoneReachesOnlyDone(g: Graph, s: State, u: Node, v: Node)
    requires EdgesStay(g) && Numbered(g, s) && Components(g, s) && s.Done(u) && Reach(g, u, v)
    ensures s.Done(v)
  {
    var r := set x | x in g.Nodes() && s.Done(x);
    assert EdgeClosed(g, r);
  }

  lemma {:induction false} AboveIsMutual(g: Graph, s0: State, s: State, n: Node, gray: set<Node>, root: Node, u: Node)
    requires EdgesStay(g) && g.Has(n) && Inv(g, s, gray + {n}, root) && InProgress(g, s0, s, n, |g.Succs(n)|)
    requires gray <= (set x | x in s0.stack) && s.Info(n).lowpt == s.Dfs(n)
    requires Above(s0, s, u)
    ensures Mutual(g, n, u)
  {
    assert s.stack[|s0.stack|] == n;
    AboveOrBelow(g, s0, s, n, u);
    assert Reach(g, n, u);
    assert ReachesGray(g, s, gray + {n}, u);
    var x :| x in gray + {n} && s.Dfs(x) <= s.Dfs(u) && Reach(g, u, x);
    AboveReachesOnlyAbove(g, s0, s, n, gray, root, u, x);
    assert x in s.stack;
  }

  // ---------------------------------------------------------------------------
  // A component is popped

  ghost predicate Popped(s0: State, s: State, s': State, component: seq<Node>) {
    && s'.index == s.index && s'.stack == s0.stack && s'.scc == s.scc + [component]
    && (forall x {:trigger s'.Info(x)} {:trigger s.Info(x)} ::
          s'.Info(x) == if Above(s0, s, x) then s.Info(x).(onStack := false) else s.Info(x))
    && (forall x :: x in s'.sccId <==> x in s.sccId || Above(s0, s, x))
    && (forall x :: x in s'.sccId ==> s'.sccId[x] == if Above(s0, s, x) then |s.scc| else s.sccId[x])
    && Distinct(component) && (forall x :: x in component <==> Above(s0, s, x))
  }

  /** Some of the component is popped. */
  ghost predicate Popping(s: State, s': State, component: seq<Node>) {
    && s'.index == s.index && s'.scc == s.scc && s'.stack <= s.stack
    && (forall x {:trigger s'.Info(x)} {:trigger s.Info(x)} ::
          s'.Info(x) == if x in component then s.Info(x).(onStack := false) else s.Info(x))
    && (forall x :: x in s'.sccId <==> x in s.sccId || x in component)
    && (forall x :: x in s'.sccId ==> s'.sccId[x] == if x in component then |s.scc| else s.sccId[x])
    && |component| == |s.stack| - |s'.stack|
    && (forall i {:trigger component[i]} :: 0 <= i < |component| ==> component[i] == s.stack[|s.stack| - 1 - i])
  }

  lemma {:induction false} PopStep(g: Graph, s: State, s1: State, s2: State, component: seq<Node>, w: Node)
    requires Numbered(g, s) && Popping(s, s1, component) && s1.stack != [] && w == s1.stack[|s1.stack| - 1]
    requires s2.index == s1.index && s2.scc == s1.scc && s2.stack == s1.stack[..|s1.stack| - 1]
    requires s2.info == s1.info[w := s1.Info(w).(onStack := false)] && s2.sccId == s1.sccId[w := |s1.scc|]
    ensures Popping(s, s2, component + [w])
  {
    assert forall x :: s2.Info(x) == if x == w then s1.Info(x).(onStack := false) else s1.Info(x);
    assert w == s.stack[|s1.stack| - 1];
    var c := component + [w];
    assert forall x :: x in c <==> x in component || x == w;
    assert forall i :: 0 <= i < |component| ==> c[i] == component[i];
  }

  /** Nodes of the old stack have smaller numbers than those above it. */
  lemma {:induction false} BelowIsNotAbove(g: Graph, s0: State, s: State, k: nat)
    requires Numbered(g, s) && s0.stack <= s.stack && |s0.stack| <= k < |s.stack|
    ensures s.stack[k] !in s0.stack
  {
    forall j | 0 <= j < |s0.stack|
      ensures s0.stack[j] != s.stack[k]
    {
      assert s0.stack[j] == s.stack[j] && s.Dfs(s.stack[j]) < s.Dfs(s.stack[k]);
    }
  }

  lemma {:induction false} PoppedAreAbove(g: Graph, s0: State, s: State, s1: State, component: seq<Node>, x: Node)
    requires Numbered(g, s) && Popping(s, s1, component) && s0.stack <= s.stack && s1.stack == s0.stack
    ensures x in component <==> Above(s0, s, x)
  {
    if x in component {
      var i :| 0 <= i < |component| && component[i] == x;
      BelowIsNotAbove(g, s0, s, |s.stack| - 1 - i);
    }
    forall k | |s0.stack| <= k < |s.stack|
      ensures s.stack[k] in component
    {
      assert component[|s.stack| - 1 - k] == s.stack[k];
    }
    assert forall k :: 0 <= k < |s0.stack| ==> s.stack[k] == s0.stack[k];
  }

  lemma {:induction false} PopEnds(g: Graph, s0: State, s: State, s1: State, s': State, component: seq<Node>)
    requires Numbered(g, s) && Popping(s, s1, component) && s0.stack <= s.stack && s1.stack == s0.stack
    requires s' == s1.(scc := s1.scc + [component])
    ensures Popped(s0, s, s', component)
  {
    forall x
      ensures x in component <==> Above(s0, s, x)
    {
      PoppedAreAbove(g, s0, s, s1, component, x);
    }
    forall x {:trigger s'.Info(x)}
      ensures s'.Info(x) == s1.Info(x)
    {
    }
    forall i, j | 0 <= i < j < |component|
      ensures component[i] != component[j]
    {
      assert s.Dfs(s.stack[|s.stack| - 1 - j]) < s.Dfs(s.stack[|s.stack| - 1 - i]);
    }
  }

  /** The pops stop at n: the numbers of the nodes above the old stack are the ones not below that of n. */
  lemma {:induction false} TopIsAbove(g: Graph, s0: State, s: State, n: Node, s1: State, component: seq<Node>)
    requires Numbered(g, s) && Popping(s, s1, component) && s0.stack + [n] <= s.stack && s0.stack <= s1.stack
    requires s1.stack != []
    ensures s1.Dfs(s1.stack[|s1.stack| - 1]) >= s1.Dfs(n) <==> |s1.stack| > |s0.stack|
  {
    var top := |s1.stack| - 1;
    assert s1.stack[top] == s.stack[top] && s.stack[|s0.stack|] == n;
    assert s1.Info(s.stack[top]).dfsId == s.Info(s.stack[top]).dfsId && s1.Info(n).dfsId == s.Info(n).dfsId;
  }

  lemma {:induction false} PopNumbered(g: Graph, s0: State, s: State, s': State, component: seq<Node>)
    requires Numbered(g, s) && s0.stack <= s.stack && Popped(s0, s, s', component)
    ensures Numbered(g, s')
  {
    assert forall x :: s'.Dfs(x) == s.Dfs(x) && s'.Visited(x) == s.Visited(x);
    assert forall x :: x in s'.stack ==> x in s.stack;
    assert forall i :: 0 <= i < |s'.stack| ==> s'.stack[i] == s.stack[i];
  }

  lemma {:induction false} PopReachesGray(g: Graph, s: State, s': State, n: Node, gray: set<Node>, y: Node)
    requires ReachesGray(g, s, gray + {n}, y) && s.Dfs(y) < s.Dfs(n)
    requires forall x :: s'.Dfs(x) == s.Dfs(x)
    ensures ReachesGray(g, s', gray, y)
  {
    var x :| x in gray + {n} && s.Dfs(x) <= s.Dfs(y) && Reach(g, y, x);
    assert x in gray;
  }

  lemma {:induction false} PopConnected(g: Graph, s0: State, s: State, s': State, n: Node, gray: set<Node>,
      component: seq<Node>)
    requires Numbered(g, s) && Connected(g, s, gray + {n}) && s0.stack + [n] <= s.stack && Popped(s0, s, s', component)
    requires gray <= (set x | x in s0.stack)
    ensures Connected(g, s', gray)
  {
    assert s0.stack <= s.stack;
    assert forall x :: s'.Dfs(x) == s.Dfs(x);
    assert forall x :: x in s'.stack ==> x in s.stack;
    forall y | y in s'.stack
      ensures ReachesGray(g, s', gray, y)
    {
      AboveOrBelow(g, s0, s, n, y);
      PopReachesGray(g, s, s', n, gray, y);
    }
  }

  /** Edges from old and new components lead to components with no greater number. */
  lemma {:induction false} PopDescends(g: Graph, s0: State, s: State, s': State, n: Node, gray: set<Node>, root: Node,
                                       component: seq<Node>, u: Node, v: Node)
    requires EdgesStay(g) && g.Has(n) && Inv(g, s, gray + {n}, root) && InProgress(g, s0, s, n, |g.Succs(n)|)
    requires gray <= (set x | x in s0.stack) && s.Info(n).lowpt == s.Dfs(n) && Popped(s0, s, s', component)
    requires s.Done(u) || Above(s0, s, u)
    requires g.Edge(u, v)
    ensures (s.Done(v) || Above(s0, s, v)) && s'.sccId[v] <= s'.sccId[u]
  {
    if !s.Done(u) {
      EdgesStayAbove(g, s0, s, n, gray, root, u, v);
    }
  }

  lemma {:induction false} PopSeparates(g: Graph, s0: State, s: State, s': State, n: Node, gray: set<Node>, root: Node,
                                        component: seq<Node>, x: Node, y: Node)
    requires EdgesStay(g) && g.Has(n) && Inv(g, s, gray + {n}, root) && InProgress(g, s0, s, n, |g.Succs(n)|)
    requires gray <= (set x | x in s0.stack) && s.Info(n).lowpt == s.Dfs(n) && Popped(s0, s, s', component)
    requires s.Done(x) || Above(s0, s, x)
    requires s.Done(y) || Above(s0, s, y)
    ensures s'.sccId[x] == s'.sccId[y] <==> Mutual(g, x, y)
  {
    if Above(s0, s, x) && Above(s0, s, y) {
      AboveIsMutual(g, s0, s, n, gray, root, x);
      AboveIsMutual(g, s0, s, n, gray, root, y);
      ReachChain(g, x, n, y);
      ReachChain(g, y, n, x);
    } else if Reach(g, x, y) && Reach(g, y, x) {
      if s.Done(x) {
        DoneReachesOnlyDone(g, s, x, y);
      } else {
        DoneReachesOnlyDone(g, s, y, x);
      }
    }
  }

  lemma {:induction false} PopListed(s0: State, s: State, s': State, component: seq<Node>)
    requires Listed(s) && Popped(s0, s, s', component) && component != []
    requires forall x {:trigger s'.Done(x)} :: s'.Done(x) <==> s.Done(x) || Above(s0, s, x)
    ensures Listed(s')
  {
    forall k, x {:trigger x in s'.scc[k]} | 0 <= k < |s'.scc|
      ensures x in s'.scc[k] <==> s'.Done(x) && s'.sccId[x] == k
    {
      assert s'.Done(x) <==> s.Done(x) || Above(s0, s, x);
      if k < |s.scc| {
        assert s'.scc[k] == s.scc[k];
      } else {
        assert s'.scc[k] == component;
      }
    }
  }

  lemma {:induction false} PopDone(g: Graph, s0: State, s: State, s': State, component: seq<Node>, x: Node)
    requires Numbered(g, s) && s0.stack <= s.stack && Popped(s0, s, s', component)
    ensures s'.Done(x) <==> s.Done(x) || Above(s0, s, x)
  {
    assert s'.Info(x).dfsId == s.Info(x).dfsId;
    assert x in s0.stack ==> x in s.stack;
  }

  lemma {:induction false} PopComponents(g: Graph, s0: State, s: State, s': State, n: Node, gray: set<Node>, root: Node,
                                         component: seq<Node>)
    requires EdgesStay(g) && g.Has(n) && Inv(g, s, gray + {n}, root) && InProgress(g, s0, s, n, |g.Succs(n)|)
    requires gray <= (set x | x in s0.stack) && s.Info(n).lowpt == s.Dfs(n) && Popped(s0, s, s', component)
    requires component != []
    requires forall x {:trigger s'.Done(x)} :: s'.Done(x) <==> s.Done(x) || Above(s0, s, x)
    ensures Components(g, s')
  {
    PopListed(s0, s, s', component);
    assert Descending(g, s') by {
      forall u, v | s'.Done(u) && g.Edge(u, v)
        ensures s'.Done(v) && s'.sccId[v] <= s'.sccId[u]
      {
        PopDescends(g, s0, s, s', n, gray, root, component, u, v);
      }
    }
    assert Classes(g, s') by {
      forall x, y | s'.Done(x) && s'.Done(y)
        ensures s'.sccId[x] == s'.sccId[y] <==> Mutual(g, x, y)
      {
        PopSeparates(g, s0, s, s', n, gray, root, component, x, y);
      }
    }
  }

  lemma {:induction false} PopKeeps(g: Graph, s0: State, s: State, s': State, n: Node, gray: set<Node>, root: Node,
                                    component: seq<Node>)
    requires EdgesStay(g) && g.Has(n) && Numbered(g, s0) && Inv(g, s, gray + {n}, root)
    requires InProgress(g, s0, s, n, |g.Succs(n)|)
    requires gray <= (set x | x in s0.stack) && s.Info(n).lowpt == s.Dfs(n) && Popped(s0, s, s', component)
    ensures Inv(g, s', gray, root) && Finished(g, s0, s', n)
  {
    assert s0.stack <= s.stack && s.stack[|s0.stack|] == n;
    AboveOrBelow(g, s0, s, n, n);
    forall x
      ensures s'.Done(x) <==> s.Done(x) || Above(s0, s, x)
    {
      PopDone(g, s0, s, s', component, x);
    }
    PopNumbered(g, s0, s, s', component);
    PopConnected(g, s0, s, s', n, gray, component);
    PopComponents(g, s0, s, s', n, gray, root, component);
    StayExplored(g, s0, s, n, gray);
    assert forall x :: s'.Dfs(x) == s.Dfs(x) && s'.Visited(x) == s.Visited(x);
    assert forall x :: s0.Visited(x) ==> s0.Info(x) == s.Info(x) && !Above(s0, s, x);
  }

  /** The visit ends with n left on the stack. */
  lemma {:induction false} StayKeeps(g: Graph, s0: State, s: State, n: Node, gray: set<Node>, root: Node)
    requires EdgesStay(g) && g.Has(n) && Inv(g, s, gray + {n}, root) && InProgress(g, s0, s, n, |g.Succs(n)|)
    requires gray <= (set x | x in s0.stack) && s.Info(n).lowpt < s.Dfs(n)
    ensures Inv(g, s, gray, root) && Finished(g, s0, s, n)
  {
    StayConnected(g, s0, s, n, gray);
    StayExplored(g, s0, s, n, gray);
    assert s.stack[|s0.stack|] == n;
    forall u, v | u in s.stack && u !in s0.stack && v in s0.stack && g.Edge(u, v)
      ensures s.Info(n).lowpt <= s.Dfs(v)
    {
      if u == n {
        var j :| 0 <= j < |g.Succs(n)| && g.Succs(n)[j] == v;
      }
    }
  }

  // ---------------------------------------------------------------------------
  // Looking at one successor

  ghost predicate Lowered(s: State, s': State, n: Node, other: nat) {
    && SameButLowpt(s, s')
    && (forall x {:trigger s'.Info(x)} :: x != n ==> s'.Info(x) == s.Info(x))
    && s'.Info(n).lowpt == if other < s.Info(n).lowpt then other else s.Info(n).lowpt
  }

  lemma LowerLowpt(s: State, s': State, n: Node, other: nat)
    requires s' == s.(info := s.info[n := s.Info(n).(lowpt := other)])
    ensures SameButLowpt(s, s')
  {
    forall x
      ensures s'.Info(x) == if x == n then s.Info(n).(lowpt := other) else s.Info(x)
    {
    }
    assert forall x :: s'.Dfs(x) == s.Dfs(x);
  }

  /** The successor had been visited before. */
  lemma {:induction false} SeenKeeps(g: Graph, s0: State, s: State, s': State, n: Node, i: nat)
    requires EdgesStay(g) && g.Has(n) && i < |g.Succs(n)| && InProgress(g, s0, s, n, i) && Numbered(g, s)
    requires s.Visited(g.Succs(n)[i])
    requires if g.Succs(n)[i] in s.stack then Lowered(s, s', n, s.Dfs(g.Succs(n)[i])) else s' == s
    ensures InProgress(g, s0, s', n, i + 1)
  {
    var succ := g.Succs(n)[i];
    assert s0.stack <= s.stack;
    assert forall x :: s'.Dfs(x) == s.Dfs(x) && s'.Visited(x) == s.Visited(x);
    assert Named(g, s', s0.stack + [n], n) by {
      if succ in s.stack && s.Dfs(succ) < s.Info(n).lowpt {
        AboveOrBelow(g, s0, s, n, succ);
        ReachEdge(g, n, succ);
      } else {
        var y :| y in s0.stack + [n] && s.Dfs(y) == s.Info(n).lowpt && Reach(g, n, y);
        assert s'.Dfs(y) == s'.Info(n).lowpt;
      }
    }
  }

  lemma {:induction false} VisitBounded(g: Graph, s0: State, s1: State, s: State, n: Node, succ: Node)
    requires Extends(s0, s1) && Extends(s1, s) && Bounded(g, s0, s1, {n}, s1.Info(n).lowpt)
    requires Bounded(g, s1, s, {}, s.Info(succ).lowpt)
    requires forall x :: x in s1.stack ==> s.Dfs(x) == s1.Dfs(x)
    ensures Bounded(g, s0, s, {n}, if s.Info(succ).lowpt < s1.Info(n).lowpt then s.Info(succ).lowpt
      else s1.Info(n).lowpt)
  {
    assert forall v :: v in s0.stack ==> v in s1.stack;
    assert forall u {:trigger Above(s0, s, u)} :: Above(s0, s, u) ==> Above(s0, s1, u) || Above(s1, s, u);
  }

  lemma {:induction false} VisitNamed(g: Graph, s0: State, s1: State, s: State, s': State, n: Node, succ: Node)
    requires EdgesStay(g) && g.Edge(n, succ) && s0.stack + [n] <= s1.stack && Numbered(g, s1) && n in s1.stack
    requires Named(g, s1, s0.stack + [n], n) && s1.Info(n).lowpt <= s1.Dfs(n)
    requires Finished(g, s1, s, succ) && s.Dfs(succ) > s1.index
    requires Lowered(s, s', n, s.Info(succ).lowpt)
    ensures Named(g, s', s0.stack + [n], n)
  {
    assert forall x {:trigger s'.Dfs(x)} :: x in s1.stack ==> s'.Dfs(x) == s1.Dfs(x) by {
      assert forall x :: x in s1.stack ==> s1.Visited(x) && s.Info(x) == s1.Info(x);
    }
    assert s.Info(n) == s1.Info(n);
    assert s0.stack <= s1.stack;
    if s.Info(succ).lowpt < s1.Info(n).lowpt {
      var y :| y in s1.stack && s.Dfs(y) == s.Info(succ).lowpt && Reach(g, succ, y);
      ReachEdge(g, n, succ);
      ReachChain(g, n, succ, y);
      AboveOrBelow(g, s0, s1, n, y);
    } else {
      var y :| y in s0.stack + [n] && s1.Dfs(y) == s1.Info(n).lowpt && Reach(g, n, y);
      assert y in s1.stack && s'.Dfs(y) == s'.Info(n).lowpt;
    }
  }

  lemma {:induction false} ExtendsChain(g: Graph, s0: State, s1: State, s: State)
    requires Extends(s0, s1) && Extends(s1, s) && s0.index <= s1.index
    ensures Extends(s0, s)
  {
    assert forall x :: s0.Visited(x) ==> s1.Info(x) == s0.Info(x) && s1.Visited(x);
    assert forall x :: s1.Visited(x) ==> s.Info(x) == s1.Info(x);
  }

  lemma {:induction false} VisitSeen(g: Graph, s0: State, s1: State, s': State, n: Node, i: nat)
    requires g.Has(n) && i < |g.Succs(n)| && Seen(g, s0, s1, n, i) && s'.Info(n).lowpt <= s1.Info(n).lowpt
    requires forall x :: s1.Visited(x) ==> s'.Visited(x) && s'.Dfs(x) == s1.Dfs(x)
    requires s'.Visited(g.Succs(n)[i]) && g.Succs(n)[i] !in s0.stack
    ensures Seen(g, s0, s', n, i + 1)
  {
  }

  /** The successor has just been visited. */
  lemma {:induction false} VisitKeeps(g: Graph, s0: State, s1: State, s: State, s': State, n: Node, i: nat)
    requires EdgesStay(g) && g.Has(n) && i < |g.Succs(n)| && InProgress(g, s0, s1, n, i) && Numbered(g, s0)
    requires Numbered(g, s1)
    requires !s1.Visited(g.Succs(n)[i]) && Finished(g, s1, s, g.Succs(n)[i])
    requires Lowered(s, s', n, s.Info(g.Succs(n)[i]).lowpt)
    ensures InProgress(g, s0, s', n, i + 1)
  {
    var succ := g.Succs(n)[i];
    assert s0.stack + [n] <= s1.stack <= s.stack;
    assert s1.stack[|s0.stack|] == n;
    assert forall x :: s1.Visited(x) ==> s.Info(x) == s1.Info(x);
    VisitNamed(g, s0, s1, s, s', n, succ);
    VisitBounded(g, s0, s1, s, n, succ);
    assert forall x :: s'.Dfs(x) == s.Dfs(x) && s'.Visited(x) == s.Visited(x);
    VisitSeen(g, s0, s1, s', n, i);
    ExtendsChain(g, s0, s1, s);
  }

  /** A fresh search enters n: nothing has been looked at. */
  lemma {:induction false} EnteredStarts(g: Graph, s0: State, s: State, n: Node)
    requires g.Has(n) && Numbered(g, s0) && Entered(s0, s, n) && !s0.Visited(n)
    ensures InProgress(g, s0, s, n, 0)
  {
    assert forall x :: s.Info(x) == if x == n then NodeInfo(s0.index + 1, s0.index + 1, true) else s0.Info(x);
    assert Reach(g, n, n);
    assert n in s0.stack + [n];
  }

  ghost function Unvisited(g: Graph, s: State): nat {
    |set x | x in g.Nodes() && !s.Visited(x)|
  }

  lemma {:induction false} FewerUnvisited(g: Graph, s0: State, s: State, n: Node)
    requires g.Has(n) && Extends(s0, s) && !s0.Visited(n) && s.Visited(n)
    ensures Unvisited(g, s) < Unvisited(g, s0)
  {
    var a, b := set x | x in g.Nodes() && !s.Visited(x), set x | x in g.Nodes() && !s0.Visited(x);
    assert forall x :: s0.Visited(x) ==> s.Info(x) == s0.Info(x);
    assert n in b && n !in a;
    StrictSubset(a, b);
  }

  // ---------------------------------------------------------------------------
  // The algorithm

  class SCC {
    var index: nat
    var info: map<Node, NodeInfo>
    var stack: seq<Node>
    var scc: seq<seq<Node>>
    /** The number each node has been given (a field of the nodes themselves). */
    var sccId: map<Node, nat>

    ghost function Value(): State
      reads this
    {
      State(index, info, stack, scc, sccId)
    }

    constructor ()
      ensures Value() == State(0, map[], [], [], map[])
    {
      index, info, stack, scc, sccId := 0, map[], [], [], map[];
    }

    function InfoOf(n: Node): NodeInfo
      reads this
      ensures InfoOf(n) == Value().Info(n)
    {
      if n in info then info[n] else NodeInfo(0, 0, false)
    }

    method Visit(g: Graph, n: Node, ghost gray: set<Node>, ghost root: Node)
      requires EdgesStay(g) && Inv(g, Value(), gray, root)
      requires !Value().Visited(n) && Reach(g, root, n) && forall x :: x in gray ==> Reach(g, x, n)
      modifies this
      ensures Inv(g, Value(), gray, root) && Finished(g, old(Value()), Value(), n)
      decreases Unvisited(g, Value()), 0
    {
      ghost var s0 := Value();
      Enter(n);
      EnterKeeps(g, s0, Value(), n, gray, root);
      EnteredStarts(g, s0, Value(), n);
      for i := 0 to |g.Succs(n)|
        invariant Inv(g, Value(), gray + {n}, root) && InProgress(g, s0, Value(), n, i)
      {
        FewerUnvisited(g, s0, Value(), n);
        VisitSuccessor(g, n, i, s0, gray, root);
      }
      ghost var s := Value();
      if InfoOf(n).lowpt == InfoOf(n).dfsId {
        var component := PopComponent(g, n, s0);
        PopKeeps(g, s0, s, Value(), n, gray, root, component);
      } else {
        StayKeeps(g, s0, s, n, gray, root);
      }
    }

    method Enter(n: Node)
      modifies this
      ensures Entered(old(Value()), Value(), n)
    {
      index := index + 1;
      info := info[n := NodeInfo(index, index, true)];
      stack := stack + [n];
    }

    method VisitSuccessor(g: Graph, n: Node, i: nat, ghost s0: State, ghost gray: set<Node>, ghost root: Node)
      requires EdgesStay(g) && g.Has(n) && i < |g.Succs(n)| && Numbered(g, s0)
      requires Inv(g, Value(), gray + {n}, root) && InProgress(g, s0, Value(), n, i)
      requires Reach(g, root, n) && forall x :: x in gray ==> Reach(g, x, n)
      modifies this
      ensures Inv(g, Value(), gray + {n}, root) && InProgress(g, s0, Value(), n, i + 1)
      decreases Unvisited(g, Value()), 1
    {
      var succ := g.Succs(n)[i];
      ghost var s1 := Value();
      ReachEdge(g, n, succ);
      if InfoOf(succ).dfsId == 0 {
        forall x | x in gray + {n}
          ensures Reach(g, x, succ)
        {
          if x != n {
            ReachChain(g, x, n, succ);
          }
        }
        ReachChain(g, root, n, succ);
        Visit(g, succ, gray + {n}, root);
        ghost var s := Value();
        Lower(n, InfoOf(succ).lowpt);
        VisitKeeps(g, s0, s1, s, Value(), n, i);
        LowptIsFree(g, s, Value(), gray + {n}, root);
      } else {
        if InfoOf(succ).onStack {
          Lower(n, InfoOf(succ).dfsId);
          LowptIsFree(g, s1, Value(), gray + {n}, root);
        }
        SeenKeeps(g, s0, s1, Value(), n, i);
      }
    }

    method Lower(n: Node, other: nat)
      modifies `info
      ensures Lowered(old(Value()), Value(), n, other)
    {
      ghost var s := Value();
      if other < InfoOf(n).lowpt {
        info := info[n := InfoOf(n).(lowpt := other)];
        LowerLowpt(s, Value(), n, other);
      }
    }

    method PopComponent(g: Graph, n: Node, ghost s0: State) returns (component: seq<Node>)
      requires Numbered(g, Value()) && s0.stack + [n] <= stack
      modifies this
      ensures Popped(s0, old(Value()), Value(), component)
    {
      ghost var s := Value();
      assert s0.stack <= stack;
      component := [];
      while InfoOf(stack[|stack| - 1]).dfsId >= InfoOf(n).dfsId
        invariant stack != [] && s0.stack <= stack && Popping(s, Value(), component)
        decreases |stack|
      {
        TopIsAbove(g, s0, s, n, Value(), component);
        component := PopNext(g, s, component);
        if stack == [] {
          break;
        }
      }
      if stack != [] {
        TopIsAbove(g, s0, s, n, Value(), component);
      }
      ghost var last := Value();
      scc := scc + [component];
      PopEnds(g, s0, s, last, Value(), component);
    }

    method PopNext(g: Graph, ghost s: State, component: seq<Node>) returns (more: seq<Node>)
      requires Numbered(g, s) && stack != [] && Popping(s, Value(), component)
      modifies this
      ensures Popping(s, Value(), more) && stack == old(stack)[..|old(stack)| - 1] && scc == old(scc)
    {
      ghost var before := Value();
      var w := Pop();
      PopStep(g, s, before, Value(), component, w);
      more := component + [w];
    }

    /** Takes the top node off the stack and gives it the number of the component being built. */
    method Pop() returns (w: Node)
      requires stack != []
      modifies this
      ensures w == old(Value()).stack[|old(Value()).stack| - 1]
      ensures Value() == old(Value()).(stack := old(Value()).stack[..|old(Value()).stack| - 1],
        info := old(Value()).info[w := old(Value()).Info(w).(onStack := false)], sccId :=
            old(Value()).sccId[w := |old(Value()).scc|])
    {
      w := stack[|stack| - 1];
      stack := stack[..|stack| - 1];
      info := info[w := InfoOf(w).(onStack := false)];
      sccId := sccId[w := |scc|];
    }

    /** On a fresh object: the components of the nodes that start reaches. */
    method Compute(g: Graph, start: Node) returns (components: seq<seq<Node>>)
      requires EdgesStay(g) && g.Has(start) && Value() == State(0, map[], [], [], map[])
      modifies this
      ensures stack == [] && components == scc
      ensures AreComponents(g, start, components, sccId)
    {
      InitialState(g, Value(), start);
      Visit(g, start, {}, start);
      StackIsEmpty(g, Value(), start);
      components := scc;
      FinalComponents(g, Value(), start);
    }
  }

  // ---------------------------------------------------------------------------
  // What the lists are in the end

  /** The lists partition the nodes that start reaches into the classes of mutually reachable nodes, and
      edges between different lists go from the greater number to the smaller. */
  ghost predicate AreComponents(g: Graph, start: Node, components: seq<seq<Node>>, id: map<Node, nat>) {
    && (forall n {:trigger Reach(g, start, n)} :: Reach(g, start, n) ==> n in id && id[n] < |components|)
    && (forall k :: 0 <= k < |components| ==> components[k] != [] && Distinct(components[k]))
    && (forall k, n {:trigger n in components[k]} ::
         0 <= k < |components| ==> (n in components[k] <==> Reach(g, start, n) && id[n] == k))
    && (forall x, y {:trigger Reach(g, start, x), Reach(g, start, y)} ::
          Reach(g, start, x) && Reach(g, start, y) ==> (id[x] == id[y] <==> Mutual(g, x, y)))
    && (forall u, v {:trigger g.Edge(u, v)} ::
         Reach(g, start, u) && g.Edge(u, v) ==> Reach(g, start, v) && id[v] <= id[u])
  }

  lemma InitialState(g: Graph, s: State, start: Node)
    requires g.Has(start) && s == State(0, map[], [], [], map[])
    ensures Inv(g, s, {}, start) && Reach(g, start, start) && !s.Visited(start)
  {
  }

  lemma {:induction false} StackIsEmpty(g: Graph, s: State, root: Node)
    requires Inv(g, s, {}, root)
    ensures s.stack == []
  {
    assert s.stack != [] ==> s.stack[0] in s.stack && ReachesGray(g, s, {}, s.stack[0]);
  }

  lemma {:induction false} VisitedIsReached(g: Graph, s: State, start: Node, n: Node)
    requires EdgesStay(g) && Inv(g, s, {}, start) && s.Visited(start)
    ensures s.Visited(n) <==> Reach(g, start, n)
  {
    if Reach(g, start, n) {
      var r := set x | x in g.Nodes() && s.Visited(x);
      assert EdgeClosed(g, r);
    }
  }

  lemma {:induction false} FinalComponents(g: Graph, s: State, start: Node)
    requires EdgesStay(g) && Inv(g, s, {}, start) && s.Visited(start) && s.stack == []
    ensures AreComponents(g, start, s.scc, s.sccId)
  {
    forall n {:trigger Reach(g, start, n)} {:trigger s.Done(n)}
      ensures s.Done(n) <==> Reach(g, start, n)
    {
      VisitedIsReached(g, s, start, n);
    }
  }

  /** No list can be enlarged: whoever reaches a member and is reached by it is in the list. */
  lemma {:induction false} ComponentsAreMaximal(g: Graph, start: Node, components: seq<seq<Node>>, id: map<Node, nat>,
      k: nat, x: Node, y: Node)
    requires EdgesStay(g) && AreComponents(g, start, components, id) && k < |components| && x in components[k]
    ensures y in components[k] <==> Mutual(g, x, y)
  {
    assert Reach(g, start, x) && id[x] == k;
    if Mutual(g, x, y) {
      ReachChain(g, start, x, y);
      assert Reach(g, start, y);
    }
    if y in components[k] {
      assert Reach(g, start, y) && id[y] == k;
    }
  }
}
