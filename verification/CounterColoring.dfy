/** Colouring with counters: a node is coloured when its counter of uncoloured successors
    drops to zero. The search never tests whether a node is coloured already, so a start
    node whose counter drops to zero is processed a second time and its predecessors are
    decremented once too often. This module says exactly what is coloured then. */
module CounterColoring {
  import opened Graphs

  // ---------------------------------------------------------------------------
  // What the search computes

  /** How many elements of s are in a. */
  ghost function Count(s: seq<Node>, a: set<Node>): (c: nat)
    ensures c <= |s|
  {
    if s == [] then 0 else Count(s[..|s| - 1], a) + (if s[|s| - 1] in a then 1 else 0)
  }

  /** Node x has successors, and they are processed at least as often as it has successors:
      once for being a target, once for having fired. */
  ghost predicate Fires(g: Graph, targets: set<Node>, fired: set<Node>, x: Node) {
    g.Has(x) && !g.Sink(x) && Count(g.Succs(x), targets) + Count(g.Succs(x), fired) >= |g.Succs(x)|
  }

  ghost predicate ClosedUnderFiring(g: Graph, targets: set<Node>, fired: set<Node>) {
    forall x :: Fires(g, targets, fired, x) ==> x in fired
  }

  /** The nodes whose counters drop to zero: the least set closed under firing. */
  ghost function Fired(g: Graph, targets: set<Node>): set<Node> {
    set x | x in g.Nodes() && forall z :: ClosedUnderFiring(g, targets, z) ==> x in z
  }

  ghost function Colored(g: Graph, targets: set<Node>): set<Node> {
    targets * g.Nodes() + Fired(g, targets)
  }

  /** The counters are unsigned shorts. */
  ghost predicate CountersFit(g: Graph) {
    forall x :: g.Has(x) ==> |g.Succs(x)| < 0x1_0000
  }

  // ---------------------------------------------------------------------------
  // Counting

  lemma {:induction false} CountGrows(s: seq<Node>, a: set<Node>, b: set<Node>)
    requires a <= b
    ensures Count(s, a) <= Count(s, b)
  {
    if s != [] {
      CountGrows(s[..|s| - 1], a, b);
    }
  }

  lemma {:induction false} CountOneMore(s: seq<Node>, a: set<Node>, y: Node)
    requires Distinct(s) && y !in a
    ensures Count(s, a + {y}) == Count(s, a) + (if y in s then 1 else 0)
  {
    if s != [] {
      var r := s[..|s| - 1];
      assert s == r + [s[|s| - 1]];
      CountOneMore(r, a, y);
    }
  }

  lemma {:induction false} CountAll(s: seq<Node>, a: set<Node>)
    ensures Count(s, a) == |s| <==> forall v :: v in s ==> v in a
  {
    if s != [] {
      var r := s[..|s| - 1];
      assert s == r + [s[|s| - 1]];
      CountAll(r, a);
    }
  }

  ghost predicate AtMostOneOutside(s: seq<Node>, a: set<Node>) {
    forall u, v :: u in s && v in s && u !in a && v !in a ==> u == v
  }

  lemma {:induction false} CountAllButOne(s: seq<Node>, a: set<Node>)
    requires Distinct(s)
    ensures Count(s, a) >= |s| - 1 <==> AtMostOneOutside(s, a)
  {
    if s != [] {
      var r, x := s[..|s| - 1], s[|s| - 1];
      assert s == r + [x];
      CountAllButOne(r, a);
      CountAll(r, a);
      assert x !in r;
    }
  }

  // ---------------------------------------------------------------------------
  // The search

  datatype Info = Info(colored: bool, counter: nat)

  function Decrement(c: nat): (c': nat)
    requires c < 0x1_0000
    ensures c' == (c - 1) % 0x1_0000
  {
    if c == 0 then 0xFFFF else c - 1
  }

  /** How often x has been decremented: once for each processed target and each processed
      fired node among its successors, and once more if it is in `extra`. */
  ghost function Decremented(g: Graph, p0: set<Node>, p1: set<Node>, extra: seq<Node>, x: Node): nat
    requires g.Has(x)
  {
    Count(g.Succs(x), p0) + Count(g.Succs(x), p1) + if x in extra then 1 else 0
  }

  ghost predicate Cell(d: nat, w: nat, isTarget: bool, isFired: bool, info: Info) {
    && w <= 2 * d
    && info.counter == (if w <= d then d - w else d - w + 0x1_0000)
    && (isFired <==> d > 0 && w >= d)
    && (info.colored <==> isTarget || isFired)
  }

  function One(b: bool): nat {
    if b then 1 else 0
  }

  ghost predicate Queued(queue: seq<Node>, targets: set<Node>, fired: set<Node>, p0: set<Node>, p1: set<Node>) {
    && p0 <= targets && p1 <= fired
    && forall y :: multiset(queue)[y] == One(y in targets && y !in p0) + One(y in fired && y !in p1)
  }

  /** Nothing fires too early. */
  ghost predicate Justified(g: Graph, targets: set<Node>, fired: set<Node>) {
    forall z :: ClosedUnderFiring(g, targets, z) ==> fired <= z
  }

  ghost predicate Counters(g: Graph, data: map<Node, Info>, targets: set<Node>, fired: set<Node>,
                           p0: set<Node>, p1: set<Node>, extra: seq<Node>) {
    && fired <= g.Nodes()
    && (forall x :: g.Has(x) ==> x in data)
    && (forall x :: g.Has(x) ==>
          Cell(|g.Succs(x)|, Decremented(g, p0, p1, extra, x), x in targets, x in fired, data[x]))
  }

  lemma {:induction false} DecrementKeeps(g: Graph, data: map<Node, Info>, targets: set<Node>, fired: set<Node>,
                                          p0: set<Node>, p1: set<Node>, done: seq<Node>, pred: Node, info: Info)
    requires CountersFit(g) && g.Has(pred) && pred !in done
    requires Counters(g, data, targets, fired, p0, p1, done)
    requires Decremented(g, p0, p1, done, pred) < 2 * |g.Succs(pred)|
    requires info.counter == Decrement(data[pred].counter)
    requires info.colored == (data[pred].colored || info.counter == 0)
    ensures Counters(g, data[pred := info], targets, fired + (if info.counter == 0 then {pred} else {}), p0, p1,
      done + [pred])
    ensures info.counter == 0 ==> Decremented(g, p0, p1, done, pred) + 1 == |g.Succs(pred)|
  {
    var fired' := fired + if info.counter == 0 then {pred} else {};
    forall x | g.Has(x)
      ensures Cell(|g.Succs(x)|, Decremented(g, p0, p1, done + [pred], x), x in targets, x in fired',
        data[pred := info][x])
    {
      assert Decremented(g, p0, p1, done + [pred], x) == Decremented(g, p0, p1, done, x) + One(x == pred);
    }
  }

  /** One decrement of a predecessor of `node`, which is being processed as a target or as
      a fired node. */
  lemma {:induction false} OneDecrement(g: Graph, targets: set<Node>, fired: set<Node>, node: Node, pred: Node,
                                        p0: set<Node>, p1: set<Node>, q0: set<Node>, q1: set<Node>)
    requires g.Valid() && g.Edge(pred, node) && p0 <= targets && p1 <= fired
    requires Processes(targets, fired, node, p0, p1, q0, q1)
    ensures Count(g.Succs(pred), p0) + Count(g.Succs(pred), p1) + 1 ==
            Count(g.Succs(pred), q0) + Count(g.Succs(pred), q1) <=
            Count(g.Succs(pred), targets) + Count(g.Succs(pred), fired)
  {
    var s := g.Succs(pred);
    if q1 == p1 {
      CountOneMore(s, p0, node);
    } else {
      CountOneMore(s, p1, node);
    }
    CountGrows(s, q0, targets);
    CountGrows(s, q1, fired);
  }

  ghost predicate Processes(targets: set<Node>, fired: set<Node>, node: Node,
                            p0: set<Node>, p1: set<Node>, q0: set<Node>, q1: set<Node>) {
    || (node in targets - p0 && q0 == p0 + {node} && q1 == p1)
    || (node in fired - p1 && q0 == p0 && q1 == p1 + {node})
  }

  lemma {:induction false} AllDecremented(g: Graph, targets: set<Node>, fired: set<Node>, node: Node, x: Node,
                                          p0: set<Node>, p1: set<Node>, q0: set<Node>, q1: set<Node>)
    requires g.Valid() && g.Has(node) && g.Has(x)
    requires Processes(targets, fired, node, p0, p1, q0, q1)
    ensures Decremented(g, p0, p1, g.Preds(node), x) == Decremented(g, q0, q1, [], x)
  {
    assert x in g.Preds(node) <==> g.Edge(x, node);
    if q1 == p1 {
      CountOneMore(g.Succs(x), p0, node);
    } else {
      CountOneMore(g.Succs(x), p1, node);
    }
  }

  lemma {:induction false} StaysJustified(g: Graph, targets: set<Node>, fired: set<Node>, x: Node)
    requires Justified(g, targets, fired) && Fires(g, targets, fired, x)
    ensures Justified(g, targets, fired + {x})
  {
    forall z | ClosedUnderFiring(g, targets, z)
      ensures fired + {x} <= z
    {
      CountGrows(g.Succs(x), fired, z);
      assert Fires(g, targets, z, x);
    }
  }

  lemma {:induction false} AllProcessed(g: Graph, targets: set<Node>, fired: set<Node>, p0: set<Node>, p1: set<Node>)
    requires Queued([], targets, fired, p0, p1)
    ensures p0 == targets && p1 == fired
  {
    var empty: seq<Node> := [];
    forall y
      ensures (y in targets ==> y in p0) && (y in fired ==> y in p1)
    {
      assert multiset(empty)[y] == 0;
    }
  }

  lemma {:induction false} LeastFired(g: Graph, targets: set<Node>, fired: set<Node>)
    requires fired <= g.Nodes() && ClosedUnderFiring(g, targets, fired) && Justified(g, targets, fired)
    ensures fired == Fired(g, targets)
  {
  }

  class Coloring {
    var data: map<Node, Info>

    constructor () {
      data := map[];
    }

    predicate IsColored(x: Node)
      reads this
    {
      x in data && data[x].colored
    }

    method Search(g: Graph, targets: set<Node>) returns (ghost pushes: nat)
      requires g.Valid() && CountersFit(g) && targets <= g.Nodes()
      modifies this
      ensures forall x :: g.Has(x) ==> (IsColored(x) <==> x in Colored(g, targets))
      ensures pushes <= |targets| + |g.succs|
    {
      Initialize(g);
      var queue := PushTargets(g, targets);
      ghost var fired, p0, p1 := {}, {}, {};
      while queue != []
        invariant Searching(g, targets, queue, fired, p0, p1)
        decreases targets - p0, g.Nodes() - p1
      {
        queue, fired, p0, p1 := Step(g, targets, queue, fired, p0, p1);
      }
      AllProcessed(g, targets, fired, p0, p1);
      FinalColors(g, targets, fired);
      pushes := |targets| + |fired|;
    }

    ghost predicate Searching(g: Graph, targets: set<Node>, queue: seq<Node>,
                              fired: set<Node>, p0: set<Node>, p1: set<Node>)
      reads this
    {
      && Counters(g, data, targets, fired, p0, p1, [])
      && Queued(queue, targets, fired, p0, p1)
      && Justified(g, targets, fired)
    }

    method Step(g: Graph, targets: set<Node>, queue: seq<Node>, ghost fired: set<Node>, ghost p0: set<Node>,
        ghost p1: set<Node>)
      returns (queue': seq<Node>, ghost fired': set<Node>, ghost q0: set<Node>, ghost q1: set<Node>)
      requires g.Valid() && CountersFit(g) && targets <= g.Nodes() && queue != []
      requires Searching(g, targets, queue, fired, p0, p1)
      modifies this
      ensures Searching(g, targets, queue', fired', q0, q1)
      ensures p0 <= q0 && p1 <= q1
      ensures targets - q0 < targets - p0 || (q0 == p0 && g.Nodes() - q1 < g.Nodes() - p1)
    {
      var node := queue[|queue| - 1];
      var rest := queue[..|queue| - 1];
      assert queue == rest + [node];
      q0, q1 := Pop(rest, node, targets, fired, p0, p1);
      assert node !in targets - q0 || node !in g.Nodes() - q1;
      queue', fired' := Process(g, targets, node, rest, fired, p0, p1, q0, q1);
    }

    lemma FinalColors(g: Graph, targets: set<Node>, fired: set<Node>)
      requires g.Valid() && targets <= g.Nodes()
      requires Counters(g, data, targets, fired, targets, fired, []) && Justified(g, targets, fired)
      ensures forall x :: g.Has(x) ==> (IsColored(x) <==> x in Colored(g, targets))
      ensures |fired| <= |g.succs|
    {
      forall x | Fires(g, targets, fired, x)
        ensures x in fired
      {
        assert Decremented(g, targets, fired, [], x) >= |g.Succs(x)| > 0;
      }
      LeastFired(g, targets, fired);
      NodesSize(g);
      SubsetSize(fired, g.Nodes());
    }

    method Initialize(g: Graph)
      requires g.Valid() && CountersFit(g)
      modifies this
      ensures Counters(g, data, {}, {}, {}, {}, [])
    {
      for i := 0 to |g.succs|
        invariant forall x: Node :: x.pos < i && g.Has(x) ==> x in data && data[x] == Info(false, |g.Succs(x)|)
      {
        data := data[Node(i) := Info(false, |g.Succs(Node(i))| % 0x1_0000)];
      }
      forall x | g.Has(x)
        ensures Decremented(g, {}, {}, [], x) == 0
      {
        CountNone(g.Succs(x));
      }
    }

    static lemma {:induction false} CountNone(s: seq<Node>)
      ensures Count(s, {}) == 0
    {
      if s != [] {
        CountNone(s[..|s| - 1]);
      }
    }

    static lemma {:induction false} NodesSize(g: Graph)
      ensures |g.Nodes()| == |g.succs|
    {
      PrefixSize(|g.succs|);
      assert g.Nodes() == set i: nat | i < |g.succs| :: Node(i);
    }

    static lemma {:induction false} PrefixSize(n: nat)
      ensures |set i: nat | i < n :: Node(i)| == n
    {
      if n > 0 {
        PrefixSize(n - 1);
        assert (set i: nat | i < n :: Node(i)) == (set i: nat | i < n - 1 :: Node(i)) + {Node(n - 1)};
      }
    }

    method PushTargets(g: Graph, targets: set<Node>) returns (queue: seq<Node>)
      requires g.Valid() && targets <= g.Nodes() && Counters(g, data, {}, {}, {}, {}, [])
      modifies this
      ensures Counters(g, data, targets, {}, {}, {}, [])
      ensures Queued(queue, targets, {}, {}, {})
    {
      queue := [];
      var todo := targets;
      while todo != {}
        invariant todo <= targets
        invariant Counters(g, data, targets - todo, {}, {}, {}, [])
        invariant forall y :: multiset(queue)[y] == One(y in targets && y !in todo)
      {
        var target;
        target, todo := Take(todo);
        data := data[target := data[target].(colored := true)];
        queue := queue + [target];
      }
      assert targets - todo == targets;
    }

    /** A target is first processed as a target, a second time because it fired. */
    ghost method Pop(rest: seq<Node>, node: Node, targets: set<Node>, fired: set<Node>, p0: set<Node>, p1: set<Node>)
      returns (q0: set<Node>, q1: set<Node>)
      requires Queued(rest + [node], targets, fired, p0, p1)
      ensures Queued(rest, targets, fired, q0, q1)
      ensures Processes(targets, fired, node, p0, p1, q0, q1)
    {
      assert forall y :: multiset(rest + [node])[y] == multiset(rest)[y] + One(y == node);
      if node in targets - p0 {
        q0, q1 := p0 + {node}, p1;
      } else {
        q0, q1 := p0, p1 + {node};
      }
    }

    method Process(g: Graph, targets: set<Node>, node: Node, queue: seq<Node>, ghost fired: set<Node>,
                   ghost p0: set<Node>, ghost p1: set<Node>, ghost q0: set<Node>, ghost q1: set<Node>)
      returns (queue': seq<Node>, ghost fired': set<Node>)
      requires g.Valid() && CountersFit(g) && targets <= g.Nodes()
      requires Counters(g, data, targets, fired, p0, p1, []) && Queued(queue, targets, fired, q0, q1)
      requires Justified(g, targets, fired)
      requires p0 <= targets && p1 <= fired && Processes(targets, fired, node, p0, p1, q0, q1)
      modifies this
      ensures Counters(g, data, targets, fired', q0, q1, []) && Queued(queue', targets, fired', q0, q1)
      ensures Justified(g, targets, fired')
    {
      queue', fired' := queue, fired;
      ghost var preds := g.Preds(node);
      for i := 0 to |g.Preds(node)|
        invariant fired <= fired'
        invariant Counters(g, data, targets, fired', p0, p1, preds[..i])
        invariant Queued(queue', targets, fired', q0, q1)
        invariant Justified(g, targets, fired')
      {
        queue', fired' := DecrementPredecessor(g, targets, node, i, queue', fired', p0, p1, q0, q1);
      }
      assert preds[..|preds|] == preds;
      forall x | g.Has(x)
        ensures Decremented(g, p0, p1, preds, x) == Decremented(g, q0, q1, [], x)
      {
        AllDecremented(g, targets, fired', node, x, p0, p1, q0, q1);
      }
    }

    method DecrementPredecessor(g: Graph, targets: set<Node>, node: Node, i: nat, queue: seq<Node>,
        ghost fired: set<Node>, ghost p0: set<Node>, ghost p1: set<Node>, ghost q0: set<Node>, ghost q1: set<Node>)
      returns (queue': seq<Node>, ghost fired': set<Node>)
      requires g.Valid() && CountersFit(g) && g.Has(node) && i < |g.Preds(node)|
      requires Counters(g, data, targets, fired, p0, p1, g.Preds(node)[..i]) && Queued(queue, targets, fired, q0, q1)
      requires Justified(g, targets, fired)
      requires p0 <= targets && p1 <= fired && Processes(targets, fired, node, p0, p1, q0, q1)
      modifies this
      ensures fired <= fired'
      ensures Counters(g, data, targets, fired', p0, p1, g.Preds(node)[..i + 1])
      ensures Queued(queue', targets, fired', q0, q1)
      ensures Justified(g, targets, fired')
    {
      var pred := g.Preds(node)[i];
      assert g.Preds(node)[..i + 1] == g.Preds(node)[..i] + [pred];
      OneDecrement(g, targets, fired, node, pred, p0, p1, q0, q1);
      var counter := Decrement(data[pred].counter);
      var info := Info(data[pred].colored || counter == 0, counter);
      assert pred !in g.Preds(node)[..i];
      DecrementKeeps(g, data, targets, fired, p0, p1, g.Preds(node)[..i], pred, info);
      data := data[pred := info];
      queue', fired' := queue, fired;
      if counter == 0 {
        queue' := queue' + [pred];
        StaysJustified(g, targets, fired, pred);
        fired' := fired' + {pred};
      }
    }
  }
}
