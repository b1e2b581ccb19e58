/** Splitting basic blocks so that calls stand alone. */
module BlockSplitting {
  import opened Graphs
  import opened Guards
  import opened BlockDefinitions

  /** Blocks with their nodes and edges. */
  datatype Blocks = Blocks(nodes: map<Node, seq<RWNode>>, succs: map<Node, seq<Node>>, preds: map<Node, seq<Node>>) {

    ghost predicate Has(b: Node) {
      b in nodes && b in succs && b in preds
    }

    ghost predicate Edge(b: Node, c: Node) {
      Has(b) && c in succs[b]
    }

    /** The edge lists mirror each other and hold each edge once. */
    ghost predicate Valid() {
      && succs.Keys == nodes.Keys && preds.Keys == nodes.Keys
      && (forall b, c {:trigger Edge(b, c)} :: Edge(b, c) ==> Has(c) && b in preds[c])
      && (forall b, c {:trigger c in preds[b]} :: Has(b) && c in preds[b] ==> Edge(c, b))
      && (forall b {:trigger succs[b]} :: Has(b) ==> Distinct(succs[b]))
      && (forall b {:trigger preds[b]} :: Has(b) ==> Distinct(preds[b]))
    }
  }

  // ---------------------------------------------------------------------------
  // Executions

  ghost predicate IsPath(bs: Blocks, path: seq<Node>) {
    && path != [] && (forall i :: 0 <= i < |path| ==> bs.Has(path[i]))
    && (forall i {:trigger path[i]} :: 0 < i < |path| ==> bs.Edge(path[i - 1], path[i]))
  }

  ghost function Trace(bs: Blocks, path: seq<Node>): seq<RWNode> {
    if path == [] then [] else (if path[0] in bs.nodes then bs.nodes[path[0]] else []) + Trace(bs, path[1..])
  }

  /** Some execution from the block runs through these nodes first. */
  ghost predicate CanRun(bs: Blocks, start: Node, nodes: seq<RWNode>) {
    exists path :: IsPath(bs, path) && path[0] == start && nodes <= Trace(bs, path)
  }

  /** Nothing can follow the path. */
  ghost predicate Ends(bs: Blocks, path: seq<Node>) {
    path != [] && path[|path| - 1] in bs.succs && bs.succs[path[|path| - 1]] == []
  }

  /** Some execution from the block runs through these nodes and is over then. */
  ghost predicate CanFinish(bs: Blocks, start: Node, nodes: seq<RWNode>) {
    exists path :: IsPath(bs, path) && path[0] == start && Ends(bs, path) && nodes == Trace(bs, path)
  }

  // ---------------------------------------------------------------------------
  // Splitting a block in two

  /** In the lists of the given blocks, c takes the place of b. */
  ghost predicate Redirects(m: map<Node, seq<Node>>, m': map<Node, seq<Node>>, these: seq<Node>, b: Node, c: Node) {
    m'.Keys == m.Keys && forall x {:trigger m'[x]} :: x in m ==> m'[x] == if x in these then Replaced(m[x], b, c)
        else m[x]
  }

  function Replaced(s: seq<Node>, b: Node, c: Node): seq<Node> {
    seq(|s|, i requires 0 <= i < |s| => if s[i] == b then c else s[i])
  }

  /** The first k nodes stay in b, the others move to the new block c, and so do the edges that leave b. */
  function Split(bs: Blocks, b: Node, k: nat, c: Node): Blocks
    requires b in bs.nodes && b in bs.succs && k <= |bs.nodes[b]|
  {
    Blocks(bs.nodes[b := bs.nodes[b][..k]][c := bs.nodes[b][k..]],
           bs.succs[b := [c]][c := bs.succs[b]],
           (map x | x in bs.preds :: if x in bs.succs[b] then Replaced(bs.preds[x], b, c) else bs.preds[x])[c := [b]])
  }

  lemma {:induction false} SplitIsValid(bs: Blocks, b: Node, k: nat, c: Node)
    requires bs.Valid() && bs.Has(b) && !bs.Has(c) && k <= |bs.nodes[b]|
    ensures Split(bs, b, k, c).Valid()
    ensures forall x, y {:trigger Split(bs, b, k, c).Edge(x, y)} ::
      Split(bs, b, k, c).Edge(x, y) <==> if x == b then y == c else if x == c then bs.Edge(b, y) else bs.Edge(x, y)
  {
    var bs' := Split(bs, b, k, c);
    forall x, y {:trigger bs'.Edge(x, y)}
      ensures bs'.Edge(x, y) <==> if x == b then y == c else if x == c then bs.Edge(b, y) else bs.Edge(x, y)
    {
    }
    forall y | bs'.Has(y)
      ensures Distinct(bs'.preds[y])
    {
      if y != c {
        assert c in bs.preds[y] ==> bs.Edge(c, y);
        ReplacedIsDistinct(bs.preds[y], b, c);
      }
    }
    forall x, y | bs'.Edge(x, y)
      ensures bs'.Has(y) && x in bs'.preds[y]
    {
      SplitMirrors(bs, b, k, c, x, y);
    }
    forall x, y | bs'.Has(y) && x in bs'.preds[y]
      ensures bs'.Edge(x, y)
    {
      SplitMirrorsBack(bs, b, k, c, x, y);
    }
  }

  lemma {:induction false} SplitMirrors(bs: Blocks, b: Node, k: nat, c: Node, x: Node, y: Node)
    requires bs.Valid() && bs.Has(b) && !bs.Has(c) && k <= |bs.nodes[b]|
    requires Split(bs, b, k, c).Edge(x, y)
    ensures Split(bs, b, k, c).Has(y) && x in Split(bs, b, k, c).preds[y]
  {
    if x == c {
      assert bs.Edge(b, y);
      var i :| 0 <= i < |bs.preds[y]| && bs.preds[y][i] == b;
      assert Replaced(bs.preds[y], b, c)[i] == c;
    } else if x != b {
      assert bs.Edge(x, y);
      var i :| 0 <= i < |bs.preds[y]| && bs.preds[y][i] == x;
      assert Replaced(bs.preds[y], b, c)[i] == x;
    }
  }

  lemma {:induction false} SplitMirrorsBack(bs: Blocks, b: Node, k: nat, c: Node, x: Node, y: Node)
    requires bs.Valid() && bs.Has(b) && !bs.Has(c) && k <= |bs.nodes[b]|
    requires Split(bs, b, k, c).Has(y) && x in Split(bs, b, k, c).preds[y]
    ensures Split(bs, b, k, c).Edge(x, y)
  {
    if y != c {
      var list := Split(bs, b, k, c).preds[y];
      var i :| 0 <= i < |list| && list[i] == x;
      assert bs.preds[y][i] in bs.preds[y];
      assert bs.Edge(bs.preds[y][i], y);
    }
  }

  lemma {:induction false} ReplacedIsDistinct(s: seq<Node>, b: Node, c: Node)
    requires Distinct(s) && c !in s
    ensures Distinct(Replaced(s, b, c))
  {
  }

  // ---------------------------------------------------------------------------
  // Executions are the same

  lemma TraceOfOne(bs: Blocks, x: Node, rest: seq<Node>)
    requires x in bs.nodes
    ensures Trace(bs, [x] + rest) == bs.nodes[x] + Trace(bs, rest)
  {
    assert ([x] + rest)[1..] == rest;
  }

  lemma PathOfMore(bs: Blocks, x: Node, rest: seq<Node>)
    requires bs.Has(x) && (rest == [] || (IsPath(bs, rest) && bs.Edge(x, rest[0])))
    ensures IsPath(bs, [x] + rest)
  {
  }

  lemma EndOfMore(bs: Blocks, x: Node, rest: seq<Node>)
    requires x in bs.succs
    ensures Ends(bs, [x] + rest) <==> if rest == [] then bs.succs[x] == [] else Ends(bs, rest)
  {
  }

  lemma PathTail(bs: Blocks, path: seq<Node>)
    requires IsPath(bs, path) && |path| > 1
    ensures IsPath(bs, path[1..]) && bs.Edge(path[0], path[1])
  {
    assert forall i :: 0 <= i < |path[1..]| ==> path[1..][i] == path[i + 1];
  }

  lemma {:induction false} PathThroughBoth(bs: Blocks, b: Node, k: nat, c: Node, rest: seq<Node>)
    requires bs.Valid() && bs.Has(b) && !bs.Has(c) && k <= |bs.nodes[b]|
    requires rest == [] || (IsPath(Split(bs, b, k, c), rest) && bs.Edge(b, rest[0]))
    ensures IsPath(Split(bs, b, k, c), [b] + ([c] + rest))
  {
    SplitIsValid(bs, b, k, c);
    PathOfMore(Split(bs, b, k, c), c, rest);
    PathOfMore(Split(bs, b, k, c), b, [c] + rest);
  }

  lemma {:induction false} TraceThroughBoth(bs: Blocks, b: Node, k: nat, c: Node, rest: seq<Node>)
    requires b in bs.nodes && b in bs.succs && b != c && k <= |bs.nodes[b]|
    ensures Trace(Split(bs, b, k, c), [b] + ([c] + rest)) == bs.nodes[b] + Trace(Split(bs, b, k, c), rest)
    ensures Ends(Split(bs, b, k, c), [b] + ([c] + rest)) <==>
      if rest == [] then bs.succs[b] == [] else Ends(Split(bs, b, k, c), rest)
  {
    var bs' := Split(bs, b, k, c);
    TraceOfOne(bs', c, rest);
    TraceOfOne(bs', b, [c] + rest);
    EndOfMore(bs', c, rest);
    EndOfMore(bs', b, [c] + rest);
    assert bs.nodes[b] == bs'.nodes[b] + bs'.nodes[c];
  }

  /** The path goes through both parts of the block. */
  lemma {:induction false} ExpandPath(bs: Blocks, b: Node, k: nat, c: Node, path: seq<Node>) returns (path': seq<Node>)
    requires bs.Valid() && bs.Has(b) && !bs.Has(c) && k <= |bs.nodes[b]| && IsPath(bs, path)
    ensures var bs' := Split(bs, b, k, c);
            IsPath(bs', path') && path'[0] == path[0] && Trace(bs', path') == Trace(bs, path) &&
                (Ends(bs, path) ==> Ends(bs', path'))
  {
    var bs', x := Split(bs, b, k, c), path[0];
    SplitIsValid(bs, b, k, c);
    var rest: seq<Node> := [];
    if |path| > 1 {
      PathTail(bs, path);
      rest := ExpandPath(bs, b, k, c, path[1..]);
    }
    assert path == [x] + path[1..];
    TraceOfOne(bs, x, path[1..]);
    EndOfMore(bs, x, path[1..]);
    if x == b {
      PathThroughBoth(bs, b, k, c, rest);
      TraceThroughBoth(bs, b, k, c, rest);
      path' := [b] + ([c] + rest);
    } else {
      PathOfMore(bs', x, rest);
      TraceOfOne(bs', x, rest);
      EndOfMore(bs', x, rest);
      path' := [x] + rest;
    }
  }

  lemma ContractOne(bs: Blocks, b: Node, k: nat, c: Node, x: Node)
    requires bs.Valid() && bs.Has(b) && !bs.Has(c) && k <= |bs.nodes[b]| && bs.Has(x)
    ensures Trace(Split(bs, b, k, c), [x]) <= Trace(bs, [x])
    ensures Ends(Split(bs, b, k, c), [x]) ==> Ends(bs, [x]) && Trace(Split(bs, b, k, c), [x]) == Trace(bs, [x])
  {
    assert [x] + [] == [x];
    TraceOfOne(bs, x, []);
    TraceOfOne(Split(bs, b, k, c), x, []);
  }

  /** A path of the split blocks that stops between the two parts is continued. */
  lemma {:induction false} ContractPath(bs: Blocks, b: Node, k: nat, c: Node, path': seq<Node>)
      returns (path: seq<Node>)
    requires bs.Valid() && bs.Has(b) && !bs.Has(c) && k <= |bs.nodes[b]| && IsPath(Split(bs, b, k, c), path')
    requires path'[0] != c
    ensures IsPath(bs, path) && path[0] == path'[0] && Trace(Split(bs, b, k, c), path') <= Trace(bs, path)
    ensures Ends(Split(bs, b, k, c), path') ==> Ends(bs, path) && Trace(Split(bs, b, k, c), path') == Trace(bs, path)
    decreases |path'|
  {
    var bs', x := Split(bs, b, k, c), path'[0];
    SplitIsValid(bs, b, k, c);
    assert path' == [x] + path'[1..];
    TraceOfOne(bs', x, path'[1..]);
    EndOfMore(bs', x, path'[1..]);
    if |path'| == 1 {
      path := [x];
      ContractOne(bs, b, k, c, x);
    } else {
      PathTail(bs', path');
      if x == b {
        path := ContractSecond(bs, b, k, c, path'[1..]);
      } else {
        var rest := ContractPath(bs, b, k, c, path'[1..]);
        PathOfMore(bs, x, rest);
        TraceOfOne(bs, x, rest);
        EndOfMore(bs, x, rest);
        path := [x] + rest;
      }
    }
  }

  /** The path goes on from the second part. */
  lemma {:induction false} ContractSecond(bs: Blocks, b: Node, k: nat, c: Node, path': seq<Node>)
      returns (path: seq<Node>)
    requires bs.Valid() && bs.Has(b) && !bs.Has(c) && k <= |bs.nodes[b]| && IsPath(Split(bs, b, k, c), path')
    requires path'[0] == c
    ensures IsPath(bs, path) && path[0] == b
    ensures Split(bs, b, k, c).nodes[b] + Trace(Split(bs, b, k, c), path') <= Trace(bs, path)
    ensures Ends(Split(bs, b, k, c), path') ==>
      Ends(bs, path) && Split(bs, b, k, c).nodes[b] + Trace(Split(bs, b, k, c), path') == Trace(bs, path)
    decreases |path'|
  {
    var bs' := Split(bs, b, k, c);
    SplitIsValid(bs, b, k, c);
    assert path' == [c] + path'[1..];
    TraceOfOne(bs', c, path'[1..]);
    EndOfMore(bs', c, path'[1..]);
    assert bs.nodes[b] == bs'.nodes[b] + bs'.nodes[c];
    var rest: seq<Node> := [];
    if |path'| > 1 {
      PathTail(bs', path');
      assert bs.Edge(b, path'[1]);
      rest := ContractPath(bs, b, k, c, path'[1..]);
    }
    assert Trace(bs', path'[1..]) <= Trace(bs, rest);
    PathOfMore(bs, b, rest);
    TraceOfOne(bs, b, rest);
    EndOfMore(bs, b, rest);
    path := [b] + rest;
    PrefixBehind(bs'.nodes[b], bs'.nodes[c], Trace(bs', path'[1..]), Trace(bs, rest));
  }

  lemma PrefixBehind<T>(x: seq<T>, y: seq<T>, z: seq<T>, more: seq<T>)
    requires z <= more
    ensures x + (y + z) <= (x + y) + more
  {
  }

  /** Splitting keeps what can run from any block there was. */
  lemma {:induction false} SplitKeepsRuns(bs: Blocks, b: Node, k: nat, c: Node, start: Node, nodes: seq<RWNode>)
    requires bs.Valid() && bs.Has(b) && !bs.Has(c) && k <= |bs.nodes[b]| && bs.Has(start)
    ensures CanRun(bs, start, nodes) <==> CanRun(Split(bs, b, k, c), start, nodes)
  {
    if path :| IsPath(bs, path) && path[0] == start && nodes <= Trace(bs, path) {
      var path' := ExpandPath(bs, b, k, c, path);
    }
    if path' :| IsPath(Split(bs, b, k, c), path') && path'[0] == start && nodes <= Trace(Split(bs, b, k, c), path') {
      var path := ContractPath(bs, b, k, c, path');
    }
  }

  /** It also keeps what can be run from there until a block without successors has been left. */
  lemma {:induction false} SplitKeepsEnds(bs: Blocks, b: Node, k: nat, c: Node, start: Node, nodes: seq<RWNode>)
    requires bs.Valid() && bs.Has(b) && !bs.Has(c) && k <= |bs.nodes[b]| && bs.Has(start)
    ensures CanFinish(bs, start, nodes) <==> CanFinish(Split(bs, b, k, c), start, nodes)
  {
    if path :| IsPath(bs, path) && path[0] == start && Ends(bs, path) && nodes == Trace(bs, path) {
      var path' := ExpandPath(bs, b, k, c, path);
    }
    var bs' := Split(bs, b, k, c);
    if path' :| IsPath(bs', path') && path'[0] == start && Ends(bs', path') && nodes == Trace(bs', path') {
      var path := ContractPath(bs, b, k, c, path');
    }
  }

  // ---------------------------------------------------------------------------
  // The blocks of a procedure

  datatype NewBlock = NoBlock | NewBlock(block: Node)

  class RWSubgraph {
    /** The calls that are split around: all but those of a single undefined function. */
    const calls: set<RWNode>
    var nodes: map<Node, seq<RWNode>>
    var succs: map<Node, seq<Node>>
    var preds: map<Node, seq<Node>>
    /** The blocks in order, the entry first. */
    var blocks: seq<Node>
    var nextId: nat

    ghost function Value(): Blocks
      reads this
    {
      Blocks(nodes, succs, preds)
    }

    ghost predicate Valid()
      reads this
    {
      Value().Valid() && Numbered()
    }

    constructor (calls: set<RWNode>)
      ensures this.calls == calls && Valid() && nodes == map[] && blocks == []
    {
      this.calls := calls;
      nodes, succs, preds, blocks, nextId := map[], map[], map[], [], 0;
    }

    ghost predicate Numbered()
      reads this
    {
      forall b {:trigger b in nodes} :: b in nodes ==> b.pos < nextId
    }

    method CreateBlock(list: seq<RWNode>) returns (b: Node)
      requires Numbered()
      modifies `nodes, `succs, `preds, `nextId
      ensures Numbered() && b !in old(nodes) && old(nextId) <= nextId
      ensures nodes == old(nodes)[b := list] && succs == old(succs)[b := []] && preds == old(preds)[b := []]
    {
      b := Node(nextId);
      nextId := nextId + 1;
      nodes, succs, preds := nodes[b := list], succs[b := []], preds[b := []];
    }

    /** The edge is recorded on both ends, each time only if it is not there yet. */
    method AddSuccessor(b: Node, s: Node)
      requires b in succs && s in preds
      modifies `succs, `preds
      ensures succs == if s in old(succs)[b] then old(succs) else old(succs)[b := old(succs)[b] + [s]]
      ensures preds == if s in old(succs)[b] || b in old(preds)[s] then old(preds)
        else old(preds)[s := old(preds)[s] + [b]]
    {
      if s in succs[b] {
        return;
      }
      succs := succs[b := succs[b] + [s]];
      if b in preds[s] {
        return;
      }
      preds := preds[s := preds[s] + [b]];
    }

    /** In the predecessors of the successors of b, c takes the place of b. */
    method RedirectPredecessors(b: Node, c: Node)
      requires b in succs && Distinct(succs[b]) && forall s :: s in succs[b] ==> s in preds
      modifies `preds
      ensures Redirects(old(preds), preds, succs[b], b, c)
    {
      for i := 0 to |succs[b]|
        invariant Redirects(old(preds), preds, succs[b][..i], b, c)
      {
        var s := succs[b][i];
        assert s in succs[b] && s !in succs[b][..i];
        var list := ReplaceAll(preds[s], b, c);
        preds := preds[s := list];
        assert succs[b][..i + 1] == succs[b][..i] + [s];
      }
      assert succs[b][..|succs[b]|] == succs[b];
    }

    static method ReplaceAll(s: seq<Node>, b: Node, c: Node) returns (r: seq<Node>)
      ensures r == Replaced(s, b, c)
    {
      r := s;
      for i := 0 to |s|
        invariant |r| == |s|
        invariant forall j :: 0 <= j < i ==> r[j] == if s[j] == b then c else s[j]
        invariant forall j :: i <= j < |s| ==> r[j] == s[j]
      {
        if r[i] == b {
          r := r[i := c];
        }
      }
    }

    /** Splits the block before and after the node; at most two blocks are new. */
    method SplitAround(b: Node, node: RWNode) returns (withnode: NewBlock, after: NewBlock, ghost num: nat)
      requires Valid() && b in nodes && node in nodes[b]
      modifies `nodes, `succs, `preds, `nextId
      ensures Numbered() && old(nextId) <= nextId
      ensures num < |old(nodes)[b]| && old(nodes)[b][num] == node && node !in old(nodes)[b][..num]
      ensures |old(nodes)[b]| > 1 ==> AreNew(old(Value()), b, num, withnode, after)
      ensures Value() == SplitAroundSpec(old(Value()), b, num, withnode, after)
      ensures |old(nodes)[b]| == 1 ==> withnode == after == NoBlock
    {
      withnode, after, num := NoBlock, NoBlock, 0;
      if |nodes[b]| == 1 {
        return;
      }
      var at := 0;
      while nodes[b][at] != node
        invariant at < |nodes[b]| && node !in nodes[b][..at]
        decreases |nodes[b]| - at
      {
        assert nodes[b][..at + 1] == nodes[b][..at] + [nodes[b][at]];
        assert nodes[b][..|nodes[b]|] == nodes[b];
        at := at + 1;
      }
      ghost var bs := Value();
      num := at;
      withnode, after := DistributeNodes(b, at);
      Reconnect(b, withnode, after, bs);
      ReconnectedIsSplit(bs, b, at, withnode, after, Value());
    }

    /** The nodes go to the blocks; the new blocks have no edges yet. */
    method DistributeNodes(b: Node, num: nat) returns (withnode: NewBlock, after: NewBlock)
      requires Numbered() && b in nodes && num < |nodes[b]| && |nodes[b]| > 1
      modifies `nodes, `succs, `preds, `nextId
      ensures Numbered() && old(nextId) <= nextId && AreNew(old(Value()), b, num, withnode, after)
      ensures nodes == NodesAfter(old(Value()), b, num, withnode, after)
      ensures succs == WithEmpty(WithEmpty(old(succs), after), withnode)
      ensures preds == WithEmpty(WithEmpty(old(preds), after), withnode)
    {
      withnode, after := NoBlock, NoBlock;
      var list := nodes[b];
      if num + 1 < |list| {
        var a := CreateBlock(list[num + 1..]);
        after := NewBlock(a);
      }
      if num > 0 {
        var w := CreateBlock([list[num]]);
        withnode := NewBlock(w);
        nodes := nodes[b := list[..num]];
      } else {
        nodes := nodes[b := list[..1]];
      }
    }

    /** The last of the blocks gets the successors, and each gets an edge to the next. */
    method Reconnect(b: Node, withnode: NewBlock, after: NewBlock, ghost bs: Blocks)
      requires bs.Valid() && bs.Has(b) && (withnode.NewBlock? || after.NewBlock?) && withnode != after
      requires withnode.NewBlock? ==> withnode.block !in bs.nodes
      requires after.NewBlock? ==> after.block !in bs.nodes
      requires succs == WithEmpty(WithEmpty(bs.succs, after), withnode)
      requires preds == WithEmpty(WithEmpty(bs.preds, after), withnode)
      modifies `succs, `preds
      ensures succs == SuccsAfter(bs, b, withnode, after) && ArePredsAfter(bs, b, withnode, after, preds)
    {
      var last := if after.NewBlock? then after.block else withnode.block;
      assert b in succs && succs[b] == bs.succs[b] && forall s :: s in bs.succs[b] ==> bs.Edge(b, s);
      assert last !in bs.succs[b] && (withnode.NewBlock? ==> withnode.block !in bs.succs[b]);
      MoveEdges(b, last);
      ghost var succs', preds' := succs, preds;
      if withnode.NewBlock? {
        NewEdge(b, withnode.block);
        if after.NewBlock? {
          NewEdge(withnode.block, after.block);
          ConnectedThree(bs, b, withnode.block, after.block, succs', preds');
        } else {
          ConnectedTwo(bs, b, withnode.block, succs', preds');
        }
      } else {
        NewEdge(b, after.block);
        ConnectedTwo(bs, b, after.block, succs', preds');
      }
    }

    method MoveEdges(b: Node, last: Node)
      requires b in succs && last in succs && b != last && Distinct(succs[b])
      requires forall s :: s in succs[b] ==> s in preds
      modifies `succs, `preds
      ensures succs == old(succs)[last := old(succs)[b]][b := []]
      ensures Redirects(old(preds), preds, old(succs)[b], b, last)
    {
      RedirectPredecessors(b, last);
      succs := succs[last := succs[b]][b := []];
    }

    /** An edge between blocks that have no such edges yet. */
    method NewEdge(b: Node, c: Node)
      requires b in succs && c in preds && succs[b] == [] && preds[c] == []
      modifies `succs, `preds
      ensures succs == old(succs)[b := [c]] && preds == old(preds)[c := [b]]
    {
      AddSuccessor(b, c);
      assert [] + [c] == [c] && [] + [b] == [b];
    }

    /** Splits the block around its first call. The block that is left to be split is returned. */
    method SplitBlockOnFirstCall(b: Node, newblocks: seq<Node>) returns (rest: NewBlock, newblocks': seq<Node>)
      requires Valid() && b in nodes
      modifies `nodes, `succs, `preds, `nextId
      ensures Valid() && RunsSame(old(Value()), Value())
      ensures SplitUp(calls, old(nodes), nodes, b, rest, newblocks, newblocks')
      ensures KeepsWhole(calls, old(nodes), nodes)
    {
      newblocks' := newblocks;
      rest := NoBlock;
      ghost var bs := Value();
      for i := 0 to |nodes[b]|
        invariant Value() == bs && newblocks' == newblocks && rest == NoBlock
        invariant forall j :: 0 <= j < i ==> nodes[b][j] !in calls
      {
        if nodes[b][i] in calls {
          rest, newblocks' := SplitOnCall(b, i, newblocks);
          return;
        }
      }
      NothingRunsElse(bs);
      NothingSplit(calls, nodes, b, newblocks);
    }

    method SplitOnCall(b: Node, i: nat, newblocks: seq<Node>) returns (rest: NewBlock, newblocks': seq<Node>)
      requires Valid() && b in nodes && i < |nodes[b]| && nodes[b][i] in calls
      requires forall j :: 0 <= j < i ==> nodes[b][j] !in calls
      modifies `nodes, `succs, `preds, `nextId
      ensures Valid() && RunsSame(old(Value()), Value())
      ensures SplitUp(calls, old(nodes), nodes, b, rest, newblocks, newblocks')
      ensures KeepsWhole(calls, old(nodes), nodes)
    {
      ghost var bs := Value();
      var withnode, after, num := SplitAround(b, nodes[b][i]);
      FirstCall(calls, bs.nodes[b], i, num);
      SplitOnCallIsFine(calls, bs, b, num, withnode, after, newblocks);
      SplitKeepsWhole(calls, bs.nodes, nodes, b, after, newblocks, newblocks + NewOnes(withnode, after));
      newblocks' := newblocks + NewOnes(withnode, after);
      rest := after;
    }

    /** Afterwards each call stands alone in its block, and what can run is the same. */
    method SplitBBlocksOnCalls()
      requires Valid() && Distinct(blocks) && nodes.Keys == set b | b in blocks
      modifies this
      ensures Valid() && nodes.Keys == set b | b in blocks
      ensures old(blocks) <= blocks && RunsSame(old(Value()), Value())
      ensures forall b :: b in blocks ==> Alone(calls, nodes[b])
      ensures KeepsWhole(calls, old(nodes), nodes)
    {
      NothingRunsElse(Value());
      if blocks == [] {
        return;
      }
      var newblocks: seq<Node> := [];
      ProgressStarts(calls, nodes, blocks);
      for i := 0 to |blocks|
        invariant blocks == old(blocks) && Valid() && RunsSame(old(Value()), Value())
        invariant KeepsWhole(calls, old(nodes), nodes)
        invariant Progress(calls, nodes, blocks, newblocks, i, NoBlock)
      {
        ProgressTakes(calls, nodes, blocks, newblocks, i);
        ghost var before := nodes;
        newblocks := SplitBlock(i, newblocks, old(Value()));
        WholeTwice(calls, old(nodes), before, nodes);
      }
      ProgressEnds(calls, nodes, blocks, newblocks);
      blocks := blocks + newblocks;
    }

    /** Splits one of the old blocks as often as needed. */
    method SplitBlock(i: nat, newblocks: seq<Node>, ghost bs0: Blocks) returns (newblocks': seq<Node>)
      requires Valid() && Distinct(blocks) && i < |blocks| && RunsSame(bs0, Value()) && blocks[i] in nodes
      requires Progress(calls, nodes, blocks, newblocks, i + 1, NewBlock(blocks[i]))
      modifies `nodes, `succs, `preds, `nextId
      ensures Valid() && RunsSame(bs0, Value()) && Progress(calls, nodes, blocks, newblocks', i + 1, NoBlock)
      ensures KeepsWhole(calls, old(nodes), nodes)
    {
      newblocks' := newblocks;
      var cur := NewBlock(blocks[i]);
      while cur.NewBlock?
        invariant Valid() && RunsSame(bs0, Value()) && Progress(calls, nodes, blocks, newblocks', i + 1, cur)
        invariant KeepsWhole(calls, old(nodes), nodes)
        invariant cur.NewBlock? ==> cur.block in nodes && cur.block !in blocks[i + 1..]
        decreases if cur.NewBlock? then 1 + |nodes[cur.block]| else 0
      {
        ghost var bs, before := Value(), newblocks';
        var next;
        next, newblocks' := SplitBlockOnFirstCall(cur.block, newblocks');
        RunsSameTwice(bs0, bs, Value());
        WholeTwice(calls, old(nodes), bs.nodes, nodes);
        ProgressOn(calls, bs.nodes, nodes, blocks, i + 1, cur.block, next, before, newblocks');
        RestIsNew(calls, bs.nodes, nodes, blocks, before, newblocks', i + 1, cur.block, next);
        cur := next;
      }
    }
  }

  // ---------------------------------------------------------------------------
  // Calls alone

  ghost predicate Alone(calls: set<RWNode>, list: seq<RWNode>) {
    |list| == 1 || forall n :: n in list ==> n !in calls
  }

  /** The block b has been split: its parts are in order but for the rest, which is shorter than b was. */
  ghost predicate SplitUp(calls: set<RWNode>, nodes: map<Node, seq<RWNode>>, nodes': map<Node, seq<RWNode>>, b: Node,
      rest: NewBlock, newblocks: seq<Node>, newblocks': seq<Node>)
    requires b in nodes
  {
    && (rest.NewBlock? ==> rest.block in nodes' && rest.block !in nodes && |nodes'[rest.block]| < |nodes[b]|)
    && exists more :: newblocks' == newblocks + more && SplitInto(calls, nodes, nodes', b, rest, more)
  }

  ghost predicate SplitInto(calls: set<RWNode>, nodes: map<Node, seq<RWNode>>, nodes': map<Node, seq<RWNode>>, b: Node,
      rest: NewBlock, more: seq<Node>) {
    && (forall x :: x in nodes' <==> x in nodes || x in more)
    && (forall x :: x in more ==> x !in nodes)
    && (forall x {:trigger nodes'[x]} :: x in nodes && x != b ==> nodes'[x] == nodes[x])
    && (forall x {:trigger nodes'[x]} ::
         x in nodes' && (x == b || x in more) && rest != NewBlock(x) ==> Alone(calls, nodes'[x]))
  }

  /** Blocks without calls are as they were. */
  ghost predicate KeepsWhole(calls: set<RWNode>, nodes: map<Node, seq<RWNode>>, nodes': map<Node, seq<RWNode>>) {
    forall k {:trigger Shown(k)} :: Shown(k) ==>
      forall x {:trigger x in nodes} {:trigger nodes'[x]} ::
        x in nodes && (forall n :: n in nodes[x] ==> n !in calls) ==> x in nodes' && nodes'[x] == nodes[x]
  }

  lemma WholeTwice(calls: set<RWNode>, nodes: map<Node, seq<RWNode>>, nodes': map<Node, seq<RWNode>>,
      nodes'': map<Node, seq<RWNode>>)
    requires KeepsWhole(calls, nodes, nodes') && KeepsWhole(calls, nodes', nodes'')
    ensures KeepsWhole(calls, nodes, nodes'')
  {
    assert Shown(true);
    forall x | x in nodes && forall n :: n in nodes[x] ==> n !in calls
      ensures x in nodes'' && nodes''[x] == nodes[x]
    {
      assert x in nodes';
    }
  }

  lemma SplitKeepsWhole(calls: set<RWNode>, nodes: map<Node, seq<RWNode>>, nodes': map<Node, seq<RWNode>>, b: Node,
      rest: NewBlock, newblocks: seq<Node>, newblocks': seq<Node>)
    requires b in nodes && SplitUp(calls, nodes, nodes', b, rest, newblocks, newblocks')
    requires exists n :: n in nodes[b] && n in calls
    ensures KeepsWhole(calls, nodes, nodes')
  {
  }

  /** All blocks but those from i on and the current one are in order. */
  ghost predicate Progress(calls: set<RWNode>, nodes: map<Node, seq<RWNode>>, blocks: seq<Node>, newblocks: seq<Node>,
      i: nat, cur: NewBlock)
    requires i <= |blocks|
  {
    forall k {:trigger Shown(k)} :: Shown(k) ==>
      && (forall x :: x in nodes <==> x in blocks || x in newblocks)
      && (forall x :: x in newblocks ==> x !in blocks)
      && (cur.NewBlock? ==> cur.block in nodes)
      && forall x {:trigger nodes[x]} ::
           x in nodes && x !in blocks[i..] && cur != NewBlock(x) ==> Alone(calls, nodes[x])
  }

  lemma ProgressStarts(calls: set<RWNode>, nodes: map<Node, seq<RWNode>>, blocks: seq<Node>)
    requires forall x :: x in nodes <==> x in blocks
    ensures Progress(calls, nodes, blocks, [], 0, NoBlock)
  {
    assert blocks[0..] == blocks;
  }

  lemma ProgressTakes(calls: set<RWNode>, nodes: map<Node, seq<RWNode>>, blocks: seq<Node>, newblocks: seq<Node>,
      i: nat)
    requires i < |blocks| && Progress(calls, nodes, blocks, newblocks, i, NoBlock)
    ensures blocks[i] in nodes && Progress(calls, nodes, blocks, newblocks, i + 1, NewBlock(blocks[i]))
  {
    assert Shown(true);
    assert blocks[i..] == [blocks[i]] + blocks[i + 1..];
  }

  lemma ProgressEnds(calls: set<RWNode>, nodes: map<Node, seq<RWNode>>, blocks: seq<Node>, newblocks: seq<Node>)
    requires Progress(calls, nodes, blocks, newblocks, |blocks|, NoBlock)
    ensures nodes.Keys == (set b | b in blocks + newblocks)
    ensures forall b :: b in blocks + newblocks ==> Alone(calls, nodes[b])
  {
    assert Shown(true);
    forall b | b in blocks + newblocks
      ensures Alone(calls, nodes[b])
    {
      assert b in nodes && b !in blocks[|blocks|..];
    }
  }

  lemma {:induction false} ProgressOn(calls: set<RWNode>, nodes: map<Node, seq<RWNode>>,
      nodes': map<Node, seq<RWNode>>, blocks: seq<Node>, i: nat, b: Node, rest: NewBlock, newblocks: seq<Node>,
      newblocks': seq<Node>)
    requires i <= |blocks| && b in nodes && Progress(calls, nodes, blocks, newblocks, i, NewBlock(b))
    requires b !in blocks[i..]
    requires SplitUp(calls, nodes, nodes', b, rest, newblocks, newblocks')
    ensures Progress(calls, nodes', blocks, newblocks', i, rest)
  {
    assert Shown(true);
    var more :| newblocks' == newblocks + more && SplitInto(calls, nodes, nodes', b, rest, more);
    forall x | x in nodes' && x !in blocks[i..] && rest != NewBlock(x)
      ensures Alone(calls, nodes'[x])
    {
      if x in nodes && x != b {
        assert nodes'[x] == nodes[x];
      }
    }
  }

  lemma {:induction false} RestIsNew(calls: set<RWNode>, nodes: map<Node, seq<RWNode>>, nodes': map<Node, seq<RWNode>>,
      blocks: seq<Node>, newblocks: seq<Node>, newblocks': seq<Node>, i: nat, b: Node, rest: NewBlock)
    requires i <= |blocks| && b in nodes && Progress(calls, nodes, blocks, newblocks, i, NewBlock(b))
    requires SplitUp(calls, nodes, nodes', b, rest, newblocks, newblocks')
    ensures rest.NewBlock? ==> rest.block !in blocks[i..]
  {
    assert Shown(true);
  }

  /** The sequences of nodes along paths from a block, from an entry in particular, are the same; so are those of
      whole executions. */
  ghost predicate RunsSame(bs: Blocks, bs': Blocks) {
    forall k {:trigger Shown(k)} :: Shown(k) ==>
      && (forall x {:trigger bs'.Has(x)} :: bs.Has(x) ==> bs'.Has(x))
      && (forall start, list {:trigger CanRun(bs', start, list)} ::
           bs.Has(start) ==> (CanRun(bs, start, list) <==> CanRun(bs', start, list)))
      && forall start, list {:trigger CanFinish(bs', start, list)} ::
           bs.Has(start) ==> (CanFinish(bs, start, list) <==> CanFinish(bs', start, list))
  }

  lemma NothingRunsElse(bs: Blocks)
    ensures RunsSame(bs, bs)
  {
  }

  lemma RunsSameTwice(bs: Blocks, bs': Blocks, bs'': Blocks)
    requires RunsSame(bs, bs') && RunsSame(bs', bs'')
    ensures RunsSame(bs, bs'')
  {
    assert Shown(true);
    forall x | bs.Has(x)
      ensures bs''.Has(x)
    {
      assert bs'.Has(x);
    }
    forall start, list | bs.Has(start)
      ensures CanRun(bs, start, list) <==> CanRun(bs'', start, list)
    {
      assert bs'.Has(start) && (CanRun(bs, start, list) <==> CanRun(bs', start, list));
    }
    forall start, list | bs.Has(start)
      ensures CanFinish(bs, start, list) <==> CanFinish(bs'', start, list)
    {
      assert bs'.Has(start) && (CanFinish(bs, start, list) <==> CanFinish(bs', start, list));
    }
  }

  lemma {:induction false} SplitRunsSame(bs: Blocks, b: Node, k: nat, c: Node)
    requires bs.Valid() && bs.Has(b) && !bs.Has(c) && k <= |bs.nodes[b]|
    ensures RunsSame(bs, Split(bs, b, k, c))
  {
    forall start, list | bs.Has(start)
      ensures CanRun(bs, start, list) <==> CanRun(Split(bs, b, k, c), start, list)
    {
      SplitKeepsRuns(bs, b, k, c, start, list);
    }
    forall start, list | bs.Has(start)
      ensures CanFinish(bs, start, list) <==> CanFinish(Split(bs, b, k, c), start, list)
    {
      SplitKeepsEnds(bs, b, k, c, start, list);
    }
  }

  lemma {:induction false} SplitAroundKeepsRuns(bs: Blocks, b: Node, num: nat, withnode: NewBlock, after: NewBlock)
    requires bs.Valid() && bs.Has(b) && num < |bs.nodes[b]| && AreNew(bs, b, num, withnode, after)
    ensures RunsSame(bs, SplitAroundSpec(bs, b, num, withnode, after))
  {
    match (withnode, after)
    case (NoBlock, NoBlock) =>
    case (NoBlock, NewBlock(a)) => SplitRunsSame(bs, b, 1, a);
    case (NewBlock(w), NoBlock) => SplitRunsSame(bs, b, num, w);
    case (NewBlock(w), NewBlock(a)) =>
      SplitIsValid(bs, b, num, w);
      SplitRunsSame(bs, b, num, w);
      SplitRunsSame(Split(bs, b, num, w), w, 1, a);
      RunsSameTwice(bs, Split(bs, b, num, w), Split(Split(bs, b, num, w), w, 1, a));
  }

  lemma {:induction false} SplitAroundIsAlone(calls: set<RWNode>, bs: Blocks, b: Node, num: nat, withnode: NewBlock,
      after: NewBlock, newblocks: seq<Node>)
    requires bs.Valid() && bs.Has(b) && num < |bs.nodes[b]| && AreNew(bs, b, num, withnode, after) && |bs.nodes[b]| > 1
    requires forall j :: 0 <= j < num ==> bs.nodes[b][j] !in calls
    ensures SplitUp(calls, bs.nodes, SplitAroundSpec(bs, b, num, withnode, after).nodes, b, after, newblocks,
                    newblocks + NewOnes(withnode, after))
  {
    var nodes' := SplitAroundSpec(bs, b, num, withnode, after).nodes;
    SplitAroundNodes(bs, b, num, withnode, after);
    assert SplitInto(calls, bs.nodes, nodes', b, after, NewOnes(withnode, after));
  }

  lemma NothingSplit(calls: set<RWNode>, nodes: map<Node, seq<RWNode>>, b: Node, newblocks: seq<Node>)
    requires b in nodes && Alone(calls, nodes[b])
    ensures SplitUp(calls, nodes, nodes, b, NoBlock, newblocks, newblocks)
  {
    assert newblocks == newblocks + [] && SplitInto(calls, nodes, nodes, b, NoBlock, []);
  }

  lemma FirstCall(calls: set<RWNode>, list: seq<RWNode>, i: nat, num: nat)
    requires i < |list| && num < |list| && list[num] == list[i] && list[i] !in list[..num]
    requires list[i] in calls && forall j :: 0 <= j < i ==> list[j] !in calls
    ensures num == i
  {
    assert forall j :: 0 <= j < num ==> list[..num][j] == list[j];
  }

  lemma {:induction false} SplitOnCallIsFine(calls: set<RWNode>, bs: Blocks, b: Node, num: nat, withnode: NewBlock,
      after: NewBlock, newblocks: seq<Node>)
    requires bs.Valid() && bs.Has(b) && num < |bs.nodes[b]| && forall j :: 0 <= j < num ==> bs.nodes[b][j] !in calls
    requires if |bs.nodes[b]| > 1 then AreNew(bs, b, num, withnode, after) else withnode == after == NoBlock
    ensures var bs' := SplitAroundSpec(bs, b, num, withnode, after);
            bs'.Valid() && RunsSame(bs, bs') &&
                SplitUp(calls, bs.nodes, bs'.nodes, b, after, newblocks, newblocks + NewOnes(withnode, after))
  {
    if |bs.nodes[b]| > 1 {
      SplitAroundIsValid(bs, b, num, withnode, after);
      SplitAroundKeepsRuns(bs, b, num, withnode, after);
      SplitAroundIsAlone(calls, bs, b, num, withnode, after, newblocks);
    } else {
      NothingRunsElse(bs);
      NothingSplit(calls, bs.nodes, b, newblocks);
      assert newblocks + NewOnes(withnode, after) == newblocks;
    }
  }

  function NewOnes(withnode: NewBlock, after: NewBlock): seq<Node> {
    (if withnode.NewBlock? then [withnode.block] else []) + (if after.NewBlock? then [after.block] else [])
  }

  lemma {:induction false} SplitAroundNodes(bs: Blocks, b: Node, num: nat, withnode: NewBlock, after: NewBlock)
    requires bs.Valid() && bs.Has(b) && num < |bs.nodes[b]| && AreNew(bs, b, num, withnode, after) && |bs.nodes[b]| > 1
    ensures SplitAroundSpec(bs, b, num, withnode, after).nodes == NodesAfter(bs, b, num, withnode, after)
  {
    match (withnode, after)
    case (NoBlock, NoBlock) =>
    case (NoBlock, NewBlock(a)) =>
    case (NewBlock(w), NoBlock) =>
      assert bs.nodes[b][num..] == [bs.nodes[b][num]];
    case (NewBlock(w), NewBlock(a)) =>
      SplitTwice(bs, b, num, w, a);
  }

  ghost predicate AreNew(bs: Blocks, b: Node, num: nat, withnode: NewBlock, after: NewBlock)
    requires b in bs.nodes && num < |bs.nodes[b]|
  {
    && (withnode.NewBlock? <==> num > 0) && (after.NewBlock? <==> num + 1 < |bs.nodes[b]|)
    && (withnode.NewBlock? ==> withnode.block !in bs.nodes)
    && (after.NewBlock? ==> after.block !in bs.nodes && withnode != after)
  }

  ghost function NodesAfter(bs: Blocks, b: Node, num: nat, withnode: NewBlock, after: NewBlock): map<Node, seq<RWNode>>
    requires b in bs.nodes && num < |bs.nodes[b]|
  {
    var list := bs.nodes[b];
    match (withnode, after)
    case (NoBlock, NoBlock) => bs.nodes
    case (NoBlock, NewBlock(a)) => bs.nodes[a := list[num + 1..]][b := list[..1]]
    case (NewBlock(w), NoBlock) => bs.nodes[w := [list[num]]][b := list[..num]]
    case (NewBlock(w), NewBlock(a)) => bs.nodes[a := list[num + 1..]][w := [list[num]]][b := list[..num]]
  }

  ghost function WithEmpty(m: map<Node, seq<Node>>, n: NewBlock): map<Node, seq<Node>> {
    if n.NewBlock? then m[n.block := []] else m
  }

  ghost function SuccsAfter(bs: Blocks, b: Node, withnode: NewBlock, after: NewBlock): map<Node, seq<Node>>
    requires b in bs.succs
  {
    match (withnode, after)
    case (NoBlock, NoBlock) => bs.succs
    case (NoBlock, NewBlock(a)) => bs.succs[a := bs.succs[b]][b := [a]]
    case (NewBlock(w), NoBlock) => bs.succs[w := bs.succs[b]][b := [w]]
    case (NewBlock(w), NewBlock(a)) => bs.succs[a := bs.succs[b]][w := [a]][b := [w]]
  }

  ghost predicate ArePredsAfter(bs: Blocks, b: Node, withnode: NewBlock, after: NewBlock, preds: map<Node, seq<Node>>)
    requires b in bs.succs
  {
    match (withnode, after)
    case (NoBlock, NoBlock) => preds == bs.preds
    case (NoBlock, NewBlock(a)) => PredsOfTwo(bs, b, a, preds)
    case (NewBlock(w), NoBlock) => PredsOfTwo(bs, b, w, preds)
    case (NewBlock(w), NewBlock(a)) => PredsOfThree(bs, b, w, a, preds)
  }

  ghost predicate PredsOfTwo(bs: Blocks, b: Node, c: Node, preds: map<Node, seq<Node>>)
    requires b in bs.succs
  {
    && preds.Keys == bs.preds.Keys + {c} && preds[c] == [b]
    && forall x {:trigger preds[x]} :: x in bs.preds && x != c ==> preds[x] == if x in bs.succs[b]
         then Replaced(bs.preds[x], b, c) else bs.preds[x]
  }

  ghost predicate PredsOfThree(bs: Blocks, b: Node, w: Node, a: Node, preds: map<Node, seq<Node>>)
    requires b in bs.succs
  {
    && preds.Keys == bs.preds.Keys + {w, a} && preds[w] == [b] && preds[a] == [w]
    && forall x {:trigger preds[x]} :: x in bs.preds && x != w && x != a ==>
         preds[x] == if x in bs.succs[b] then Replaced(bs.preds[x], b, a) else bs.preds[x]
  }

  lemma ConnectedTwo(bs: Blocks, b: Node, c: Node, succs: map<Node, seq<Node>>, preds: map<Node, seq<Node>>)
    requires bs.Has(b) && c !in bs.preds && c !in bs.succs && c !in bs.succs[b]
    requires succs == bs.succs[c := []][c := bs.succs[b]][b := []]
    requires Redirects(bs.preds[c := []], preds, bs.succs[b], b, c)
    ensures succs[b := [c]] == bs.succs[c := bs.succs[b]][b := [c]] && PredsOfTwo(bs, b, c, preds[c := [b]])
  {
  }

  lemma ConnectedThree(bs: Blocks, b: Node, w: Node, a: Node, succs: map<Node, seq<Node>>, preds: map<Node, seq<Node>>)
    requires bs.Has(b) && a !in bs.preds && a !in bs.succs && w !in bs.preds && w !in bs.succs && w != a
    requires w !in bs.succs[b] && a !in bs.succs[b]
    requires succs == bs.succs[a := []][w := []][a := bs.succs[b]][b := []]
    requires Redirects(bs.preds[a := []][w := []], preds, bs.succs[b], b, a)
    ensures succs[b := [w]][w := [a]] == bs.succs[a := bs.succs[b]][w := [a]][b := [w]]
    ensures PredsOfThree(bs, b, w, a, preds[w := [b]][a := [w]])
  {
  }

  lemma ReplacedTwice(s: seq<Node>, b: Node, c: Node, d: Node)
    requires c !in s
    ensures Replaced(Replaced(s, b, c), c, d) == Replaced(s, b, d)
  {
  }

  lemma {:induction false} ReconnectedIsSplit(bs: Blocks, b: Node, num: nat, withnode: NewBlock, after: NewBlock,
      bs': Blocks)
    requires bs.Valid() && bs.Has(b) && num < |bs.nodes[b]| && AreNew(bs, b, num, withnode, after)
    requires bs'.nodes == NodesAfter(bs, b, num, withnode, after)
    requires bs'.succs == SuccsAfter(bs, b, withnode, after) && ArePredsAfter(bs, b, withnode, after, bs'.preds)
    ensures bs' == SplitAroundSpec(bs, b, num, withnode, after)
  {
    match (withnode, after)
    case (NoBlock, NoBlock) =>
    case (NoBlock, NewBlock(a)) => IsOneSplit(bs, b, 1, a, bs');
    case (NewBlock(w), NoBlock) =>
      assert bs.nodes[b][num..] == [bs.nodes[b][num]];
      IsOneSplit(bs, b, num, w, bs');
    case (NewBlock(w), NewBlock(a)) => IsTwoSplits(bs, b, num, w, a, bs');
  }

  lemma {:induction false} IsOneSplit(bs: Blocks, b: Node, k: nat, c: Node, bs': Blocks)
    requires bs.Valid() && bs.Has(b) && k <= |bs.nodes[b]| && c !in bs.nodes
    requires bs'.nodes == bs.nodes[c := bs.nodes[b][k..]][b := bs.nodes[b][..k]]
    requires bs'.succs == bs.succs[c := bs.succs[b]][b := [c]] && PredsOfTwo(bs, b, c, bs'.preds)
    ensures bs' == Split(bs, b, k, c)
  {
    PredsOfSplit(bs, b, k, c, bs'.preds);
    assert bs'.nodes == Split(bs, b, k, c).nodes;
    assert bs'.succs == Split(bs, b, k, c).succs;
  }

  lemma PredsOfSplit(bs: Blocks, b: Node, k: nat, c: Node, preds: map<Node, seq<Node>>)
    requires bs.Valid() && bs.Has(b) && k <= |bs.nodes[b]| && c !in bs.nodes && PredsOfTwo(bs, b, c, preds)
    ensures preds == Split(bs, b, k, c).preds
  {
  }

  lemma {:induction false} IsTwoSplits(bs: Blocks, b: Node, num: nat, w: Node, a: Node, bs': Blocks)
    requires bs.Valid() && bs.Has(b) && 0 < num < |bs.nodes[b]| - 1 && w !in bs.nodes && a !in bs.nodes && w != a
    requires bs'.nodes == NodesAfter(bs, b, num, NewBlock(w), NewBlock(a))
    requires bs'.succs == SuccsAfter(bs, b, NewBlock(w), NewBlock(a)) && PredsOfThree(bs, b, w, a, bs'.preds)
    ensures bs' == Split(Split(bs, b, num, w), w, 1, a)
  {
    PredsOfSplitTwice(bs, b, num, w, a, bs'.preds);
    SplitTwice(bs, b, num, w, a);
  }

  lemma {:induction false} PredsOfSplitTwice(bs: Blocks, b: Node, num: nat, w: Node, a: Node,
      preds: map<Node, seq<Node>>)
    requires bs.Valid() && bs.Has(b) && 0 < num < |bs.nodes[b]| - 1 && w !in bs.nodes && a !in bs.nodes && w != a
    requires PredsOfThree(bs, b, w, a, preds)
    ensures preds == Split(Split(bs, b, num, w), w, 1, a).preds
  {
    forall x | x in bs.preds
      ensures Split(Split(bs, b, num, w), w, 1, a).preds[x] == if x in bs.succs[b] then Replaced(bs.preds[x], b, a)
        else bs.preds[x]
    {
      PredsOfSplitTwiceAt(bs, b, num, w, a, x);
    }
    PredsOfNew(bs, b, num, w, a);
    SamePreds(bs, b, w, a, preds, Split(Split(bs, b, num, w), w, 1, a).preds);
  }

  lemma SamePreds(bs: Blocks, b: Node, w: Node, a: Node, preds: map<Node, seq<Node>>, preds': map<Node, seq<Node>>)
    requires bs.Valid() && bs.Has(b) && w !in bs.nodes && a !in bs.nodes
    requires PredsOfThree(bs, b, w, a, preds) && PredsOfThree(bs, b, w, a, preds')
    ensures preds == preds'
  {
  }

  lemma PredsOfNew(bs: Blocks, b: Node, num: nat, w: Node, a: Node)
    requires bs.Valid() && bs.Has(b) && 0 < num < |bs.nodes[b]| - 1 && w !in bs.nodes && a !in bs.nodes && w != a
    ensures var preds := Split(Split(bs, b, num, w), w, 1, a).preds;
            preds.Keys == bs.preds.Keys + {w, a} && preds[w] == [b] && preds[a] == [w]
  {
    assert w in bs.succs[b] ==> bs.Edge(b, w);
  }

  lemma {:induction false} PredsOfSplitTwiceAt(bs: Blocks, b: Node, num: nat, w: Node, a: Node, x: Node)
    requires bs.Valid() && bs.Has(b) && 0 < num < |bs.nodes[b]| - 1 && w !in bs.nodes && a !in bs.nodes && w != a
    requires x in bs.preds
    ensures Split(Split(bs, b, num, w), w, 1, a).preds[x] == if x in bs.succs[b] then Replaced(bs.preds[x], b, a)
      else bs.preds[x]
  {
    assert w in bs.preds[x] ==> bs.Edge(w, x);
    ReplacedTwice(bs.preds[x], b, w, a);
  }

  lemma {:induction false} SplitTwice(bs: Blocks, b: Node, num: nat, w: Node, a: Node)
    requires bs.Valid() && bs.Has(b) && 0 < num < |bs.nodes[b]| - 1 && w !in bs.nodes && a !in bs.nodes && w != a
    ensures Split(Split(bs, b, num, w), w, 1, a).nodes == NodesAfter(bs, b, num, NewBlock(w), NewBlock(a))
    ensures Split(Split(bs, b, num, w), w, 1, a).succs == SuccsAfter(bs, b, NewBlock(w), NewBlock(a))
  {
    var half := Split(bs, b, num, w);
    var list := bs.nodes[b];
    assert half.nodes[w][..1] == [list[num]] && half.nodes[w][1..] == list[num + 1..];
  }

  lemma {:induction false} SplitAroundIsValid(bs: Blocks, b: Node, num: nat, withnode: NewBlock, after: NewBlock)
    requires bs.Valid() && bs.Has(b) && num < |bs.nodes[b]| && AreNew(bs, b, num, withnode, after)
    ensures SplitAroundSpec(bs, b, num, withnode, after).Valid()
  {
    match (withnode, after)
    case (NoBlock, NoBlock) =>
    case (NoBlock, NewBlock(a)) => SplitIsValid(bs, b, 1, a);
    case (NewBlock(w), NoBlock) => SplitIsValid(bs, b, num, w);
    case (NewBlock(w), NewBlock(a)) =>
      SplitIsValid(bs, b, num, w);
      SplitIsValid(Split(bs, b, num, w), w, 1, a);
  }

  /** One or two splits. */
  function SplitAroundSpec(bs: Blocks, b: Node, num: nat, withnode: NewBlock, after: NewBlock): Blocks
    requires b in bs.nodes && b in bs.succs && num < |bs.nodes[b]|
  {
    match (withnode, after)
    case (NoBlock, NoBlock) => bs
    case (NoBlock, NewBlock(a)) => Split(bs, b, 1, a)
    case (NewBlock(w), NoBlock) => Split(bs, b, num, w)
    case (NewBlock(w), NewBlock(a)) => Split(Split(bs, b, num, w), w, 1, a)
  }
}
