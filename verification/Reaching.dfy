/** Reaching definitions in one procedure, and what the search for them relies on. */
module ReachingDefinitions {
  import opened Graphs
  import opened IntervalMaps
  import opened BlockDefinitions
  import opened LocalNumbering

  // ---------------------------------------------------------------------------
  // How far a block is from the entry

  ghost predicate Within(g: Graph, entry: Node, k: nat, block: Node) {
    block == entry || (k > 0 && exists p :: g.Edge(p, block) && Within(g, entry, k - 1, p))
  }

  ghost predicate Reachable(g: Graph, entry: Node, block: Node) {
    exists k: nat :: Within(g, entry, k, block)
  }

  ghost predicate LeastWithin(g: Graph, entry: Node, k: nat, block: Node) {
    Within(g, entry, k, block) && forall j: nat :: j < k ==> !Within(g, entry, j, block)
  }

  lemma {:induction false} LeastExists(g: Graph, entry: Node, k: nat, block: Node)
    requires Within(g, entry, k, block)
    ensures exists m: nat :: LeastWithin(g, entry, m, block)
  {
    if !LeastWithin(g, entry, k, block) {
      var j: nat :| j < k && Within(g, entry, j, block);
      LeastExists(g, entry, j, block);
    }
  }

  ghost function Depth(g: Graph, entry: Node, block: Node): (d: nat)
    requires Reachable(g, entry, block)
    ensures LeastWithin(g, entry, d, block)
  {
    var k: nat :| Within(g, entry, k, block);
    LeastExists(g, entry, k, block);
    var m: nat :| LeastWithin(g, entry, m, block);
    m
  }

  /** An only predecessor is closer to the entry. */
  lemma {:induction false} OnlyPredecessorIsCloser(g: Graph, entry: Node, block: Node, p: Node)
    requires g.Valid() && g.Has(block) && g.Preds(block) == [p] && block != entry
    requires Reachable(g, entry, block) && Reachable(g, entry, p)
    ensures Depth(g, entry, p) < Depth(g, entry, block)
  {
    var d := Depth(g, entry, block);
    var q :| g.Edge(q, block) && Within(g, entry, d - 1, q);
    assert q in g.Preds(block);
    assert q == p;
  }

  // ---------------------------------------------------------------------------
  // Procedures

  /** The blocks of a procedure with their nodes. Nodes that are created later have numbers from firstId on. */
  datatype Procedure = Procedure(g: Graph, entry: Node, code: map<Node, seq<Access>>, inputs: set<RWNode>,
      firstId: nat) {

    ghost predicate Valid() {
      && g.Valid() && g.Has(entry) && g.Preds(entry) == []
      && (forall block {:trigger Reachable(g, entry, block)} :: g.Has(block) ==> Reachable(g, entry, block))
      && (forall block :: block in code <==> g.Has(block))
      && (forall block {:trigger SaneCode(code[block], firstId)} :: g.Has(block) ==> SaneCode(code[block], firstId))
    }
  }

  /** Known memory is read and written. */
  ghost predicate SaneCode(list: seq<Access>, firstId: nat) {
    && Tame(list)
    && forall k {:trigger list[k]} :: 0 <= k < |list| ==>
         && SaneAccess(list[k]) && list[k].node.RWNode? && list[k].node.id < firstId
         && SaneSites(list[k].uses) && !SomeUnknown(list[k].uses)
  }

  /** The node at k of the first block of the path writes the byte, and nothing overwrites it for
      certain on the way to the end of the path. */
  ghost predicate Flows(p: Procedure, path: seq<Node>, k: nat, t: RWNode, b: int) {
    && path != [] && (forall i {:trigger path[i]} :: 0 <= i < |path| ==> path[i] in p.code)
    && (forall i {:trigger path[i]} ::
         0 < i < |path| ==> p.g.Edge(path[i - 1], path[i]) && !Killed(p.code[path[i]], t, b))
    && k < |p.code[path[0]]| && Writes(p.code[path[0]][k], t, b) && NotOverwritten(p.code[path[0]], k, t, b)
  }

  /** A definition of the byte reaches the end of the block. */
  ghost predicate ReachesEnd(p: Procedure, block: Node, n: RWNode, t: RWNode, b: int) {
    exists path, k: nat :: Flows(p, path, k, t, b) && path[|path| - 1] == block && p.code[path[0]][k].node == n
  }

  /** A definition of the byte reaches the node at u of the block: it is made before u in the block and
      not overwritten there, or it reaches the end of a predecessor and nothing before u overwrites it. */
  ghost predicate ReachesUse(p: Procedure, block: Node, u: nat, n: RWNode, t: RWNode, b: int)
    requires block in p.code && u <= |p.code[block]|
  {
    || (exists k: nat ::
          k < u && p.code[block][k].node == n && Writes(p.code[block][k], t, b) &&
          NotOverwritten(p.code[block][..u], k, t, b))
    || (!Killed(p.code[block][..u], t, b) && exists q :: p.g.Edge(q, block) && ReachesEnd(p, q, n, t, b))
  }

  // ---------------------------------------------------------------------------
  // Executions from a write to a read, told by the fields of sites

  ghost predicate HasByteOf(sites: seq<DefSite>, t: RWNode, b: int) {
    exists k :: 0 <= k < |sites| && HasByte(sites[k], t, b)
  }

  /** None of the nodes from k up to, but not with, u is certain to overwrite the byte. */
  ghost predicate Spares(list: seq<Access>, k: nat, u: nat, t: RWNode, b: int)
    requires u <= |list|
  {
    forall j :: k <= j < u ==> !HasByteOf(list[j].overwrites, t, b)
  }

  /** From the node at k of the first block, which writes the byte, control can come along the path to the node
      at u of the last block without the byte being overwritten. */
  ghost predicate Carries(p: Procedure, path: seq<Node>, k: nat, u: nat, t: RWNode, b: int) {
    && path != [] && (forall i {:trigger path[i]} :: 0 <= i < |path| ==> path[i] in p.code)
    && (forall i {:trigger path[i]} :: 0 < i < |path| ==> p.g.Edge(path[i - 1], path[i]))
    && var first, last := p.code[path[0]], p.code[path[|path| - 1]];
       && k < |first| && u <= |last| && (HasByteOf(first[k].defines, t, b) || HasByteOf(first[k].overwrites, t, b))
       && if |path| == 1 then k < u && Spares(first, k + 1, u, t, b)
          else
            && Spares(first, k + 1, |first|, t, b) && Spares(last, 0, u, t, b)
            && forall i {:trigger path[i]} :: 0 < i < |path| - 1 ==> Spares(p.code[path[i]], 0, |p.code[path[i]]|, t, b)
  }

  lemma CoveredByFields(sites: seq<DefSite>, t: RWNode, b: int)
    requires !t.UnknownMemory?
    ensures CoveredBy(sites, t, b) <==> HasByteOf(sites, t, b)
  {
    if k :| 0 <= k < |sites| && HasByte(sites[k], t, b) {
      SiteCovers(sites[k], t, b);
    }
    if k :| 0 <= k < |sites| && !sites[k].target.UnknownMemory? && sites[k].Covers(t, b) {
      SiteCovers(sites[k], t, b);
    }
  }

  lemma SparesByFields(list: seq<Access>, k: nat, u: nat, t: RWNode, b: int)
    requires u <= |list| && !t.UnknownMemory?
    ensures Spares(list, k, u, t, b) <==> forall j :: k <= j < u ==> !Strong(list[j], t, b)
  {
    forall j | k <= j < u
      ensures Strong(list[j], t, b) <==> HasByteOf(list[j].overwrites, t, b)
    {
      CoveredByFields(list[j].overwrites, t, b);
    }
  }

  /** Such a write reaches the node at u in the sense used for answers. */
  lemma {:induction false} CarriedReaches(p: Procedure, path: seq<Node>, k: nat, u: nat, t: RWNode, b: int)
    requires !t.UnknownMemory? && Carries(p, path, k, u, t, b)
    ensures ReachesUse(p, path[|path| - 1], u, p.code[path[0]][k].node, t, b)
  {
    var block, first := path[|path| - 1], p.code[path[0]];
    CoveredByFields(first[k].defines, t, b);
    CoveredByFields(first[k].overwrites, t, b);
    if |path| == 1 {
      SparesByFields(first, k + 1, u, t, b);
      assert NotOverwritten(first[..u], k, t, b);
    } else {
      var front := path[..|path| - 1];
      SparesByFields(first, k + 1, |first|, t, b);
      SparesByFields(p.code[block], 0, u, t, b);
      forall i {:trigger front[i]} | 0 < i < |front|
        ensures !Killed(p.code[front[i]], t, b)
      {
        assert front[i] == path[i];
        SparesByFields(p.code[path[i]], 0, |p.code[path[i]]|, t, b);
      }
      assert Flows(p, front, k, t, b);
      assert ReachesEnd(p, front[|front| - 1], first[k].node, t, b);
      assert p.g.Edge(path[|path| - 2], path[|path| - 1]);
    }
  }

  /** And whatever reaches a node in that sense is such a write. */
  lemma {:induction false} ReachesIsCarried(p: Procedure, block: Node, u: nat, n: RWNode, t: RWNode, b: int)
      returns (path: seq<Node>, k: nat)
    requires !t.UnknownMemory? && block in p.code && u <= |p.code[block]| && ReachesUse(p, block, u, n, t, b)
    ensures Carries(p, path, k, u, t, b) && path[|path| - 1] == block && p.code[path[0]][k].node == n
  {
    var list := p.code[block];
    if j: nat :|
      j < u && list[j].node == n && Writes(list[j], t, b) && NotOverwritten(list[..u], j, t, b)
    {
      path, k := [block], j;
      assert forall i :: j < i < u ==> !Strong(list[..u][i], t, b) && list[..u][i] == list[i];
      SparesByFields(list, j + 1, u, t, b);
      CoveredByFields(list[j].defines, t, b);
      CoveredByFields(list[j].overwrites, t, b);
    } else {
      var q :| p.g.Edge(q, block) && ReachesEnd(p, q, n, t, b);
      var front, j: nat :| Flows(p, front, j, t, b) && front[|front| - 1] == q && p.code[front[0]][j].node == n;
      path, k := front + [block], j;
      FlowIsCarried(p, front, block, j, u, t, b);
    }
  }

  lemma {:induction false} FlowIsCarried(p: Procedure, front: seq<Node>, block: Node, k: nat, u: nat, t: RWNode, b: int)
    requires !t.UnknownMemory? && block in p.code && u <= |p.code[block]| && Flows(p, front, k, t, b)
    requires p.g.Edge(front[|front| - 1], block) && !Killed(p.code[block][..u], t, b)
    ensures Carries(p, front + [block], k, u, t, b)
  {
    var path, first, last := front + [block], p.code[front[0]], p.code[block];
    CoveredByFields(first[k].defines, t, b);
    CoveredByFields(first[k].overwrites, t, b);
    SparesByFields(first, k + 1, |first|, t, b);
    assert forall j :: 0 <= j < u ==> !Strong(last[..u][j], t, b) && last[..u][j] == last[j];
    SparesByFields(last, 0, u, t, b);
    forall i {:trigger path[i]} | 0 < i < |path| - 1
      ensures Spares(p.code[path[i]], 0, |p.code[path[i]]|, t, b)
    {
      assert path[i] == front[i];
      SparesByFields(p.code[path[i]], 0, |p.code[path[i]]|, t, b);
    }
    forall i {:trigger path[i]} | 0 < i < |path|
      ensures p.g.Edge(path[i - 1], path[i])
    {
      assert path[i - 1] == front[i - 1];
      assert i < |front| ==> path[i] == front[i];
    }
  }

  // ---------------------------------------------------------------------------
  // Answers to a search

  /** The phi nodes created so far: where they stand and what they merge. */
  datatype Phi = Phi(block: Node, site: DefSite)

  type Phis = map<RWNode, Phi>

  ghost predicate IsPhiFor(phis: Phis, phi: RWNode, block: Node, t: RWNode, b: int) {
    phi in phis && phis[phi].block == block && phis[phi].site.Covers(t, b)
  }

  /** No definition of the byte comes to the start of the block. */
  ghost predicate NothingReaches(p: Procedure, block: Node, t: RWNode, b: int) {
    forall q, n {:trigger p.g.Edge(q, block), ReachesEnd(p, q, n, t, b)} ::
        p.g.Edge(q, block) ==> !ReachesEnd(p, q, n, t, b)
  }

  /** A set of nodes answers the question for the definitions of a byte at the start of a block: it has
      all definitions of the block's only predecessor, and an answer there unless the byte is overwritten,
      or it has a phi of the block where paths join, unless nothing comes to the block. Nothing is defined
      where the procedure starts. */
  ghost predicate AnswersStart(p: Procedure, phis: Phis, block: Node, t: RWNode, b: int, nodes: set<RWNode>)
    requires p.Valid() && p.g.Has(block)
    decreases Depth(p.g, p.entry, block)
  {
    var preds := p.g.Preds(block);
    if |preds| == 0 then true
    else if |preds| == 1 then
      OnlyPredecessorIsCloser(p.g, p.entry, block, preds[0]);
      && LastWriters(p.code[preds[0]], t, b) <= nodes
      && (Killed(p.code[preds[0]], t, b) || AnswersStart(p, phis, preds[0], t, b, nodes))
    else NothingReaches(p, block, t, b) || exists phi :: phi in nodes && IsPhiFor(phis, phi, block, t, b)
  }

  /** The same at the end of a block. */
  ghost predicate AnswersEnd(p: Procedure, phis: Phis, block: Node, t: RWNode, b: int, nodes: set<RWNode>)
    requires p.Valid() && p.g.Has(block)
  {
    LastWriters(p.code[block], t, b) <= nodes &&
        (Killed(p.code[block], t, b) || AnswersStart(p, phis, block, t, b, nodes))
  }

  lemma {:induction false} AnswersStartGrows(p: Procedure, phis: Phis, phis': Phis, block: Node, t: RWNode, b: int,
                                             nodes: set<RWNode>, nodes': set<RWNode>)
    requires p.Valid() && p.g.Has(block) && PhisGrow(phis, phis') && nodes <= nodes'
    requires AnswersStart(p, phis, block, t, b, nodes)
    ensures AnswersStart(p, phis', block, t, b, nodes')
    decreases Depth(p.g, p.entry, block)
  {
    var preds := p.g.Preds(block);
    if |preds| == 1 {
      OnlyPredecessorIsCloser(p.g, p.entry, block, preds[0]);
      if !Killed(p.code[preds[0]], t, b) {
        AnswersStartGrows(p, phis, phis', preds[0], t, b, nodes, nodes');
      }
    } else if |preds| > 1 && !NothingReaches(p, block, t, b) {
      var phi :| phi in nodes && IsPhiFor(phis, phi, block, t, b);
      assert phi in nodes' && IsPhiFor(phis', phi, block, t, b);
    }
  }

  lemma AnswersEndGrows(p: Procedure, phis: Phis, phis': Phis, block: Node, t: RWNode, b: int, nodes: set<RWNode>,
      nodes': set<RWNode>)
    requires p.Valid() && p.g.Has(block) && PhisGrow(phis, phis') && nodes <= nodes'
    requires AnswersEnd(p, phis, block, t, b, nodes)
    ensures AnswersEnd(p, phis', block, t, b, nodes')
  {
    if !Killed(p.code[block], t, b) {
      AnswersStartGrows(p, phis, phis', block, t, b, nodes, nodes');
    }
  }

  ghost predicate PhisGrow(phis: Phis, phis': Phis) {
    forall phi {:trigger phi in phis} {:trigger phi in phis'} :: phi in phis ==> phi in phis' && phis'[phi] == phis[phi]
  }

  // ---------------------------------------------------------------------------
  // Answers are sound

  type DefUses = map<RWNode, set<RWNode>>

  /** The nodes answer the question that the phi stands for, at the end of each predecessor. */
  ghost predicate PhiAnswered(p: Procedure, phis: Phis, phi: Phi, nodes: set<RWNode>)
    requires p.Valid() && p.g.Has(phi.block)
  {
    forall q, b {:trigger AnswersEnd(p, phis, q, phi.site.target, b, nodes)} ::
      q in p.g.Preds(phi.block) && phi.site.Bytes().Has(b) ==> AnswersEnd(p, phis, q, phi.site.target, b, nodes)
  }

  ghost predicate AllAnswered(p: Procedure, phis: Phis, defuse: DefUses)
    requires p.Valid()
  {
    forall phi {:trigger phi in phis} :: phi in phis ==>
      && p.g.Has(phis[phi].block)
      && (|p.g.Preds(phis[phi].block)| > 1 ==> phi in defuse && PhiAnswered(p, phis, phis[phi], defuse[phi]))
  }

  /** With every phi the set has what the phi merges. */
  ghost predicate Expanded(phis: Phis, defuse: DefUses, nodes: set<RWNode>) {
    forall phi :: phi in nodes && phi in phis && phi in defuse ==> defuse[phi] <= nodes
  }

  /** The node is in the set or is merged, directly or not, by a phi of the set. */
  ghost predicate Leads(phis: Phis, defuse: DefUses, from: set<RWNode>, n: RWNode) {
    forall all :: from <= all && Expanded(phis, defuse, all) ==> n in all
  }

  lemma {:induction false} FlowsToPredecessor(p: Procedure, path: seq<Node>, k: nat, t: RWNode, b: int)
    requires Flows(p, path, k, t, b) && |path| > 1
    ensures Flows(p, path[..|path| - 1], k, t, b)
    ensures p.g.Edge(path[|path| - 2], path[|path| - 1]) && !Killed(p.code[path[|path| - 1]], t, b)
  {
    var front := path[..|path| - 1];
    assert forall i :: 0 <= i < |front| ==> front[i] == path[i];
    assert path[|path| - 1] in p.code;
  }

  /** Whatever reaches the end of a block is among the nodes that an answer leads to. */
  lemma {:induction false} AnswersAreSound(p: Procedure, phis: Phis, defuse: DefUses, path: seq<Node>, k: nat,
      t: RWNode, b: int, nodes: set<RWNode>, all: set<RWNode>)
    requires p.Valid() && AllAnswered(p, phis, defuse)
    requires Flows(p, path, k, t, b)
    requires path[|path| - 1] in p.code && AnswersEnd(p, phis, path[|path| - 1], t, b, nodes)
    requires nodes <= all && Expanded(phis, defuse, all)
    ensures p.code[path[0]][k].node in all
    decreases |path|, 0
  {
    var block := path[|path| - 1];
    if |path| == 1 {
      assert SaneCode(p.code[block], p.firstId);
      TameWritersAre(p.code[block], t, b, p.code[block][k].node);
    } else {
      FlowsToPredecessor(p, path, k, t, b);
      AnswersStartIsSound(p, phis, defuse, block, path[|path| - 2], path[..|path| - 1], k, t, b, nodes, all);
    }
  }

  lemma {:induction false} AnswersStartIsSound(p: Procedure, phis: Phis, defuse: DefUses, block: Node, q: Node,
      path: seq<Node>, k: nat, t: RWNode, b: int, nodes: set<RWNode>, all: set<RWNode>)
    requires p.Valid() && AllAnswered(p, phis, defuse) && p.g.Edge(q, block)
    requires Flows(p, path, k, t, b) && path[|path| - 1] == q && q in p.code
    requires AnswersStart(p, phis, block, t, b, nodes) && nodes <= all && Expanded(phis, defuse, all)
    ensures p.code[path[0]][k].node in all
    decreases |path|, 1
  {
    assert q in p.g.Preds(block);
    if |p.g.Preds(block)| == 1 {
      assert p.g.Preds(block)[0] == q;
      AnswersAreSound(p, phis, defuse, path, k, t, b, nodes, all);
    } else {
      assert ReachesEnd(p, q, p.code[path[0]][k].node, t, b);
      var phi :| phi in nodes && IsPhiFor(phis, phi, block, t, b);
      assert AnswersEnd(p, phis, q, t, b, defuse[phi]);
      AnswersAreSound(p, phis, defuse, path, k, t, b, defuse[phi], all);
    }
  }

  /** The same at a use inside a block. */
  ghost predicate AnswersUse(p: Procedure, phis: Phis, block: Node, u: nat, t: RWNode, b: int, nodes: set<RWNode>)
    requires p.Valid() && p.g.Has(block) && u <= |p.code[block]|
  {
    var before := p.code[block][..u];
    LastWriters(before, t, b) <= nodes && (Killed(before, t, b) || AnswersStart(p, phis, block, t, b, nodes))
  }

  lemma {:induction false} UsesAreSound(p: Procedure, phis: Phis, defuse: DefUses, block: Node, u: nat, n: RWNode,
      t: RWNode, b: int, nodes: set<RWNode>)
    requires p.Valid() && AllAnswered(p, phis, defuse) && p.g.Has(block) && u <= |p.code[block]|
    requires ReachesUse(p, block, u, n, t, b) && AnswersUse(p, phis, block, u, t, b, nodes)
    ensures Leads(phis, defuse, nodes, n)
  {
    var before := p.code[block][..u];
    forall all | nodes <= all && Expanded(phis, defuse, all)
      ensures n in all
    {
      if k: nat :|
        k < u && p.code[block][k].node == n && Writes(p.code[block][k], t, b) && NotOverwritten(before, k, t, b)
      {
        assert SaneCode(p.code[block], p.firstId);
        TameWritersAre(before, t, b, n);
        assert before[k] == p.code[block][k];
      } else {
        var q :| p.g.Edge(q, block) && ReachesEnd(p, q, n, t, b);
        var path, k: nat :| Flows(p, path, k, t, b) && path[|path| - 1] == q && p.code[path[0]][k].node == n;
        AnswersStartIsSound(p, phis, defuse, block, q, path, k, t, b, nodes, all);
      }
    }
  }
}
