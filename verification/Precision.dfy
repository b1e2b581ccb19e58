/** In aligned procedures nothing is found that does not reach. */
module ExactAnswers {
  import opened Graphs
  import opened Guards
  import opened Offsets
  import opened IntervalMaps
  import opened BlockDefinitions
  import opened LocalNumbering
  import opened ReachingDefinitions
  import opened AlignedSites

  ghost predicate ClearList(list: seq<Access>, t: RWNode, i: Interval) {
    forall b {:trigger Killed(list, t, b)} :: i.Has(b) ==> !Killed(list, t, b)
  }

  /** A way through blocks none of which overwrites a byte of the site. */
  ghost predicate Passes(p: Procedure, path: seq<Node>, t: RWNode, i: Interval) {
    && path != [] && (forall k {:trigger path[k]} ::
         0 <= k < |path| ==> path[k] in p.code && ClearList(p.code[path[k]], t, i))
    && (forall k {:trigger path[k]} :: 0 < k < |path| ==> p.g.Edge(path[k - 1], path[k]))
  }

  ghost predicate IsSitePhi(phis: Phis, x: RWNode, block: Node, t: RWNode, i: Interval) {
    x in phis && phis[x].block == block && phis[x].site.target == t && phis[x].site.Bytes() == i
  }

  ghost predicate PassesFrom(p: Procedure, phis: Phis, path: seq<Node>, block: Node, t: RWNode, i: Interval,
      x: RWNode) {
    Passes(p, path, t, i) && path[|path| - 1] == block && IsSitePhi(phis, x, path[0], t, i)
  }

  ghost predicate SomeByteReaches(p: Procedure, block: Node, t: RWNode, i: Interval, x: RWNode) {
    exists b :: i.Has(b) && ReachesEnd(p, block, x, t, b)
  }

  /** The node defines a byte of the site at the end of the block, or it is a phi for the site that
      control can come from without the site being overwritten. */
  ghost predicate Comes(p: Procedure, phis: Phis, block: Node, t: RWNode, i: Interval, x: RWNode) {
    SomeByteReaches(p, block, t, i, x) || exists path :: PassesFrom(p, phis, path, block, t, i, x)
  }

  /** The same at the start of the block. */
  ghost predicate ComesStart(p: Procedure, phis: Phis, block: Node, t: RWNode, i: Interval, x: RWNode) {
    IsSitePhi(phis, x, block, t, i) || ComesBefore(p, phis, block, t, i, x)
  }

  ghost predicate ComesBefore(p: Procedure, phis: Phis, block: Node, t: RWNode, i: Interval, x: RWNode) {
    exists q :: p.g.Edge(q, block) && Comes(p, phis, q, t, i, x)
  }

  // ---------------------------------------------------------------------------
  // Going on

  lemma {:induction false} ReachesOn(p: Procedure, q: Node, block: Node, t: RWNode, b: int, x: RWNode)
    requires p.g.Edge(q, block) && block in p.code && !Killed(p.code[block], t, b) && ReachesEnd(p, q, x, t, b)
    ensures ReachesEnd(p, block, x, t, b)
  {
    var path, k: nat :| Flows(p, path, k, t, b) && path[|path| - 1] == q && p.code[path[0]][k].node == x;
    var longer := path + [block];
    assert forall j :: 0 <= j < |path| ==> longer[j] == path[j];
    assert Flows(p, longer, k, t, b);
  }

  lemma {:induction false} PassesOn(p: Procedure, path: seq<Node>, block: Node, t: RWNode, i: Interval)
    requires Passes(p, path, t, i) && p.g.Edge(path[|path| - 1], block) && block in p.code
    requires ClearList(p.code[block], t, i)
    ensures Passes(p, path + [block], t, i)
  {
    var longer := path + [block];
    assert forall j :: 0 <= j < |path| ==> longer[j] == path[j];
  }

  /** Through a block that does not overwrite the site. */
  lemma {:induction false} ComesOn(p: Procedure, phis: Phis, block: Node, t: RWNode, i: Interval, x: RWNode)
    requires block in p.code && ClearList(p.code[block], t, i) && ComesStart(p, phis, block, t, i, x)
    ensures Comes(p, phis, block, t, i, x)
  {
    if IsSitePhi(phis, x, block, t, i) {
      assert PassesFrom(p, phis, [block], block, t, i, x);
    } else {
      var q :| p.g.Edge(q, block) && Comes(p, phis, q, t, i, x);
      if path :| PassesFrom(p, phis, path, q, t, i, x) {
        PassesOn(p, path, block, t, i);
        assert PassesFrom(p, phis, path + [block], block, t, i, x);
      } else {
        var b :| i.Has(b) && ReachesEnd(p, q, x, t, b);
        ReachesOn(p, q, block, t, b, x);
      }
    }
  }

  /** Along a way: what comes to the start of its first block comes to its end. */
  lemma {:induction false} ComesAlong(p: Procedure, phis: Phis, path: seq<Node>, t: RWNode, i: Interval, x: RWNode)
    requires Passes(p, path, t, i) && ComesBefore(p, phis, path[0], t, i, x)
    ensures Comes(p, phis, path[|path| - 1], t, i, x)
    decreases |path|
  {
    var last := path[|path| - 1];
    if |path| == 1 {
      ComesOn(p, phis, last, t, i, x);
    } else {
      var front := path[..|path| - 1];
      assert forall k :: 0 <= k < |front| ==> front[k] == path[k];
      ComesAlong(p, phis, front, t, i, x);
      assert p.g.Edge(front[|front| - 1], last);
      assert ComesStart(p, phis, last, t, i, x);
      ComesOn(p, phis, last, t, i, x);
    }
  }

  /** Phi nodes write nothing in the procedure. */
  lemma {:induction false} NoPhiReaches(p: Procedure, block: Node, t: RWNode, i: Interval, x: RWNode)
    requires p.Valid() && (x.UnknownMemory? || x.id >= p.firstId)
    ensures !SomeByteReaches(p, block, t, i, x)
  {
    forall path, k: nat, b | Flows(p, path, k, t, b)
      ensures p.code[path[0]][k].node != x
    {
      assert SaneCode(p.code[path[0]], p.firstId);
    }
  }

  /** What a phi merges comes to wherever the phi comes to. */
  lemma {:induction false} ComesThroughPhi(p: Procedure, phis: Phis, block: Node, t: RWNode, i: Interval, phi: RWNode,
      x: RWNode)
    requires phi in phis && ComesBefore(p, phis, phis[phi].block, t, i, x) && ComesStart(p, phis, block, t, i, phi)
    requires p.Valid() && phi.RWNode? && phi.id >= p.firstId
    ensures ComesStart(p, phis, block, t, i, x)
  {
    if !IsSitePhi(phis, phi, block, t, i) {
      var q :| p.g.Edge(q, block) && Comes(p, phis, q, t, i, phi);
      NoPhiReaches(p, q, t, i, phi);
      var path :| PassesFrom(p, phis, path, q, t, i, phi);
      ComesAlong(p, phis, path, t, i, x);
    }
  }

  lemma {:induction false} ComesGrows(p: Procedure, phis: Phis, phis': Phis, block: Node, t: RWNode, i: Interval,
      x: RWNode)
    requires PhisGrow(phis, phis') && Comes(p, phis, block, t, i, x)
    ensures Comes(p, phis', block, t, i, x)
  {
    if path :| PassesFrom(p, phis, path, block, t, i, x) {
      assert PassesFrom(p, phis', path, block, t, i, x);
    }
  }

  lemma {:induction false} ComesBeforeGrows(p: Procedure, phis: Phis, phis': Phis, block: Node, t: RWNode, i: Interval,
      x: RWNode)
    requires PhisGrow(phis, phis') && ComesBefore(p, phis, block, t, i, x)
    ensures ComesBefore(p, phis', block, t, i, x)
  {
    var q :| p.g.Edge(q, block) && Comes(p, phis, q, t, i, x);
    ComesGrows(p, phis, phis', q, t, i, x);
  }

  lemma {:induction false} ComesStartGrows(p: Procedure, phis: Phis, phis': Phis, block: Node, t: RWNode, i: Interval,
      x: RWNode)
    requires PhisGrow(phis, phis') && ComesStart(p, phis, block, t, i, x)
    ensures ComesStart(p, phis', block, t, i, x)
  {
    if !IsSitePhi(phis, x, block, t, i) {
      ComesBeforeGrows(p, phis, phis', block, t, i, x);
    }
  }

  // ---------------------------------------------------------------------------
  // Definitions kept for a block

  ghost predicate KeptFor(p: Procedure, phis: Phis, block: Node, t: RWNode, b: int, x: RWNode)
    requires block in p.code
  {
    x in LastWriters(p.code[block], t, b) || (IsPhiFor(phis, x, block, t, b) && !Killed(p.code[block], t, b))
  }

  /** Only the writers of a byte are kept for it, and phi nodes of the block where the block does not
      overwrite it. */
  ghost predicate OnlyKept(p: Procedure, phis: Phis, block: Node, definitions: Defs)
    requires block in p.code
  {
    forall k {:trigger Shown(k)} :: Shown(k) ==>
      forall t, b, x {:trigger x in DefsAt(definitions, t, b)} ::
          x in DefsAt(definitions, t, b) ==> KeptFor(p, phis, block, t, b, x)
  }

  ghost predicate PhisAreSites(p: Procedure, phis: Phis) {
    forall phi {:trigger phis[phi]} :: phi in phis ==> IsSite(p, phis[phi].site.target, phis[phi].site.Bytes())
  }

  lemma {:induction false} WriterReachesEnd(p: Procedure, block: Node, t: RWNode, b: int, x: RWNode)
    requires p.Valid() && block in p.code && x in LastWriters(p.code[block], t, b)
    ensures ReachesEnd(p, block, x, t, b)
  {
    assert SaneCode(p.code[block], p.firstId);
    TameWritersAre(p.code[block], t, b, x);
    var k: nat :| k < |p.code[block]| && Writes(p.code[block][k], t, b) && NotOverwritten(p.code[block], k, t, b) &&
        p.code[block][k].node == x;
    assert Flows(p, [block], k, t, b);
  }

  /** A site of which one byte is not overwritten is not overwritten at all. */
  lemma {:induction false} ClearByOne(p: Procedure, list: seq<Access>, t: RWNode, i: Interval, b: int)
    requires Aligned(p) && WritesSites(p, list) && IsSite(p, t, i) && i.Has(b) && !Killed(list, t, b)
    ensures ClearList(list, t, i)
  {
    forall c | i.Has(c) && Killed(list, t, c)
      ensures false
    {
      KilledTogether(p, list, t, i, b, c);
    }
  }

  lemma {:induction false} PhiIsForSite(p: Procedure, phis: Phis, block: Node, t: RWNode, i: Interval, b: int,
      x: RWNode)
    requires Aligned(p) && PhisAreSites(p, phis) && IsSite(p, t, i) && i.Has(b) && IsPhiFor(phis, x, block, t, b)
    ensures IsSitePhi(phis, x, block, t, i)
  {
    assert Shown(true);
    assert Apart(phis[x].site.Bytes(), i);
  }

  lemma {:induction false} KeptComes(p: Procedure, phis: Phis, block: Node, t: RWNode, i: Interval, b: int, x: RWNode)
    requires p.Valid() && Aligned(p) && PhisAreSites(p, phis) && IsSite(p, t, i) && block in p.code && i.Has(b)
    requires KeptFor(p, phis, block, t, b, x)
    ensures Comes(p, phis, block, t, i, x)
  {
    if x in LastWriters(p.code[block], t, b) {
      WriterReachesEnd(p, block, t, b, x);
    } else {
      PhiIsForSite(p, phis, block, t, i, b, x);
      CodeWritesSites(p, block);
      ClearByOne(p, p.code[block], t, i, b);
      ComesOn(p, phis, block, t, i, x);
    }
  }

  // ---------------------------------------------------------------------------
  // Uses

  /** The node defines a byte of the site before u, or it comes to the start of the block and nothing
      before u overwrites the site. */
  ghost predicate ComesToUse(p: Procedure, phis: Phis, block: Node, u: nat, t: RWNode, i: Interval, x: RWNode)
    requires block in p.code && u <= |p.code[block]|
  {
    || (exists b :: i.Has(b) && x in LastWriters(p.code[block][..u], t, b))
    || (ClearList(p.code[block][..u], t, i) && ComesStart(p, phis, block, t, i, x))
  }

  ghost predicate ComesToSome(p: Procedure, phis: Phis, block: Node, u: nat, sites: seq<DefSite>, x: RWNode)
    requires block in p.code && u <= |p.code[block]|
  {
    exists k :: 0 <= k < |sites| && ComesToUse(p, phis, block, u, sites[k].target, sites[k].Bytes(), x)
  }

  ghost predicate OnlyToUse(p: Procedure, phis: Phis, block: Node, u: nat, sites: seq<DefSite>, nodes: set<RWNode>)
    requires block in p.code && u <= |p.code[block]|
  {
    forall k {:trigger Shown(k)} ::
        Shown(k) ==> forall x {:trigger x in nodes} :: x in nodes ==> ComesToSome(p, phis, block, u, sites, x)
  }

  ghost predicate OnlyMerged(p: Procedure, phis: Phis, phi: Phi, nodes: set<RWNode>) {
    forall k {:trigger Shown(k)} :: Shown(k) ==>
      forall x {:trigger x in nodes} ::
          x in nodes ==> ComesBefore(p, phis, phi.block, phi.site.target, phi.site.Bytes(), x)
  }

  /** A node of the procedure that comes to a use reaches it with some byte of the site. */
  lemma {:induction false} ComesIsReaching(p: Procedure, phis: Phis, block: Node, u: nat, t: RWNode, i: Interval,
      x: RWNode)
    requires p.Valid() && p.g.Has(block) && u <= |p.code[block]| && x !in phis && ComesToUse(p, phis, block, u, t, i, x)
    ensures exists b :: i.Has(b) && ReachesUse(p, block, u, x, t, b)
  {
    var before := p.code[block][..u];
    if b :| i.Has(b) && x in LastWriters(before, t, b) {
      assert SaneCode(p.code[block], p.firstId);
      TameWritersAre(before, t, b, x);
      var k: nat :| k < |before| && Writes(before[k], t, b) && NotOverwritten(before, k, t, b) && before[k].node == x;
      assert p.code[block][k] == before[k];
      assert ReachesUse(p, block, u, x, t, b);
    } else {
      var q :| p.g.Edge(q, block) && Comes(p, phis, q, t, i, x);
      var b :| i.Has(b) && ReachesEnd(p, q, x, t, b);
      assert ReachesUse(p, block, u, x, t, b);
    }
  }

  lemma {:induction false} MergedComesToUse(p: Procedure, phis: Phis, block: Node, u: nat, t: RWNode, i: Interval,
      phi: RWNode, x: RWNode)
    requires p.Valid() && p.g.Has(block) && u <= |p.code[block]| && ComesToUse(p, phis, block, u, t, i, phi)
    requires phi in phis && phi.RWNode? && phi.id >= p.firstId
    requires ComesBefore(p, phis, phis[phi].block, phis[phi].site.target, phis[phi].site.Bytes(), x)
    ensures ComesToUse(p, phis, block, u, t, i, x)
  {
    var before := p.code[block][..u];
    assert SaneCode(p.code[block], p.firstId);
    forall b
      ensures phi !in LastWriters(before, t, b)
    {
      LastWritersAre(before, t, b, phi);
    }
    if !IsSitePhi(phis, phi, block, t, i) {
      var q :| p.g.Edge(q, block) && Comes(p, phis, q, t, i, phi);
      NoPhiReaches(p, q, t, i, phi);
    }
    ComesThroughPhi(p, phis, block, t, i, phi, x);
  }

  /** All that some node leads to comes to the use. */
  lemma {:induction false} LedComes(p: Procedure, phis: Phis, defuse: DefUses, block: Node, u: nat,
      sites: seq<DefSite>, from: set<RWNode>, n: RWNode)
    requires p.Valid() && p.g.Has(block) && u <= |p.code[block]| && OnlyToUse(p, phis, block, u, sites, from)
    requires forall phi :: phi in phis ==> phi.RWNode? && phi.id >= p.firstId
    requires forall phi :: phi in phis && phi in defuse ==> OnlyMerged(p, phis, phis[phi], defuse[phi])
    requires Leads(phis, defuse, from, n)
    ensures ComesToSome(p, phis, block, u, sites, n)
  {
    assert Shown(true);
    var everything := from + set phi, x | phi in defuse.Keys && x in defuse[phi] :: x;
    var all := set x | x in everything && ComesToSome(p, phis, block, u, sites, x);
    forall phi | phi in all && phi in phis && phi in defuse
      ensures defuse[phi] <= all
    {
      forall x | x in defuse[phi]
        ensures x in all
      {
        var k :| 0 <= k < |sites| && ComesToUse(p, phis, block, u, sites[k].target, sites[k].Bytes(), phi);
        MergedComesToUse(p, phis, block, u, sites[k].target, sites[k].Bytes(), phi, x);
      }
    }
    assert Expanded(phis, defuse, all);
  }

  // ---------------------------------------------------------------------------
  // More phi nodes

  lemma {:induction false} OnlyKeptGrows(p: Procedure, phis: Phis, phis': Phis, block: Node, definitions: Defs)
    requires block in p.code && PhisGrow(phis, phis') && OnlyKept(p, phis, block, definitions)
    ensures OnlyKept(p, phis', block, definitions)
  {
    assert Shown(true);
    forall t, b, x | x in DefsAt(definitions, t, b)
      ensures KeptFor(p, phis', block, t, b, x)
    {
      assert KeptFor(p, phis, block, t, b, x);
    }
  }

  lemma {:induction false} OnlyMergedGrows(p: Procedure, phis: Phis, phis': Phis, phi: Phi, nodes: set<RWNode>)
    requires PhisGrow(phis, phis') && OnlyMerged(p, phis, phi, nodes)
    ensures OnlyMerged(p, phis', phi, nodes)
  {
    assert Shown(true);
    forall x | x in nodes
      ensures ComesBefore(p, phis', phi.block, phi.site.target, phi.site.Bytes(), x)
    {
      ComesBeforeGrows(p, phis, phis', phi.block, phi.site.target, phi.site.Bytes(), x);
    }
  }

  lemma {:induction false} ComesToUseGrows(p: Procedure, phis: Phis, phis': Phis, block: Node, u: nat, t: RWNode,
      i: Interval, x: RWNode)
    requires block in p.code && u <= |p.code[block]| && PhisGrow(phis, phis') && ComesToUse(p, phis, block, u, t, i, x)
    ensures ComesToUse(p, phis', block, u, t, i, x)
  {
    if ClearList(p.code[block][..u], t, i) && ComesStart(p, phis, block, t, i, x) {
      ComesStartGrows(p, phis, phis', block, t, i, x);
    }
  }

  lemma {:induction false} OnlyToUseGrows(p: Procedure, phis: Phis, phis': Phis, block: Node, u: nat,
      sites: seq<DefSite>, nodes: set<RWNode>)
    requires block in p.code && u <= |p.code[block]| && PhisGrow(phis, phis')
    requires OnlyToUse(p, phis, block, u, sites, nodes)
    ensures OnlyToUse(p, phis', block, u, sites, nodes)
  {
    assert Shown(true);
    forall x | x in nodes
      ensures ComesToSome(p, phis', block, u, sites, x)
    {
      assert ComesToSome(p, phis, block, u, sites, x);
      var k :| 0 <= k < |sites| && ComesToUse(p, phis, block, u, sites[k].target, sites[k].Bytes(), x);
      ComesToUseGrows(p, phis, phis', block, u, sites[k].target, sites[k].Bytes(), x);
    }
  }
}
