/** A procedure in which the search misses a definition once a phi has been entered past its site. */
module MissedDefinition {
  import opened Graphs
  import opened Guards
  import opened Offsets
  import opened IntervalMaps
  import opened BlockDefinitions
  import opened LocalNumbering
  import opened ReachingDefinitions
  import opened ContainedSearches
  import opened SearchState
  import opened MemorySSA

  const MEMORY: RWNode := RWNode(0)

  function Site(offset: Offset, len: Offset): DefSite {
    DefSite(MEMORY, offset, len)
  }

  /** The bytes 0 to 3. */
  function Low(): DefSite {
    Site(0, 4)
  }

  /** Blocks 1 and 2 overwrite bytes 0 to 3, block 1 also bytes 4 to 7. They join in block 3, which reads bytes
      0 to 3 and then overwrites bytes 0, 1 and 8 to 11. Block 4 reads bytes 4 to 7. */
  function Gap(): Procedure {
    var b0, b1, b2, b3, b4 := Node(0), Node(1), Node(2), Node(3), Node(4);
    Procedure(Graph([[b1, b2], [b3], [b3], [b4], []], [[], [b0], [b0], [b1, b2], [b3]], {b0}), b0,
              map[b0 := [],
                  b1 := [Access(RWNode(1), [], [Site(0, 4)], []), Access(RWNode(2), [], [Site(4, 4)], [])],
                  b2 := [Access(RWNode(3), [], [Site(0, 4)], [])],
                  b3 := [Access(RWNode(4), [], [], [Site(0, 4)]), Access(RWNode(5), [], [Site(0, 2), Site(8, 4)], [])],
                  b4 := [Access(RWNode(6), [], [], [Site(4, 4)])]],
              {}, 7)
  }

  ghost predicate GapGraph(g: Graph) {
    && |g.succs| == 5 == |g.preds| && g.predicates == {Node(0)}
    && (forall u :: g.Has(u) <==> u == Node(0) || u == Node(1) || u == Node(2) || u == Node(3) || u == Node(4))
    && g.Succs(Node(0)) == [Node(1), Node(2)] && g.Succs(Node(1)) == [Node(3)] && g.Succs(Node(2)) == [Node(3)]
    && g.Succs(Node(3)) == [Node(4)] && g.Succs(Node(4)) == []
    && g.Preds(Node(0)) == [] && g.Preds(Node(1)) == [Node(0)] && g.Preds(Node(2)) == [Node(0)]
    && g.Preds(Node(3)) == [Node(1), Node(2)] && g.Preds(Node(4)) == [Node(3)]
  }

  lemma GapGraphIsValid(g: Graph)
    requires GapGraph(g)
    ensures g.Valid()
    ensures g.Edge(Node(0), Node(1)) && g.Edge(Node(0), Node(2)) && g.Edge(Node(1), Node(3)) && g.Edge(Node(3), Node(4))
  {
    assert forall u, v :: g.Edge(u, v) <==>
        (u, v) in {(Node(0), Node(1)), (Node(0), Node(2)), (Node(1), Node(3)), (Node(2), Node(3)), (Node(3), Node(4))};
  }

  lemma {:induction false} GapReachable(g: Graph, block: Node)
    requires GapGraph(g) && g.Has(block)
    ensures Reachable(g, Node(0), block)
  {
    GapGraphIsValid(g);
    assert Within(g, Node(0), 0, Node(0));
    assert Within(g, Node(0), 1, Node(1)) && Within(g, Node(0), 1, Node(2));
    assert Within(g, Node(0), 2, Node(3));
    assert Within(g, Node(0), 3, Node(4));
  }

  lemma GapCodeIsSane(p: Procedure, block: Node)
    requires p == Gap() && block in p.code
    ensures SaneCode(p.code[block], 7)
  {
    var list := p.code[block];
    forall k {:trigger list[k]} | 0 <= k < |list|
      ensures SaneStep(list[k])
    {
      GapStepIsSane(p, block, k);
    }
  }

  ghost predicate SaneStep(a: Access) {
    && !Wild(a) && SaneAccess(a) && a.node.RWNode? && a.node.id < 7
    && SaneSites(a.uses) && !SomeUnknown(a.uses)
  }

  lemma GapStepIsSane(p: Procedure, block: Node, k: nat)
    requires p == Gap() && block in p.code && k < |p.code[block]|
    ensures SaneStep(p.code[block][k])
  {
    var a := p.code[block][k];
    assert |a.defines| + |a.overwrites| + |a.uses| <= 2;
  }

  lemma GapHasGraph(p: Procedure)
    requires p == Gap()
    ensures GapGraph(p.g)
  {
    assert forall u :: p.g.Has(u) <==> u == Node(0) || u == Node(1) || u == Node(2) || u == Node(3) || u == Node(4);
  }

  lemma {:induction false} GapIsValid(p: Procedure)
    requires p == Gap()
    ensures p.Valid() && GapGraph(p.g)
  {
    GapHasGraph(p);
    GapGraphIsValid(p.g);
    forall block | p.g.Has(block)
      ensures Reachable(p.g, p.entry, block) && SaneCode(p.code[block], p.firstId)
    {
      GapReachable(p.g, block);
      GapCodeIsSane(p, block);
    }
  }

  // ---------------------------------------------------------------------------
  // What overwrites what

  lemma SiteBytes()
    ensures Site(0, 4).Bytes() == Interval(0, 3) && Site(4, 4).Bytes() == Interval(4, 7)
    ensures Site(0, 2).Bytes() == Interval(0, 1) && Site(8, 4).Bytes() == Interval(8, 11)
  {
  }

  lemma {:induction false} JoinOverwrites(p: Procedure, b: int)
    requires p == Gap()
    ensures Killed(p.code[Node(3)], MEMORY, b) <==> 0 <= b <= 1 || 8 <= b <= 11
  {
    SiteBytes();
    var list := p.code[Node(3)];
    assert Strong(list[1], MEMORY, b) <==> 0 <= b <= 1 || 8 <= b <= 11 by {
      assert list[1].overwrites[0].Covers(MEMORY, b) <==> 0 <= b <= 1;
      assert list[1].overwrites[1].Covers(MEMORY, b) <==> 8 <= b <= 11;
    }
  }

  lemma {:induction false} BranchesOverwrite(p: Procedure, q: Node)
    requires p == Gap() && p.Valid() && GapGraph(p.g) && (q == Node(1) || q == Node(2))
    ensures OverwritesAll(p, q, Low())
  {
    SiteBytes();
    forall b | Low().Bytes().Has(b)
      ensures Killed(p.code[q], MEMORY, b)
    {
      assert p.code[q][0].overwrites[0].Covers(MEMORY, b);
      assert Strong(p.code[q][0], MEMORY, b);
    }
  }

  /** Node 2 defines none of the bytes 0 to 3. */
  lemma {:induction false} BranchesDefine(p: Procedure, q: Node, x: RWNode)
    requires p == Gap() && p.Valid() && GapGraph(p.g) && (q == Node(1) || q == Node(2)) && OwnWriter(p, q, Low(), x)
    ensures x != RWNode(2) && x.RWNode? && x.id < p.firstId
  {
    SiteBytes();
    var b :| Low().Bytes().Has(b) && x in LastWriters(p.code[q], MEMORY, b);
    LastWritersAre(p.code[q], MEMORY, b, x);
    var k: nat :| Lasts(p.code[q], k, MEMORY, b) && p.code[q][k].node == x;
    GapCodeIsSane(p, q);
    assert q == Node(1) ==> !Site(4, 4).Covers(MEMORY, b);
  }

  /** Node 2 defines bytes 4 to 7 in block 1, and control takes it through block 3 to block 4. */
  lemma {:induction false} DefinitionReaches(p: Procedure, b: int)
    requires p == Gap() && p.Valid() && GapGraph(p.g) && 4 <= b <= 7
    ensures ReachesEnd(p, Node(1), RWNode(2), MEMORY, b) && ReachesUse(p, Node(4), 0, RWNode(2), MEMORY, b)
  {
    SiteBytes();
    GapGraphIsValid(p.g);
    var list := p.code[Node(1)];
    assert list[1].overwrites[0].Covers(MEMORY, b);
    assert Writes(list[1], MEMORY, b) && NotOverwritten(list, 1, MEMORY, b);
    assert Flows(p, [Node(1)], 1, MEMORY, b);
    JoinOverwrites(p, b);
    assert Flows(p, [Node(1), Node(3)], 1, MEMORY, b);
    assert ReachesEnd(p, Node(3), RWNode(2), MEMORY, b);
    assert p.code[Node(4)][..0] == [];
  }

  // ---------------------------------------------------------------------------
  // The phi for bytes 0 to 3

  ghost predicate JoinKills(kills: Defs) {
    ValidDefs(kills) && forall b {:trigger DefsAt(kills, MEMORY, b)} ::
        DefsAt(kills, MEMORY, b) != {} <==> 0 <= b <= 1 || 8 <= b <= 11
  }

  lemma {:induction false} JoinOvershoots(kills: Defs)
    requires JoinKills(kills)
    ensures MEMORY in kills && Overshoots(kills[MEMORY], Interval(0, 3))
  {
    assert DefsAt(kills, MEMORY, 0) != {} && DefsAt(kills, MEMORY, 8) != {};
    assert DefsAt(kills, MEMORY, 3) == {} && DefsAt(kills, MEMORY, 4) == {};
    var m := kills[MEMORY];
    var i := AtSomewhere(m, 0);
    assert Meets(m[i].key, Interval(0, 3));
    var j := AtSomewhere(m, 8);
    if m[j].key.start <= 4 {
      AtIndex(m, j, 4);
    }
  }

  /** The run goes up to the overwritten byte 8. */
  lemma {:induction false} RunGoesOn(kills: Defs, sites: seq<DefSite>, k: nat, b: int)
    requires JoinKills(kills) && AreOpen(kills, Low(), sites) && EndInFront(kills, Low(), sites)
    requires k < |sites| && sites[k].Bytes().end > 3 && 4 <= b <= 7
    ensures sites[k].Bytes().Has(b)
  {
    var r := sites[k].Bytes();
    assert r.start <= 3;
    assert DefsAt(kills, MEMORY, r.end + 1) != {};
    assert DefsAt(kills, MEMORY, 8) != {};
  }

  /** The phi is entered for bytes 4 to 7 as well. */
  lemma {:induction false} EnteredPast(p: Procedure, info: Info, sites: seq<DefSite>, b: int)
    requires p == Gap() && Numbered(p.code[Node(3)], info.definitions, info.kills) && ValidDefs(info.kills)
    requires AreOpen(info.kills, Low(), sites) && EndInFront(info.kills, Low(), sites)
    requires GoesPast(sites, Low()) <==> MEMORY in info.kills && Overshoots(info.kills[MEMORY], Low().Bytes())
    requires 4 <= b <= 7
    ensures InSite(sites, b)
  {
    SiteBytes();
    forall c
      ensures DefsAt(info.kills, MEMORY, c) != {} <==> 0 <= c <= 1 || 8 <= c <= 11
    {
      JoinOverwrites(p, c);
    }
    JoinOvershoots(info.kills);
    var c :| InSite(sites, c) && !Low().Bytes().Has(c);
    var k :| 0 <= k < |sites| && sites[k].Bytes().Has(c);
    RunGoesOn(info.kills, sites, k, b);
  }

  /** So what is searched for the phi are the last writers in blocks 1 and 2. */
  lemma {:induction false} GapPredecessorsOverwrite(p: Procedure)
    requires p == Gap() && p.Valid() && GapGraph(p.g)
    ensures PredecessorsOverwrite(p, Phi(Node(3), Low()))
  {
    forall q | q in p.g.Preds(Node(3))
      ensures p.g.Has(q) && OverwritesAll(p, q, Low())
    {
      BranchesOverwrite(p, q);
    }
  }

  lemma {:induction false} MergedIsLow(p: Procedure, nodes: set<RWNode>, x: RWNode)
    requires p == Gap() && p.Valid() && GapGraph(p.g) && OwnMerged(p, Phi(Node(3), Low()), nodes) && x in nodes
    ensures x != RWNode(2) && x.RWNode? && x.id < p.firstId
  {
    assert Shown(true);
    var q :| q in p.g.Preds(Node(3)) && p.g.Has(q) && OwnWriter(p, q, Low(), x);
    BranchesDefine(p, q, x);
  }

  lemma {:induction false} NodesDoNotLead(phis: Phis, defuse: DefUses, phi: RWNode, n: RWNode)
    requires phi in defuse && phi != n && n !in defuse[phi] && forall x :: x in defuse[phi] ==> x !in phis
    ensures !Leads(phis, defuse, {phi}, n)
  {
    assert Expanded(phis, defuse, {phi} + defuse[phi]);
  }

  /** When the phi for the read of bytes 0 to 3 has been created and searched for, the definition of bytes 4 to
      7 in block 1 still reaches the read of them in block 4; but in block 3 these bytes count as overwritten,
      and what is kept for them does not lead to the definition. */
  lemma {:induction false} GapMisses(p: Procedure, s: State, s': State, phi: RWNode, sites: seq<DefSite>,
      defuse: DefUses, b: int)
    requires p == Gap() && p.Valid() && WellFormed(p, s) && Node(3) in s.infos
    requires Numbered(p.code[Node(3)], s.infos[Node(3)].definitions, s.infos[Node(3)].kills)
    requires Created(p, s, s', phi, Phi(Node(3), Low()), sites)
    requires phi in defuse && OwnMerged(p, Phi(Node(3), Low()), defuse[phi])
    requires 4 <= b <= 7
    ensures ReachesUse(p, Node(4), 0, RWNode(2), MEMORY, b)
    ensures DefsAt(s'.infos[Node(3)].kills, MEMORY, b) != {}
    ensures !Leads(s'.phis, defuse, DefsAt(s'.infos[Node(3)].definitions, MEMORY, b), RWNode(2))
  {
    GapIsValid(p);
    GapGraphIsValid(p.g);
    DefinitionReaches(p, b);
    EnteredThere(p, s, s', phi, sites, b);
    JoinDefines(p, b);
    DefinitionIsMissed(p, s, s', phi, Phi(Node(3), Low()), sites, b, Node(1), RWNode(2), defuse);
    PhiIsNew(p, s, s', phi, sites);
    forall x | x in defuse[phi]
      ensures x != RWNode(2) && x !in s'.phis
    {
      MergedIsLow(p, defuse[phi], x);
    }
    NodesDoNotLead(s'.phis, defuse, phi, RWNode(2));
  }

  lemma PhiIsNew(p: Procedure, s: State, s': State, phi: RWNode, sites: seq<DefSite>)
    requires p.Valid() && WellFormed(p, s) && p.firstId == 7 && Created(p, s, s', phi, Phi(Node(3), Low()), sites)
    ensures phi != RWNode(2) && forall x :: x in s'.phis ==> x.RWNode? && x.id >= p.firstId
  {
    forall x | x in s'.phis
      ensures x.RWNode? && x.id >= p.firstId
    {
      assert x != phi ==> PhiOk(p, x, s.phis[x], s.nextId);
    }
  }

  lemma EnteredThere(p: Procedure, s: State, s': State, phi: RWNode, sites: seq<DefSite>, b: int)
    requires p == Gap() && p.Valid() && WellFormed(p, s) && Node(3) in s.infos && 4 <= b <= 7
    requires Numbered(p.code[Node(3)], s.infos[Node(3)].definitions, s.infos[Node(3)].kills)
    requires Created(p, s, s', phi, Phi(Node(3), Low()), sites)
    ensures InSite(sites, b)
  {
    assert Shown(true);
    assert BlockOk(p, s, Node(3));
    EnteredPast(p, s.infos[Node(3)], sites, b);
  }

  lemma {:induction false} JoinDefines(p: Procedure, b: int)
    requires p == Gap()
    ensures RWNode(2) !in LastWriters(p.code[Node(3)], MEMORY, b)
  {
    LastWritersAre(p.code[Node(3)], MEMORY, b, RWNode(2));
  }

  /** No family of ranges contains the searches of this procedure. */
  lemma {:induction false} GapIsNotContained(p: Procedure)
    requires p == Gap()
    ensures !Contained(p)
  {
    forall spans | Contains(p, spans)
      ensures false
    {
      GapRunsPast(p, spans);
    }
  }

  lemma {:induction false} GapRunsPast(p: Procedure, spans: set<Span>)
    requires p == Gap()
    ensures !Contains(p, spans)
  {
    GapIsValid(p);
    assert Opened(true);
    SiteBytes();
    var none: set<Span> := {};
    var low := SpanOf(Low());
    forall b
      ensures Counts(p.code[Node(3)], none, MEMORY, b) <==> 0 <= b <= 1 || 8 <= b <= 11
    {
      JoinOverwrites(p, b);
    }
    assert low.bytes.Has(0) && Counts(p.code[Node(3)], none, MEMORY, 0) && Counts(p.code[Node(3)], none, MEMORY, 8);
    assert RunsPast(p.code[Node(3)], none, low.target, low.bytes);
    assert IsJoin(p, Node(3)) && SpanOf(p.code[Node(3)][0].uses[0]) == low;
    assert none <= spans;
  }
}
