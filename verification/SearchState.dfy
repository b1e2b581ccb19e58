/** What the on-demand search for definitions keeps true of its state: phi nodes are created where
    paths join, and the search goes on for each of them in the predecessors. */
module SearchState {
  import opened Graphs
  import opened Guards
  import opened Offsets
  import opened IntervalMaps
  import opened BlockDefinitions
  import opened LocalNumbering
  import opened ReachingDefinitions
  import opened ContainedSearches
  import opened AlignedSites
  import opened ExactAnswers

  // ---------------------------------------------------------------------------
  // The state of the search

  /** What is known of a block that has been looked at. */
  datatype Info = Info(definitions: Defs, kills: Defs)

  datatype State = State(nodes: map<Node, seq<Access>>, phis: Phis, defuse: DefUses, infos: map<Node, Info>,
      nextId: nat)

  ghost predicate Merges(p: Procedure, block: Node) {
    |p.g.preds| == |p.g.succs| && p.g.Has(block) && |p.g.Preds(block)| > 1
  }

  /** Phi nodes that stand at the start of a block. */
  ghost predicate AreFront(p: Procedure, phis: Phis, block: Node, front: seq<Access>)
    requires p.Valid() && p.g.Has(block)
  {
    forall k {:trigger front[k]} :: 0 <= k < |front| ==>
      && Merges(p, block) && front[k].node in phis && phis[front[k].node].block == block
      && front[k] == Access(front[k].node, [], [phis[front[k].node].site], [])
  }

  ghost predicate HasFront(p: Procedure, phis: Phis, block: Node, nodes: seq<Access>)
    requires p.Valid() && p.g.Has(block)
  {
    exists front :: nodes == front + p.code[block] && AreFront(p, phis, block, front)
  }

  /** The definitions that the block makes are kept; where nothing counts as overwritten, no others are. */
  ghost predicate InfoOk(p: Procedure, block: Node, info: Info)
    requires p.Valid() && p.g.Has(block)
  {
    && ValidDefs(info.definitions) && ValidDefs(info.kills)
    && (forall t, b {:trigger DefsAt(info.definitions, t, b)} ::
         LastWriters(p.code[block], t, b) <= DefsAt(info.definitions, t, b))
    && (forall t, b {:trigger DefsAt(info.kills, t, b)} ::
          DefsAt(info.kills, t, b) == {} ==>
              !Killed(p.code[block], t, b) && DefsAt(info.definitions, t, b) == LastWriters(p.code[block], t, b))
  }

  ghost predicate PhiOk(p: Procedure, phi: RWNode, what: Phi, nextId: nat) {
    phi.RWNode? && p.firstId <= phi.id < nextId && p.g.Has(what.block) && Sane(what.site) &&
        !what.site.target.UnknownMemory?
  }

  /** A block that has not been looked at is as it was built. */
  ghost predicate BlockOk(p: Procedure, s: State, block: Node)
    requires p.Valid() && p.g.Has(block)
  {
    && block in s.nodes && HasFront(p, s.phis, block, s.nodes[block])
    && (if block in s.infos then InfoOk(p, block, s.infos[block]) else s.nodes[block] == p.code[block])
    && (block in s.infos ==> KeptOwn(p, s.phis, block, s.infos[block].definitions))
  }

  /** Besides nodes of the block only phi nodes of the block are kept for it. */
  ghost predicate KeptOwn(p: Procedure, phis: Phis, block: Node, definitions: Defs)
    requires p.Valid() && p.g.Has(block)
  {
    forall k {:trigger Opened(k)} :: Opened(k) ==>
      forall t, b, x {:trigger x in DefsAt(definitions, t, b)} :: x in DefsAt(definitions, t, b) ==>
        x in LastWriters(p.code[block], t, b) || (x in phis && phis[x].block == block)
  }

  /** Phi nodes stand where paths join or the procedure starts. */
  ghost predicate PhisStand(p: Procedure, phis: Phis)
    requires p.Valid()
  {
    forall phi {:trigger phis[phi]} :: phi in phis ==> p.g.Has(phis[phi].block) && |p.g.Preds(phis[phi].block)| != 1
  }

  ghost predicate WellFormed(p: Procedure, s: State)
    requires p.Valid()
  {
    && p.firstId <= s.nextId
    && (forall block {:trigger BlockOk(p, s, block)} :: p.g.Has(block) ==> BlockOk(p, s, block))
    && (forall block {:trigger block in s.infos} :: block in s.infos ==> p.g.Has(block))
    && (forall phi {:trigger PhiOk(p, phi, s.phis[phi], s.nextId)} ::
         phi in s.phis ==> PhiOk(p, phi, s.phis[phi], s.nextId))
    && PhisStand(p, s.phis)
  }

  // ---------------------------------------------------------------------------
  // What makes the answers sound

  /** Where a byte counts as overwritten in a block, it is, or the definitions kept for it answer for
      the start of the block. */
  ghost predicate InfoSound(p: Procedure, phis: Phis, block: Node, info: Info)
    requires p.Valid() && p.g.Has(block)
  {
    forall t, b {:trigger DefsAt(info.kills, t, b)} :: DefsAt(info.kills, t, b) != {} ==>
      Killed(p.code[block], t, b) || AnswersStart(p, phis, block, t, b, DefsAt(info.definitions, t, b))
  }

  /** The nodes answer for every byte that the node at u reads. */
  ghost predicate UseAnswered(p: Procedure, phis: Phis, block: Node, u: nat, nodes: set<RWNode>)
    requires p.Valid() && p.g.Has(block) && u < |p.code[block]|
  {
    forall k, b {:trigger AnswersUse(p, phis, block, u, p.code[block][u].uses[k].target, b, nodes)} ::
      0 <= k < |p.code[block][u].uses| && p.code[block][u].uses[k].Bytes().Has(b) ==>
        AnswersUse(p, phis, block, u, p.code[block][u].uses[k].target, b, nodes)
  }

  ghost predicate UseSound(p: Procedure, phis: Phis, defuse: DefUses, block: Node, u: nat)
    requires p.Valid() && p.g.Has(block) && u < |p.code[block]|
  {
    p.code[block][u].node in defuse ==> UseAnswered(p, phis, block, u, defuse[p.code[block][u].node])
  }

  ghost predicate PhiSound(p: Procedure, phis: Phis, defuse: DefUses, phi: RWNode)
    requires p.Valid() && phi in phis
  {
    p.g.Has(phis[phi].block) && Merges(p, phis[phi].block) ==>
        phi in defuse && PhiAnswered(p, phis, phis[phi], defuse[phi])
  }

  ghost predicate Sound(p: Procedure, s: State, pending: set<RWNode>)
    requires p.Valid() && WellFormed(p, s)
  {
    && (forall block {:trigger InfoSound(p, s.phis, block, s.infos[block])} ::
         block in s.infos ==> InfoSound(p, s.phis, block, s.infos[block]))
    && (forall phi {:trigger PhiSound(p, s.phis, s.defuse, phi)} ::
         phi in s.phis && phi !in pending ==> PhiSound(p, s.phis, s.defuse, phi))
    && (forall block, u: nat {:trigger UseSound(p, s.phis, s.defuse, block, u)} ::
         p.g.Has(block) && u < |p.code[block]| ==>
          UseSound(p, s.phis, s.defuse, block, u))
  }

  /** What every search keeps: `pending` are the phi nodes whose definitions are being searched for, and
      `overshot` tells that some phi has been entered for bytes past the end of its own site. */
  ghost predicate Coherent(p: Procedure, s: State, pending: set<RWNode>, overshot: bool) {
    forall k {:trigger Shown(k)} :: Shown(k) ==>
      && p.Valid() && WellFormed(p, s) && (!overshot ==> Sound(p, s, pending)) &&
           (Aligned(p) ==> !overshot && AlignedState(p, s))
      && (forall spans {:trigger Contains(p, spans)} :: Contains(p, spans) ==> !overshot && SpanState(p, spans, s))
  }

  /** Phi nodes are for spans and entered for spans. */
  ghost predicate SpanState(p: Procedure, spans: set<Span>, s: State) {
    forall k {:trigger Opened(k)} :: Opened(k) ==>
      && (forall phi {:trigger s.phis[phi]} :: phi in s.phis ==> SpanOf(s.phis[phi].site) in spans)
      && (forall block {:trigger s.infos[block]} ::
           block in s.infos && block in p.code ==> CountsAs(p.code[block], spans, s.infos[block].kills))
  }

  lemma CoherentIsFormed(p: Procedure, s: State, pending: set<RWNode>, overshot: bool)
    requires Coherent(p, s, pending, overshot)
    ensures p.Valid() && WellFormed(p, s)
  {
    assert Shown(true);
  }

  lemma CoherentIsSpanned(p: Procedure, s: State, pending: set<RWNode>, overshot: bool, spans: set<Span>)
    requires Coherent(p, s, pending, overshot) && Contains(p, spans)
    ensures SpanState(p, spans, s) && !overshot
  {
    assert Shown(true);
  }

  lemma CoherentIsAligned(p: Procedure, s: State, pending: set<RWNode>, overshot: bool)
    requires Coherent(p, s, pending, overshot) && Aligned(p)
    ensures AlignedState(p, s) && !overshot
  {
    assert Shown(true);
  }

  /** In an aligned procedure phi nodes are for sites, sites are overwritten as a whole, and only what
      reaches is kept. */
  ghost predicate AlignedState(p: Procedure, s: State) {
    && (forall block {:trigger AllUniform(p, s.infos[block].kills)} ::
         block in s.infos ==> AllUniform(p, s.infos[block].kills))
    && PhisAreSites(p, s.phis) && PreciseInfos(p, s) && PreciseDefUse(p, s)
  }

  ghost predicate PreciseInfos(p: Procedure, s: State) {
    forall block {:trigger OnlyKept(p, s.phis, block, s.infos[block].definitions)} ::
      block in s.infos && block in p.code ==> OnlyKept(p, s.phis, block, s.infos[block].definitions)
  }

  ghost predicate PreciseDefUse(p: Procedure, s: State) {
    && (forall x {:trigger x in s.defuse} :: x in s.defuse ==> x in s.phis || (x.RWNode? && x.id < p.firstId))
    && (forall phi {:trigger OnlyMerged(p, s.phis, s.phis[phi], s.defuse[phi])} ::
          phi in s.phis && phi in s.defuse ==> OnlyMerged(p, s.phis, s.phis[phi], s.defuse[phi]))
    && (forall block, u: nat {:trigger UsePrecise(p, s, block, u)} ::
         block in p.code && u < |p.code[block]| ==> UsePrecise(p, s, block, u))
  }

  ghost predicate UsePrecise(p: Procedure, s: State, block: Node, u: nat)
    requires block in p.code && u < |p.code[block]|
  {
    p.code[block][u].node in s.defuse ==>
        OnlyToUse(p, s.phis, block, u, p.code[block][u].uses, s.defuse[p.code[block][u].node])
  }

  // ---------------------------------------------------------------------------
  // A block is looked at

  lemma {:induction false} NumberingKeeps(p: Procedure, s: State, s': State, block: Node, info: Info)
    requires p.Valid() && WellFormed(p, s) && p.g.Has(block) && block !in s.infos
    requires s' == s.(infos := s.infos[block := info])
    requires ValidDefs(info.definitions) && ValidDefs(info.kills)
    requires Numbered(p.code[block], info.definitions, info.kills)
    ensures WellFormed(p, s')
  {
    assert InfoOk(p, block, info) && KeptOwn(p, s.phis, block, info.definitions);
    forall x | p.g.Has(x)
      ensures BlockOk(p, s', x)
    {
      assert BlockOk(p, s, x);
    }
    forall phi | phi in s'.phis
      ensures PhiOk(p, phi, s'.phis[phi], s'.nextId)
    {
      assert PhiOk(p, phi, s.phis[phi], s.nextId);
    }
  }

  lemma {:induction false} NumberingIsAligned(p: Procedure, s: State, s': State, block: Node, info: Info)
    requires Aligned(p) && AlignedState(p, s) && s' == s.(infos := s.infos[block := info]) && block in p.code
    requires Numbered(p.code[block], info.definitions, info.kills)
    ensures AlignedState(p, s')
  {
    CodeWritesSites(p, block);
    NumberedIsUniform(p, p.code[block], info.definitions, info.kills);
    forall x | x in s'.infos
      ensures AllUniform(p, s'.infos[x].kills)
      ensures x in p.code ==> OnlyKept(p, s'.phis, x, s'.infos[x].definitions)
    {
      assert x != block ==> AllUniform(p, s.infos[x].kills);
      assert x != block && x in p.code ==> OnlyKept(p, s.phis, x, s.infos[x].definitions);
    }
    SameDefUse(p, s, s');
  }

  lemma SameDefUse(p: Procedure, s: State, s': State)
    requires PreciseDefUse(p, s) && s'.phis == s.phis && s'.defuse == s.defuse
    ensures PreciseDefUse(p, s')
  {
    forall block, u: nat | block in p.code && u < |p.code[block]|
      ensures UsePrecise(p, s', block, u)
    {
      assert UsePrecise(p, s, block, u);
    }
    forall phi | phi in s'.phis && phi in s'.defuse
      ensures OnlyMerged(p, s'.phis, s'.phis[phi], s'.defuse[phi])
    {
      assert OnlyMerged(p, s.phis, s.phis[phi], s.defuse[phi]);
    }
  }

  lemma {:induction false} NumberingIsSound(p: Procedure, s: State, s': State, block: Node, info: Info,
      pending: set<RWNode>)
    requires p.Valid() && p.g.Has(block) && block !in s.infos && s' == s.(infos := s.infos[block := info])
    requires Numbered(p.code[block], info.definitions, info.kills)
    requires WellFormed(p, s) && WellFormed(p, s') && Sound(p, s, pending)
    ensures Sound(p, s', pending)
  {
    forall x | x in s'.infos
      ensures InfoSound(p, s'.phis, x, s'.infos[x])
    {
      if x != block {
        assert InfoSound(p, s.phis, x, s.infos[x]);
      }
    }
    forall phi | phi in s'.phis && phi !in pending
      ensures PhiSound(p, s'.phis, s'.defuse, phi)
    {
      assert PhiSound(p, s.phis, s.defuse, phi);
    }
    forall x, u: nat | p.g.Has(x) && u < |p.code[x]|
      ensures UseSound(p, s'.phis, s'.defuse, x, u)
    {
      assert UseSound(p, s.phis, s.defuse, x, u);
    }
  }

  lemma {:induction false} NumberingIsSpanned(p: Procedure, spans: set<Span>, s: State, s': State, block: Node,
      info: Info)
    requires SpanState(p, spans, s) && s' == s.(infos := s.infos[block := info]) && block in p.code
    requires Numbered(p.code[block], info.definitions, info.kills)
    ensures SpanState(p, spans, s')
  {
    assert Opened(true);
    NumberedCounts(p.code[block], spans, info.definitions, info.kills);
  }

  // ---------------------------------------------------------------------------
  // A phi is created

  lemma {:induction false} CreatedIsSpanned(p: Procedure, spans: set<Span>, s: State, s': State, phi: RWNode,
      what: Phi, sites: seq<DefSite>)
    requires p.Valid() && Created(p, s, s', phi, what, sites) && phi !in s.phis && SpanState(p, spans, s)
    requires SpanOf(what.site) in spans
    requires forall k {:trigger sites[k]} :: 0 <= k < |sites| ==> SpanOf(sites[k]) in spans
    ensures SpanState(p, spans, s')
  {
    assert Opened(true);
    forall block | block in s'.infos && block in p.code
      ensures CountsAs(p.code[block], spans, s'.infos[block].kills)
    {
      assert CountsAs(p.code[block], spans, s.infos[block].kills);
      EnteredIsSpanned(p, spans, s, s', phi, what, sites, block);
    }
    forall x | x in s'.phis
      ensures SpanOf(s'.phis[x].site) in spans
    {
      assert x != phi ==> SpanOf(s.phis[x].site) in spans;
    }
  }

  lemma {:induction false} EnteredIsSpanned(p: Procedure, spans: set<Span>, s: State, s': State, phi: RWNode,
      what: Phi, sites: seq<DefSite>, block: Node)
    requires p.Valid() && Created(p, s, s', phi, what, sites) && block in s.infos && block in p.code
    requires CountsAs(p.code[block], spans, s.infos[block].kills)
    requires forall k {:trigger sites[k]} :: 0 <= k < |sites| ==> SpanOf(sites[k]) in spans
    ensures CountsAs(p.code[block], spans, s'.infos[block].kills)
  {
    assert Shown(true);
    if block == what.block {
      EnteredCounts(p.code[block], spans, s.infos[block].kills, s'.infos[block].kills, what.site.target, sites, phi);
    } else {
      assert s'.infos[block] == s.infos[block];
    }
  }

  lemma {:induction false} InfoSoundGrows(p: Procedure, phis: Phis, phis': Phis, block: Node, info: Info)
    requires p.Valid() && p.g.Has(block) && PhisGrow(phis, phis') && InfoSound(p, phis, block, info)
    ensures InfoSound(p, phis', block, info)
  {
    forall t, b | DefsAt(info.kills, t, b) != {} && !Killed(p.code[block], t, b)
      ensures AnswersStart(p, phis', block, t, b, DefsAt(info.definitions, t, b))
    {
      AnswersStartGrows(p, phis, phis', block, t, b, DefsAt(info.definitions, t, b), DefsAt(info.definitions, t, b));
    }
  }

  lemma {:induction false} UseAnsweredGrows(p: Procedure, phis: Phis, phis': Phis, block: Node, u: nat,
      nodes: set<RWNode>)
    requires p.Valid() && p.g.Has(block) && u < |p.code[block]| && PhisGrow(phis, phis')
    requires UseAnswered(p, phis, block, u, nodes)
    ensures UseAnswered(p, phis', block, u, nodes)
  {
    var a := p.code[block][u];
    forall k, b | 0 <= k < |a.uses| && a.uses[k].Bytes().Has(b)
      ensures AnswersUse(p, phis', block, u, a.uses[k].target, b, nodes)
    {
      assert AnswersUse(p, phis, block, u, a.uses[k].target, b, nodes);
      if !Killed(p.code[block][..u], a.uses[k].target, b) {
        AnswersStartGrows(p, phis, phis', block, a.uses[k].target, b, nodes, nodes);
      }
    }
  }

  lemma {:induction false} PhiAnsweredGrows(p: Procedure, phis: Phis, phis': Phis, phi: Phi, nodes: set<RWNode>)
    requires p.Valid() && p.g.Has(phi.block) && PhisGrow(phis, phis') && PhiAnswered(p, phis, phi, nodes)
    ensures PhiAnswered(p, phis', phi, nodes)
  {
    forall q, b | q in p.g.Preds(phi.block) && phi.site.Bytes().Has(b)
      ensures AnswersEnd(p, phis', q, phi.site.target, b, nodes)
    {
      AnswersEndGrows(p, phis, phis', q, phi.site.target, b, nodes, nodes);
    }
  }

  /** The phi defines the sites and overwrites them. */
  ghost predicate WithPhi(info: Info, info': Info, target: RWNode, sites: seq<DefSite>, phi: RWNode) {
    && (forall t, b {:trigger DefsAt(info'.definitions, t, b)} ::
          DefsAt(info'.definitions, t, b) ==
              Written(DefsAt(info.definitions, t, b), t == target && InSite(sites, b), phi, false))
    && (forall t, b {:trigger DefsAt(info'.kills, t, b)} ::
          DefsAt(info'.kills, t, b) == Written(DefsAt(info.kills, t, b), t == target && InSite(sites, b), phi, false))
  }

  /** A new phi for a block that is known already. */
  ghost predicate Created(p: Procedure, s: State, s': State, phi: RWNode, what: Phi, sites: seq<DefSite>)
    requires p.Valid()
  {
    && p.g.Has(what.block) && |p.g.Preds(what.block)| != 1 && what.block in s.infos && what.block in s.nodes &&
         Sane(what.site) && !what.site.target.UnknownMemory?
    && phi == RWNode(s.nextId) && s'.nextId == s.nextId + 1
    && s'.phis == s.phis[phi := what] && s'.defuse == s.defuse
    && s'.infos.Keys == s.infos.Keys
    && (forall k {:trigger Shown(k)} :: Shown(k) ==>
          && (forall x {:trigger s'.infos[x]} :: x in s.infos && x != what.block ==> s'.infos[x] == s.infos[x])
          && ValidDefs(s'.infos[what.block].definitions) && ValidDefs(s'.infos[what.block].kills)
          && WithPhi(s.infos[what.block], s'.infos[what.block], what.site.target, sites, phi)
          && AreOpen(s.infos[what.block].kills, what.site, sites) &&
               EndInFront(s.infos[what.block].kills, what.site, sites)
          && (GoesPast(sites, what.site) <==>
                what.site.target in s.infos[what.block].kills &&
                    Overshoots(s.infos[what.block].kills[what.site.target], what.site.Bytes())))
    && s'.nodes == if Merges(p, what.block)
         then s.nodes[what.block := [Access(phi, [], [what.site], [])] + s.nodes[what.block]] else s.nodes
  }

  lemma {:induction false} FrontGrows(p: Procedure, phis: Phis, phis': Phis, block: Node, nodes: seq<Access>)
    requires p.Valid() && p.g.Has(block) && PhisGrow(phis, phis') && HasFront(p, phis, block, nodes)
    ensures HasFront(p, phis', block, nodes)
  {
    var front :| nodes == front + p.code[block] && AreFront(p, phis, block, front);
    FrontStays(p, phis, phis', block, front);
  }

  lemma {:induction false} FrontStays(p: Procedure, phis: Phis, phis': Phis, block: Node, front: seq<Access>)
    requires p.Valid() && p.g.Has(block) && PhisGrow(phis, phis') && AreFront(p, phis, block, front)
    ensures AreFront(p, phis', block, front)
  {
    forall k {:trigger front[k]} | 0 <= k < |front|
      ensures front[k].node in phis' && phis'[front[k].node] == phis[front[k].node]
    {
      var n := front[k].node;
      assert n in phis;
    }
  }

  lemma {:induction false} FrontPrepends(p: Procedure, phis: Phis, block: Node, nodes: seq<Access>, phi: RWNode)
    requires p.Valid() && p.g.Has(block) && HasFront(p, phis, block, nodes)
    requires Merges(p, block) && phi in phis && phis[phi].block == block
    ensures HasFront(p, phis, block, [Access(phi, [], [phis[phi].site], [])] + nodes)
  {
    var front :| nodes == front + p.code[block] && AreFront(p, phis, block, front);
    var more := [Access(phi, [], [phis[phi].site], [])] + front;
    assert AreFront(p, phis, block, more);
    assert [Access(phi, [], [phis[phi].site], [])] + nodes == more + p.code[block];
  }

  lemma {:induction false} CreatedInfoIsOk(p: Procedure, s: State, s': State, phi: RWNode, what: Phi,
      sites: seq<DefSite>)
    requires p.Valid() && Created(p, s, s', phi, what, sites) && InfoOk(p, what.block, s.infos[what.block])
    ensures InfoOk(p, what.block, s'.infos[what.block])
  {
    assert Shown(true);
    forall t, b {:trigger DefsAt(s'.infos[what.block].definitions, t, b)}
      ensures LastWriters(p.code[what.block], t, b) <= DefsAt(s'.infos[what.block].definitions, t, b)
    {
      assert LastWriters(p.code[what.block], t, b) <= DefsAt(s.infos[what.block].definitions, t, b);
    }
    forall t, b | DefsAt(s'.infos[what.block].kills, t, b) == {}
      ensures !Killed(p.code[what.block], t, b)
      ensures DefsAt(s'.infos[what.block].definitions, t, b) == LastWriters(p.code[what.block], t, b)
    {
      assert DefsAt(s.infos[what.block].kills, t, b) == {};
    }
  }

  lemma {:induction false} CreatedKeepsOwn(p: Procedure, s: State, s': State, phi: RWNode, what: Phi,
      sites: seq<DefSite>, block: Node)
    requires p.Valid() && Created(p, s, s', phi, what, sites) && p.g.Has(block) && PhisGrow(s.phis, s'.phis)
    requires block in s.infos && KeptOwn(p, s.phis, block, s.infos[block].definitions)
    ensures KeptOwn(p, s'.phis, block, s'.infos[block].definitions)
  {
    assert Shown(true) && Opened(true);
    var old', new' := s.infos[block].definitions, s'.infos[block].definitions;
    forall t, b, x | x in DefsAt(new', t, b)
      ensures x in LastWriters(p.code[block], t, b) || (x in s'.phis && s'.phis[x].block == block)
    {
      if block == what.block {
        assert DefsAt(new', t, b) == Written(DefsAt(old', t, b), t == what.site.target && InSite(sites, b), phi, false);
      }
      assert x in DefsAt(old', t, b) || (x == phi && block == what.block);
    }
  }

  lemma {:induction false} CreatedBlockIsOk(p: Procedure, s: State, s': State, phi: RWNode, what: Phi,
      sites: seq<DefSite>, block: Node)
    requires p.Valid() && Created(p, s, s', phi, what, sites) && p.g.Has(block) && PhisGrow(s.phis, s'.phis)
    requires BlockOk(p, s, block)
    ensures BlockOk(p, s', block)
  {
    assert Shown(true);
    FrontGrows(p, s.phis, s'.phis, block, s.nodes[block]);
    if block in s.infos {
      CreatedKeepsOwn(p, s, s', phi, what, sites, block);
    }
    if block == what.block {
      CreatedInfoIsOk(p, s, s', phi, what, sites);
      if Merges(p, block) {
        FrontPrepends(p, s'.phis, block, s.nodes[block], phi);
      }
    }
  }

  lemma {:induction false} NewPhi(p: Procedure, s: State, phi: RWNode)
    requires p.Valid() && WellFormed(p, s) && phi == RWNode(s.nextId)
    ensures phi !in s.phis
  {
    assert phi in s.phis ==> PhiOk(p, phi, s.phis[phi], s.nextId);
  }

  lemma {:induction false} CreatedIsWellFormed(p: Procedure, s: State, s': State, phi: RWNode, what: Phi,
      sites: seq<DefSite>)
    requires p.Valid() && WellFormed(p, s) && Created(p, s, s', phi, what, sites) && phi !in s.phis
    ensures WellFormed(p, s')
  {
    assert Shown(true);
    forall block | p.g.Has(block)
      ensures BlockOk(p, s', block)
    {
      assert BlockOk(p, s, block);
      CreatedBlockIsOk(p, s, s', phi, what, sites, block);
    }
    forall x | x in s'.phis
      ensures PhiOk(p, x, s'.phis[x], s'.nextId)
    {
      assert x != phi ==> PhiOk(p, x, s.phis[x], s.nextId);
    }
    CreatedStands(p, s, s', phi, what, sites);
  }

  lemma CreatedStands(p: Procedure, s: State, s': State, phi: RWNode, what: Phi, sites: seq<DefSite>)
    requires p.Valid() && PhisStand(p, s.phis) && Created(p, s, s', phi, what, sites) && phi !in s.phis
    ensures PhisStand(p, s'.phis)
  {
    forall x | x in s'.phis
      ensures p.g.Has(s'.phis[x].block) && |p.g.Preds(s'.phis[x].block)| != 1
    {
      assert x != phi ==> x in s.phis && s'.phis[x] == s.phis[x];
    }
  }

  /** The phi is entered for some byte past the end of its site that a definition comes to the block for. */
  ghost predicate Harms(p: Procedure, block: Node, sites: seq<DefSite>, site: DefSite) {
    exists b :: InSite(sites, b) && !site.Bytes().Has(b) && !NothingReaches(p, block, site.target, b)
  }

  /** The definitions kept for the block stay sound if the phi covers all that it is entered for, as far as
      anything comes to the block. */
  lemma {:induction false} CreatedInfoIsSound(p: Procedure, s: State, s': State, phi: RWNode, what: Phi,
      sites: seq<DefSite>)
    requires p.Valid() && Created(p, s, s', phi, what, sites) && PhisGrow(s.phis, s'.phis)
    requires InfoSound(p, s.phis, what.block, s.infos[what.block])
    requires Merges(p, what.block) ==> !Harms(p, what.block, sites, what.site)
    requires |p.g.Preds(what.block)| != 1
    ensures InfoSound(p, s'.phis, what.block, s'.infos[what.block])
  {
    assert Shown(true);
    var block, info, info' := what.block, s.infos[what.block], s'.infos[what.block];
    forall t, b | DefsAt(info'.kills, t, b) != {} && !Killed(p.code[block], t, b)
      ensures AnswersStart(p, s'.phis, block, t, b, DefsAt(info'.definitions, t, b))
    {
      assert DefsAt(info'.kills, t, b) ==
          Written(DefsAt(info.kills, t, b), t == what.site.target && InSite(sites, b), phi, false);
      assert DefsAt(info'.definitions, t, b) ==
          Written(DefsAt(info.definitions, t, b), t == what.site.target && InSite(sites, b), phi, false);
      if DefsAt(info.kills, t, b) != {} {
        AnswersStartGrows(p, s.phis, s'.phis, block, t, b, DefsAt(info.definitions, t, b),
            DefsAt(info'.definitions, t, b));
      } else if Merges(p, block) {
        assert IsPhiFor(s'.phis, phi, block, t, b) || NothingReaches(p, block, t, b);
      }
    }
  }

  lemma {:induction false} CreatedIsSound(p: Procedure, s: State, s': State, phi: RWNode, what: Phi,
      sites: seq<DefSite>, pending: set<RWNode>)
    requires p.Valid() && WellFormed(p, s) && WellFormed(p, s') && Created(p, s, s', phi, what, sites)
    requires PhisGrow(s.phis, s'.phis)
    requires Sound(p, s, pending) && |p.g.Preds(what.block)| != 1
    requires Merges(p, what.block) ==> !Harms(p, what.block, sites, what.site)
    ensures Sound(p, s', pending + {phi})
  {
    assert Shown(true);
    forall x | x in s'.infos
      ensures InfoSound(p, s'.phis, x, s'.infos[x])
    {
      assert InfoSound(p, s.phis, x, s.infos[x]);
      if x == what.block {
        CreatedInfoIsSound(p, s, s', phi, what, sites);
      } else {
        InfoSoundGrows(p, s.phis, s'.phis, x, s.infos[x]);
      }
    }
    forall x | x in s'.phis && x !in pending + {phi}
      ensures PhiSound(p, s'.phis, s'.defuse, x)
    {
      assert PhiSound(p, s.phis, s.defuse, x);
      if p.g.Has(s.phis[x].block) && Merges(p, s.phis[x].block) {
        PhiAnsweredGrows(p, s.phis, s'.phis, s.phis[x], s.defuse[x]);
      }
    }
    forall x, u: nat | p.g.Has(x) && u < |p.code[x]|
      ensures UseSound(p, s'.phis, s'.defuse, x, u)
    {
      assert UseSound(p, s.phis, s.defuse, x, u);
      if p.code[x][u].node in s.defuse {
        UseAnsweredGrows(p, s.phis, s'.phis, x, u, s.defuse[p.code[x][u].node]);
      }
    }
  }

  lemma {:induction false} CreatedIsUniform(p: Procedure, s: State, s': State, phi: RWNode, what: Phi,
      sites: seq<DefSite>)
    requires p.Valid() && Created(p, s, s', phi, what, sites) && Aligned(p) && AllUniform(p, s.infos[what.block].kills)
    requires IsSite(p, what.site.target, what.site.Bytes()) && !GoesPast(sites, what.site)
    ensures AllUniform(p, s'.infos[what.block].kills)
  {
    assert Shown(true);
    var kills, kills' := s.infos[what.block].kills, s'.infos[what.block].kills;
    forall t, i | IsSite(p, t, i)
      ensures Uniform(kills', t, i)
    {
      assert Uniform(kills, t, i);
      assert t == what.site.target ==> Apart(i, what.site.Bytes());
      forall b | i.Has(b)
        ensures t == what.site.target && i == what.site.Bytes() ==> DefsAt(kills', t, b) != {}
        ensures !(t == what.site.target && i == what.site.Bytes()) ==> DefsAt(kills', t, b) == DefsAt(kills, t, b)
      {
        assert DefsAt(kills', t, b) ==
            Written(DefsAt(kills, t, b), t == what.site.target && InSite(sites, b), phi, false);
        assert t == what.site.target && what.site.Bytes().Has(b) && DefsAt(kills, t, b) == {} ==> InSite(sites, b);
      }
    }
  }

  lemma {:induction false} CreatedIsAligned(p: Procedure, s: State, s': State, phi: RWNode, what: Phi,
      sites: seq<DefSite>)
    requires p.Valid() && WellFormed(p, s) && Created(p, s, s', phi, what, sites) && Aligned(p) && AlignedState(p, s)
    requires phi !in s.phis
    requires IsSite(p, what.site.target, what.site.Bytes()) && !GoesPast(sites, what.site)
    ensures AlignedState(p, s')
  {
    CreatedInfosAligned(p, s, s', phi, what, sites);
    assert PhiOk(p, phi, what, s.nextId + 1);
    MoreDefUse(p, s, s', phi);
  }

  lemma {:induction false} CreatedInfosAligned(p: Procedure, s: State, s': State, phi: RWNode, what: Phi,
      sites: seq<DefSite>)
    requires p.Valid() && WellFormed(p, s) && Created(p, s, s', phi, what, sites) && Aligned(p) && AlignedState(p, s)
    requires phi !in s.phis
    requires IsSite(p, what.site.target, what.site.Bytes()) && !GoesPast(sites, what.site)
    ensures forall block {:trigger AllUniform(p, s'.infos[block].kills)} ::
      block in s'.infos ==> AllUniform(p, s'.infos[block].kills)
    ensures PreciseInfos(p, s')
  {
    assert AllUniform(p, s.infos[what.block].kills) && BlockOk(p, s, what.block);
    assert OnlyKept(p, s.phis, what.block, s.infos[what.block].definitions);
    CreatedIsUniform(p, s, s', phi, what, sites);
    CreatedIsKept(p, s, s', phi, what, sites);
    forall x | x in s'.infos
      ensures AllUniform(p, s'.infos[x].kills)
      ensures x in p.code ==> OnlyKept(p, s'.phis, x, s'.infos[x].definitions)
    {
      OtherInfoAligned(p, s, s', phi, what, sites, x);
    }
  }

  lemma {:induction false} OtherInfoAligned(p: Procedure, s: State, s': State, phi: RWNode, what: Phi,
      sites: seq<DefSite>, x: Node)
    requires p.Valid() && Created(p, s, s', phi, what, sites) && x in s.infos && phi !in s.phis
    requires AllUniform(p, s.infos[x].kills) && (x in p.code ==> OnlyKept(p, s.phis, x, s.infos[x].definitions))
    ensures x != what.block ==>
      AllUniform(p, s'.infos[x].kills) && (x in p.code ==> OnlyKept(p, s'.phis, x, s'.infos[x].definitions))
  {
    if x != what.block {
      assert s'.infos[x] == s.infos[x] by {
        assert Shown(true);
      }
      if x in p.code {
        OnlyKeptGrows(p, s.phis, s'.phis, x, s.infos[x].definitions);
      }
    }
  }

  /** The phi is kept where the block does not overwrite its site. */
  lemma {:induction false} CreatedIsKept(p: Procedure, s: State, s': State, phi: RWNode, what: Phi, sites: seq<DefSite>)
    requires p.Valid() && Created(p, s, s', phi, what, sites) && InfoOk(p, what.block, s.infos[what.block])
    requires phi !in s.phis
    requires OnlyKept(p, s.phis, what.block, s.infos[what.block].definitions) && !GoesPast(sites, what.site)
    ensures OnlyKept(p, s'.phis, what.block, s'.infos[what.block].definitions)
  {
    assert Shown(true);
    var info, info' := s.infos[what.block], s'.infos[what.block];
    OnlyKeptGrows(p, s.phis, s'.phis, what.block, info.definitions);
    forall t, b, x | x in DefsAt(info'.definitions, t, b)
      ensures KeptFor(p, s'.phis, what.block, t, b, x)
    {
      assert DefsAt(info'.definitions, t, b) ==
          Written(DefsAt(info.definitions, t, b), t == what.site.target && InSite(sites, b), phi, false);
      if x in DefsAt(info.definitions, t, b) {
        assert KeptFor(p, s'.phis, what.block, t, b, x);
      } else {
        assert DefsAt(info.kills, t, b) == {} && what.site.Bytes().Has(b);
      }
    }
  }

  lemma {:induction false} MoreDefUse(p: Procedure, s: State, s': State, phi: RWNode)
    requires PreciseDefUse(p, s) && s'.defuse == s.defuse && PhisGrow(s.phis, s'.phis)
    requires forall x :: x in s'.phis ==> x in s.phis || x == phi
    requires phi !in s.phis && phi.RWNode? && phi.id >= p.firstId
    ensures PreciseDefUse(p, s')
  {
    assert phi !in s.defuse;
    forall block, u: nat | block in p.code && u < |p.code[block]|
      ensures UsePrecise(p, s', block, u)
    {
      assert UsePrecise(p, s, block, u);
      if p.code[block][u].node in s.defuse {
        OnlyToUseGrows(p, s.phis, s'.phis, block, u, p.code[block][u].uses, s.defuse[p.code[block][u].node]);
      }
    }
    forall x | x in s'.phis && x in s'.defuse
      ensures OnlyMerged(p, s'.phis, s'.phis[x], s'.defuse[x])
    {
      assert OnlyMerged(p, s.phis, s.phis[x], s.defuse[x]);
      OnlyMergedGrows(p, s.phis, s'.phis, s.phis[x], s.defuse[x]);
    }
  }

  /** The nodes of the procedure are not phi nodes. */
  lemma {:induction false} WritersAreNotPhis(p: Procedure, s: State, block: Node, t: RWNode, b: int, n: RWNode)
    requires p.Valid() && WellFormed(p, s) && p.g.Has(block) && n in LastWriters(p.code[block], t, b)
    ensures n !in s.phis
  {
    LastWritersAre(p.code[block], t, b, n);
    assert SaneCode(p.code[block], p.firstId);
    assert n in s.phis ==> PhiOk(p, n, s.phis[n], s.nextId);
  }

  lemma {:induction false} NoPhiAnswers(p: Procedure, phis: Phis, block: Node, t: RWNode, b: int, nodes: set<RWNode>)
    requires p.Valid() && p.g.Has(block) && Merges(p, block) && !NothingReaches(p, block, t, b)
    requires forall x :: x in nodes ==> !IsPhiFor(phis, x, block, t, b)
    ensures !AnswersStart(p, phis, block, t, b, nodes)
  {
  }

  lemma {:induction false} CreatedPastEndIsUnsound(p: Procedure, s: State, s': State, phi: RWNode, what: Phi,
      sites: seq<DefSite>, b: int)
    requires p.Valid() && WellFormed(p, s) && Created(p, s, s', phi, what, sites) && phi !in s.phis
    requires Merges(p, what.block)
    requires InSite(sites, b) && !what.site.Bytes().Has(b) && !NothingReaches(p, what.block, what.site.target, b)
    ensures !InfoSound(p, s'.phis, what.block, s'.infos[what.block])
  {
    assert Shown(true);
    var t, info, info' := what.site.target, s.infos[what.block], s'.infos[what.block];
    assert BlockOk(p, s, what.block);
    assert DefsAt(info.kills, t, b) == {};
    assert DefsAt(info'.kills, t, b) == Written(DefsAt(info.kills, t, b), true, phi, false);
    assert DefsAt(info'.definitions, t, b) == Written(DefsAt(info.definitions, t, b), true, phi, false);
    forall x | x in DefsAt(info'.definitions, t, b)
      ensures !IsPhiFor(s'.phis, x, what.block, t, b)
    {
      if x != phi {
        WritersAreNotPhis(p, s, what.block, t, b, x);
      }
    }
    NoPhiAnswers(p, s'.phis, what.block, t, b, DefsAt(info'.definitions, t, b));
  }

  /** A phi keeps the definitions of its block sound just when the runs of bytes that it is entered for have no
      byte past the end of its own site that a definition comes to the block for: such a byte counts as
      overwritten from then on although neither the block overwrites it nor a phi of the block was searched
      for it. */
  lemma {:induction false} CreatingIsSoundIff(p: Procedure, s: State, s': State, phi: RWNode, what: Phi,
      sites: seq<DefSite>)
    requires p.Valid() && WellFormed(p, s) && Created(p, s, s', phi, what, sites) && Merges(p, what.block)
    requires InfoSound(p, s.phis, what.block, s.infos[what.block])
    ensures InfoSound(p, s'.phis, what.block, s'.infos[what.block]) <==> !Harms(p, what.block, sites, what.site)
  {
    NewPhi(p, s, phi);
    if Harms(p, what.block, sites, what.site) {
      var b :| InSite(sites, b) && !what.site.Bytes().Has(b) && !NothingReaches(p, what.block, what.site.target, b);
      CreatedPastEndIsUnsound(p, s, s', phi, what, sites, b);
    } else {
      CreatedInfoIsSound(p, s, s', phi, what, sites);
    }
  }

  /** What a set of nodes that are no phi nodes and a phi lead to. */
  lemma {:induction false} LeadsWithPhi(phis: Phis, defuse: DefUses, nodes: set<RWNode>, phi: RWNode, n: RWNode)
    requires (forall x :: x in nodes ==> x !in phis) && n !in nodes && !Leads(phis, defuse, {phi}, n)
    ensures !Leads(phis, defuse, nodes + {phi}, n)
  {
    var all :| {phi} <= all && Expanded(phis, defuse, all) && n !in all;
    assert Expanded(phis, defuse, all + nodes);
  }

  /** A definition that comes to the block for a byte past the end of the site is missed there from then on,
      unless it is found for the bytes of the site as well: it comes to the end of the block, the byte counts
      as overwritten, and what is kept for it does not lead to the definition. */
  lemma {:induction false} DefinitionIsMissed(p: Procedure, s: State, s': State, phi: RWNode, what: Phi,
      sites: seq<DefSite>, b: int, q: Node, n: RWNode, defuse: DefUses)
    requires p.Valid() && WellFormed(p, s) && Created(p, s, s', phi, what, sites)
    requires InSite(sites, b) && p.g.Edge(q, what.block) && ReachesEnd(p, q, n, what.site.target, b)
    requires n !in LastWriters(p.code[what.block], what.site.target, b)
    ensures ReachesEnd(p, what.block, n, what.site.target, b)
    ensures DefsAt(s'.infos[what.block].kills, what.site.target, b) != {}
    ensures Leads(s'.phis, defuse, DefsAt(s'.infos[what.block].definitions, what.site.target, b), n) <==>
      Leads(s'.phis, defuse, {phi}, n)
  {
    assert Shown(true);
    var block, t, info, info' := what.block, what.site.target, s.infos[what.block], s'.infos[what.block];
    NewPhi(p, s, phi);
    assert BlockOk(p, s, block) && DefsAt(info.kills, t, b) == {};
    assert DefsAt(info'.kills, t, b) == Written(DefsAt(info.kills, t, b), true, phi, false);
    assert DefsAt(info'.definitions, t, b) == Written(DefsAt(info.definitions, t, b), true, phi, false);
    ReachesOn(p, q, block, t, b, n);
    forall x | x in LastWriters(p.code[block], t, b)
      ensures x !in s'.phis
    {
      WritersAreNotPhis(p, s, block, t, b, x);
      LastWritersAre(p.code[block], t, b, x);
      assert SaneCode(p.code[block], p.firstId);
    }
    if !Leads(s'.phis, defuse, {phi}, n) {
      LeadsWithPhi(s'.phis, defuse, LastWriters(p.code[block], t, b), phi, n);
    }
  }

  // ---------------------------------------------------------------------------
  // Definitions are recorded for a node

  lemma {:induction false} DefUseIsFree(p: Procedure, s: State, s': State)
    requires p.Valid() && WellFormed(p, s) && s' == s.(defuse := s'.defuse)
    ensures WellFormed(p, s')
  {
    forall x | p.g.Has(x)
      ensures BlockOk(p, s', x)
    {
      assert BlockOk(p, s, x);
    }
    forall x | x in s'.phis
      ensures PhiOk(p, x, s'.phis[x], s'.nextId)
    {
      assert PhiOk(p, x, s.phis[x], s.nextId);
    }
  }

  lemma {:induction false} PhiDone(p: Procedure, s: State, s': State, phi: RWNode, nodes: set<RWNode>,
      pending: set<RWNode>)
    requires p.Valid() && WellFormed(p, s) && WellFormed(p, s') && s' == s.(defuse := s.defuse[phi := nodes])
    requires phi in s.phis && p.g.Has(s.phis[phi].block) && Sound(p, s, pending + {phi})
    requires PhiAnswered(p, s.phis, s.phis[phi], nodes)
    ensures Sound(p, s', pending)
  {
    forall x | x in s'.infos
      ensures InfoSound(p, s'.phis, x, s'.infos[x])
    {
      assert InfoSound(p, s.phis, x, s.infos[x]);
    }
    forall x | x in s'.phis && x !in pending
      ensures PhiSound(p, s'.phis, s'.defuse, x)
    {
      assert x != phi ==> PhiSound(p, s.phis, s.defuse, x);
    }
    forall x, u: nat | p.g.Has(x) && u < |p.code[x]|
      ensures UseSound(p, s'.phis, s'.defuse, x, u)
    {
      assert UseSound(p, s.phis, s.defuse, x, u);
      assert SaneCode(p.code[x], p.firstId);
      assert PhiOk(p, phi, s.phis[phi], s.nextId);
    }
  }

  lemma {:induction false} PhiDoneIsAligned(p: Procedure, s: State, s': State, phi: RWNode, nodes: set<RWNode>)
    requires p.Valid() && WellFormed(p, s) && AlignedState(p, s) && s' == s.(defuse := s.defuse[phi := nodes])
    requires phi in s.phis
    requires OnlyMerged(p, s.phis, s.phis[phi], nodes)
    ensures AlignedState(p, s')
  {
    forall block, u: nat | block in p.code && u < |p.code[block]|
      ensures UsePrecise(p, s', block, u)
    {
      assert UsePrecise(p, s, block, u);
      assert SaneCode(p.code[block], p.firstId);
      assert PhiOk(p, phi, s.phis[phi], s.nextId);
    }
    forall x | x in s'.phis && x in s'.defuse
      ensures OnlyMerged(p, s'.phis, s'.phis[x], s'.defuse[x])
    {
      assert x != phi ==> OnlyMerged(p, s.phis, s.phis[x], s.defuse[x]);
    }
    SameInfos(p, s, s');
  }

  lemma SameInfos(p: Procedure, s: State, s': State)
    requires s'.infos == s.infos && s'.phis == s.phis
    requires PreciseInfos(p, s)
    requires forall block {:trigger AllUniform(p, s.infos[block].kills)} ::
      block in s.infos ==> AllUniform(p, s.infos[block].kills)
    ensures PreciseInfos(p, s')
    ensures forall block {:trigger AllUniform(p, s'.infos[block].kills)} ::
      block in s'.infos ==> AllUniform(p, s'.infos[block].kills)
  {
    forall block | block in s'.infos && block in p.code
      ensures OnlyKept(p, s'.phis, block, s'.infos[block].definitions)
    {
      assert OnlyKept(p, s.phis, block, s.infos[block].definitions);
    }
  }

  lemma {:induction false} UseDoneIsAligned(p: Procedure, s: State, s': State, block: Node, u: nat, nodes: set<RWNode>)
    requires p.Valid() && Unique(p) && WellFormed(p, s) && AlignedState(p, s) && p.g.Has(block) && u < |p.code[block]|
    requires s' == s.(defuse := s.defuse[p.code[block][u].node := nodes])
    requires OnlyToUse(p, s.phis, block, u, p.code[block][u].uses, nodes)
    ensures AlignedState(p, s')
  {
    assert SaneCode(p.code[block], p.firstId);
    forall x, v: nat | x in p.code && v < |p.code[x]|
      ensures UsePrecise(p, s', x, v)
    {
      assert UsePrecise(p, s, x, v);
      assert p.code[x][v].node == p.code[block][u].node ==> x == block && v == u;
    }
    forall x | x in s'.phis && x in s'.defuse
      ensures OnlyMerged(p, s'.phis, s'.phis[x], s'.defuse[x])
    {
      assert SaneCode(p.code[block], p.firstId);
      assert PhiOk(p, x, s.phis[x], s.nextId);
      assert OnlyMerged(p, s.phis, s.phis[x], s.defuse[x]);
    }
    SameInfos(p, s, s');
  }

  /** Node numbers are unique. */
  ghost predicate Unique(p: Procedure)
    requires p.Valid()
  {
    forall x, u: nat, y, v: nat {:trigger p.code[x][u], p.code[y][v]} ::
      p.g.Has(x) && p.g.Has(y) && u < |p.code[x]| && v < |p.code[y]| && p.code[x][u].node == p.code[y][v].node ==>
          x == y && u == v
  }

  lemma {:induction false} UseDone(p: Procedure, s: State, s': State, block: Node, u: nat, nodes: set<RWNode>)
    requires p.Valid() && Unique(p) && WellFormed(p, s) && WellFormed(p, s') && p.g.Has(block) && u < |p.code[block]|
    requires s' == s.(defuse := s.defuse[p.code[block][u].node := nodes])
    requires Sound(p, s, {}) && UseAnswered(p, s.phis, block, u, nodes)
    ensures Sound(p, s', {})
  {
    forall x | x in s'.infos
      ensures InfoSound(p, s'.phis, x, s'.infos[x])
    {
      assert InfoSound(p, s.phis, x, s.infos[x]);
    }
    forall x | x in s'.phis
      ensures PhiSound(p, s'.phis, s'.defuse, x)
    {
      assert PhiSound(p, s.phis, s.defuse, x);
      assert SaneCode(p.code[block], p.firstId);
      assert PhiOk(p, x, s.phis[x], s.nextId);
    }
    forall x, v: nat | p.g.Has(x) && v < |p.code[x]|
      ensures UseSound(p, s'.phis, s'.defuse, x, v)
    {
      assert UseSound(p, s.phis, s.defuse, x, v);
      assert p.code[x][v].node == p.code[block][u].node ==> x == block && v == u;
    }
  }

  lemma SameSpans(p: Procedure, spans: set<Span>, s: State, s': State)
    requires SpanState(p, spans, s) && s'.phis == s.phis && s'.infos == s.infos
    ensures SpanState(p, spans, s')
  {
    assert Opened(true);
  }

  // ---------------------------------------------------------------------------
  // What is left to search

  ghost predicate KillsGrow(info: Info, info': Info) {
    forall t, b {:trigger DefsAt(info'.kills, t, b)} ::
        DefsAt(info'.kills, t, b) == {} ==> DefsAt(info.kills, t, b) == {}
  }

  ghost predicate Grows(s: State, s': State) {
    && PhisGrow(s.phis, s'.phis)
    && forall block {:trigger block in s.infos} {:trigger block in s'.infos} ::
         block in s.infos ==> block in s'.infos && KillsGrow(s.infos[block], s'.infos[block])
  }

  lemma GrowsTwice(s: State, s': State, s'': State)
    requires Grows(s, s') && Grows(s', s'')
    ensures Grows(s, s'')
  {
    forall block | block in s.infos
      ensures block in s''.infos && KillsGrow(s.infos[block], s''.infos[block])
    {
      assert block in s'.infos && KillsGrow(s.infos[block], s'.infos[block]);
      assert block in s''.infos && KillsGrow(s'.infos[block], s''.infos[block]);
    }
  }

  /** A byte of a block where paths join. */
  datatype Spot = Spot(block: Node, byte: int)

  ghost predicate IsOpen(infos: map<Node, Info>, block: Node, t: RWNode, b: int) {
    block in infos ==> DefsAt(infos[block].kills, t, b) == {}
  }

  /** Where a phi for a byte of the target may still be entered. */
  ghost function OpenSpots(p: Procedure, infos: map<Node, Info>, t: RWNode): (spots: set<Spot>)
    ensures forall x :: x in spots <==>
      x.block in p.code && 0 <= x.byte <= UNKNOWN && Merges(p, x.block) && IsOpen(infos, x.block, t, x.byte)
  {
    set block, b | block in p.code.Keys && 0 <= b <= UNKNOWN && Merges(p, block) && IsOpen(infos, block, t, b) ::
        Spot(block, b)
  }

  lemma {:induction false} OpenSpotsShrink(p: Procedure, s: State, s': State, t: RWNode)
    requires p.Valid() && Grows(s, s')
    ensures OpenSpots(p, s'.infos, t) <= OpenSpots(p, s.infos, t)
    ensures |OpenSpots(p, s'.infos, t)| <= |OpenSpots(p, s.infos, t)|
  {
    forall x | x in OpenSpots(p, s'.infos, t)
      ensures x in OpenSpots(p, s.infos, t)
    {
      assert x.block in s.infos ==> KillsGrow(s.infos[x.block], s'.infos[x.block]);
    }
    SubsetSize(OpenSpots(p, s'.infos, t), OpenSpots(p, s.infos, t));
  }

  lemma CreatedKillsMore(p: Procedure, s: State, s': State, phi: RWNode, what: Phi, sites: seq<DefSite>, block: Node)
    requires p.Valid() && Created(p, s, s', phi, what, sites) && block in s.infos
    ensures KillsGrow(s.infos[block], s'.infos[block])
  {
    assert Shown(true);
    if block != what.block {
      assert s'.infos[block] == s.infos[block];
    }
  }

  lemma {:induction false} CreatingGrows(p: Procedure, s: State, s': State, phi: RWNode, what: Phi, sites: seq<DefSite>)
    requires p.Valid() && WellFormed(p, s) && Created(p, s, s', phi, what, sites)
    ensures Grows(s, s') && phi !in s.phis
    ensures forall b :: what.site.Bytes().Has(b) ==> !IsOpen(s'.infos, what.block, what.site.target, b)
  {
    NewPhi(p, s, phi);
    forall block | block in s.infos
      ensures KillsGrow(s.infos[block], s'.infos[block])
    {
      CreatedKillsMore(p, s, s', phi, what, sites, block);
    }
    assert Shown(true);
    forall b | what.site.Bytes().Has(b)
      ensures DefsAt(s'.infos[what.block].kills, what.site.target, b) != {}
    {
      assert DefsAt(s.infos[what.block].kills, what.site.target, b) == {} ==> InSite(sites, b);
    }
  }
}
