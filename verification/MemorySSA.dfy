/** The on-demand search for definitions. Calls, and reads of unknown memory, are not part of it. */
module MemorySSA {
  import opened Graphs
  import opened Guards
  import opened Offsets
  import opened IntervalMaps
  import opened BlockDefinitions
  import opened LocalNumbering
  import opened ReachingDefinitions
  import opened ContainedSearches
  import opened AlignedSites
  import opened ExactAnswers
  import opened SearchState

  class MemorySSATransformation {
    const p: Procedure
    /** The nodes of each block, with the phi nodes created so far in front. */
    var nodes: map<Node, seq<Access>>
    var phis: Phis
    /** The definitions recorded for phi nodes and uses. */
    var defuse: DefUses
    /** The blocks that have been looked at. */
    var infos: map<Node, Info>
    var nextId: nat
    /** A phi has been entered for a byte past the end of its own site that a definition comes to the block for. */
    ghost var overshot: bool

    ghost function Value(): State
      reads this
    {
      State(nodes, phis, defuse, infos, nextId)
    }

    ghost predicate Inv(pending: set<RWNode>)
      reads this
    {
      Coherent(p, Value(), pending, overshot)
    }

    /** What a search does to the state: more is known. */
    twostate predicate Later()
      reads this
    {
      Grows(old(Value()), Value()) && (old(overshot) ==> overshot)
    }

    ghost function Open(t: RWNode): nat
      reads this
    {
      |OpenSpots(p, infos, t)|
    }

    constructor (p: Procedure)
      requires p.Valid()
      ensures this.p == p && Inv({}) && !overshot && infos == map[] && phis == map[] && defuse == map[]
    {
      this.p := p;
      nodes, phis, defuse, infos, nextId, overshot := p.code, map[], map[], map[], p.firstId, false;
      new;
      forall block | p.g.Has(block)
        ensures BlockOk(p, Value(), block)
      {
        assert p.code[block] == [] + p.code[block] && AreFront(p, phis, block, []);
      }
    }

    // -------------------------------------------------------------------------
    // Definitions of a block

    /** The definitions of the block, which are found by local value numbering the first time. */
    method GetBlockDefinitions(block: Node, ghost pending: set<RWNode>)
      requires p.Valid() && Inv(pending) && p.g.Has(block)
      modifies `infos
      ensures Inv(pending) && Later() && block in infos
      ensures block in old(infos) ==> infos == old(infos)
    {
      if block in infos {
        return;
      }
      ghost var s := Value();
      assert Shown(true);
      assert BlockOk(p, s, block);
      assert SaneCode(p.code[block], p.firstId);
      var D := new Definitions();
      PerformLvn(nodes[block], D);
      infos := infos[block := Info(D.definitions, D.kills)];
      NumberingKeeps(p, s, Value(), block, infos[block]);
      if !overshot {
        NumberingIsSound(p, s, Value(), block, infos[block], pending);
      }
      if Aligned(p) {
        NumberingIsAligned(p, s, Value(), block, infos[block]);
      }
      forall spans | Contains(p, spans)
        ensures SpanState(p, spans, Value())
      {
        NumberingIsSpanned(p, spans, s, Value(), block, infos[block]);
      }
    }

    // -------------------------------------------------------------------------
    // Phi nodes

    /** A phi for the site, entered in the definitions of the block for the bytes that are not overwritten. */
    method CreatePhi(block: Node, site: DefSite) returns (phi: RWNode, ghost sites: seq<DefSite>)
      requires p.Valid() && block in infos && ValidDefs(infos[block].definitions) && ValidDefs(infos[block].kills)
      requires Sane(site) && !site.target.UnknownMemory?
      modifies `infos, `phis, `nextId
      ensures phi == RWNode(old(nextId)) && nextId == old(nextId) + 1 && phis == old(phis)[phi := Phi(block, site)]
      ensures infos.Keys == old(infos).Keys
      ensures forall x {:trigger infos[x]} :: x in infos && x != block ==> infos[x] == old(infos)[x]
      ensures ValidDefs(infos[block].definitions) && ValidDefs(infos[block].kills)
      ensures WithPhi(old(infos)[block], infos[block], site.target, sites, phi)
      ensures AreOpen(old(infos)[block].kills, site, sites) && EndInFront(old(infos)[block].kills, site, sites)
      ensures GoesPast(sites, site) <==>
        site.target in old(infos)[block].kills && Overshoots(old(infos)[block].kills[site.target], site.Bytes())
    {
      phi := RWNode(nextId);
      nextId := nextId + 1;
      phis := phis[phi := Phi(block, site)];
      var info;
      info, sites := EnterPhi(infos[block], site, phi);
      infos := infos[block := info];
    }

    /** The phi defines and overwrites what was not overwritten, which was not entered before. */
    static method EnterPhi(info: Info, site: DefSite, phi: RWNode) returns (info': Info, ghost sites: seq<DefSite>)
      requires ValidDefs(info.definitions) && ValidDefs(info.kills) && Sane(site)
      ensures ValidDefs(info'.definitions) && ValidDefs(info'.kills)
      ensures WithPhi(info, info', site.target, sites, phi) && AreOpen(info.kills, site, sites)
      ensures EndInFront(info.kills, site, sites)
      ensures GoesPast(sites, site) <==> site.target in info.kills && Overshoots(info.kills[site.target], site.Bytes())
    {
      var D := new Definitions.From(info.definitions, info.kills);
      var open := D.UncoveredSites(site);
      sites := open;
      for k := 0 to |open|
        invariant D.Valid()
        invariant WithPhi(info, Info(D.definitions, D.kills), site.target, open[..k], phi)
      {
        ghost var before := Info(D.definitions, D.kills);
        NotYetOverwritten(info, before, site, open, k, phi);
        D.Define(open[k], phi);
        WithPhiMore(info, before, Info(D.definitions, D.kills), site.target, open, k, phi);
      }
      assert open[..|open|] == open;
      info' := Info(D.definitions, D.kills);
    }

    /** Where paths join, the phi is put at the start of the block. */
    method PlacePhi(block: Node, site: DefSite) returns (phi: RWNode, ghost sites: seq<DefSite>)
      requires p.Valid() && p.g.Has(block) && |p.g.Preds(block)| != 1
      requires block in infos && block in nodes && Sane(site) && !site.target.UnknownMemory?
      requires ValidDefs(infos[block].definitions) && ValidDefs(infos[block].kills)
      modifies `infos, `phis, `nextId, `nodes, `overshot
      ensures Created(p, old(Value()), Value(), phi, Phi(block, site), sites)
      ensures overshot == (old(overshot) || (Merges(p, block) && Harms(p, block, sites, site)))
    {
      ghost var before := overshot;
      phi, sites := CreatePhi(block, site);
      if |p.g.Preds(block)| > 1 {
        nodes := nodes[block := [Access(phi, [], [site], [])] + nodes[block]];
      }
      overshot := before || (Merges(p, block) && Harms(p, block, sites, site));
    }

    method CreateAndPlacePhi(block: Node, site: DefSite, ghost pending: set<RWNode>) returns (phi: RWNode)
      requires p.Valid() && Inv(pending) && p.g.Has(block) && |p.g.Preds(block)| != 1 && Sane(site)
      requires !site.target.UnknownMemory?
      requires SiteOk(p, site)
      modifies this
      ensures Inv(pending + {phi}) && Later() && defuse == old(defuse)
      ensures phi in phis && phis[phi] == Phi(block, site)
      ensures forall b :: site.Bytes().Has(b) ==> !IsOpen(infos, block, site.target, b)
    {
      ghost var s0 := Value();
      GetBlockDefinitions(block, pending);
      ghost var s := Value();
      phi := CreateKnownPhi(block, site, pending);
      GrowsTwice(s0, s, Value());
    }

    /** The same for a block that has been looked at. */
    method CreateKnownPhi(block: Node, site: DefSite, ghost pending: set<RWNode>) returns (phi: RWNode)
      requires p.Valid() && Inv(pending) && p.g.Has(block) && |p.g.Preds(block)| != 1 && Sane(site)
      requires !site.target.UnknownMemory?
      requires SiteOk(p, site) && block in infos
      modifies this
      ensures Inv(pending + {phi}) && Later() && defuse == old(defuse)
      ensures phi in phis && phis[phi] == Phi(block, site)
      ensures forall b :: site.Bytes().Has(b) ==> !IsOpen(infos, block, site.target, b)
    {
      ghost var s, before := Value(), overshot;
      InfoIsThere(p, s, pending, overshot, block);
      ghost var sites;
      phi, sites := PlacePhi(block, site);
      RecordCreated(p, s, Value(), phi, Phi(block, site), sites, pending, before, overshot);
    }

    // -------------------------------------------------------------------------
    // The search

    /** Definitions of the site at the end of a block. */
    method FindDefinitions(block: Node, ds: DefSite, ghost pending: set<RWNode>, ghost bound: nat)
        returns (defs: set<RWNode>)
      requires p.Valid() && Inv(pending) && p.g.Has(block) && Sane(ds) && !ds.target.UnknownMemory?
      requires Open(ds.target) <= bound && SiteOk(p, ds)
      modifies this
      ensures Inv(pending) && Later()
      ensures EndFound(p, phis, block, ds, defs, overshot)
      decreases 2 * bound, Depth(p.g, p.entry, block), 5
    {
      ghost var s0 := Value();
      var D, known := KnownDefinitions(block, ds, pending);
      ghost var s, before := Value(), overshot;
      OpenSpotsShrink(p, s0, s, ds.target);
      defs := AddUncovered(block, D, ds, known, pending, bound);
      GrowsTwice(s0, s, Value());
      KnownAndSearched(p, s, phis, pending, block, ds, known, defs, before, overshot);
    }

    /** The definitions of the block and what they have for the site. */
    method KnownDefinitions(block: Node, ds: DefSite, ghost pending: set<RWNode>)
        returns (D: Definitions, known: set<RWNode>)
      requires p.Valid() && Inv(pending) && p.g.Has(block) && Sane(ds)
      modifies `infos
      ensures Inv(pending) && Later() && block in infos
      ensures D.Valid() && KillsOk(p, D.kills) && D.kills == infos[block].kills
      ensures forall n {:trigger n in known} :: n in known <==> DefinesSome(infos[block].definitions, ds, n)
    {
      GetBlockDefinitions(block, pending);
      var info := infos[block];
      InfoIsThere(p, Value(), pending, overshot, block);
      D := new Definitions.From(info.definitions, info.kills);
      known := D.Get(ds);
    }

    /** For the bytes of the site that are not overwritten, the search goes on in the predecessors. */
    method AddUncovered(block: Node, D: Definitions, ds: DefSite, known: set<RWNode>, ghost pending: set<RWNode>,
        ghost bound: nat)
      returns (defs: set<RWNode>)
      requires p.Valid() && Inv(pending) && p.g.Has(block) && D.Valid() && Sane(ds) && !ds.target.UnknownMemory?
      requires Open(ds.target) <= bound
      requires SiteOk(p, ds) && KillsOk(p, D.kills)
      requires Room(block, ds.target, D.kills, bound)
      modifies this
      ensures Inv(pending) && Later() && known <= defs
      ensures OpenFound(p, phis, block, D.kills, ds, known, defs, overshot)
      decreases 2 * bound, Depth(p.g, p.entry, block), 4
    {
      var sites := D.UncoveredSites(ds);
      OpenSitesOk(p, D.kills, ds, sites);
      RunsAreAsked(p, D.kills, ds, sites);
      NoSiteSearched(p, phis, block, ds, sites, known, overshot);
      ghost var kills := D.kills;
      ghost var s0, before := Value(), overshot;
      SearchStarts(p, s0, before, block, ds, sites, kills, known, pending, bound);
      defs := SearchSites(block, ds, sites, kills, known, pending, bound);
      SearchIs(p, Value(), overshot, block, ds, sites, |sites|, kills, known, defs, pending, bound, s0, before);
      SitesCoverOpen(p, phis, block, kills, ds, sites, known, defs, overshot);
    }

    /** All runs of bytes that are not overwritten. */
    method SearchSites(block: Node, ds: DefSite, sites: seq<DefSite>, ghost kills: Defs, known: set<RWNode>,
                       ghost pending: set<RWNode>, ghost bound: nat) returns (defs: set<RWNode>)
      requires Reachable(p.g, p.entry, block) && RunsAsked(p, kills, ds, sites)
      requires Searching(p, Value(), overshot, block, ds, sites, 0, kills, known, known, pending, bound,
                         Value(), overshot)
      modifies this
      ensures Searching(p, Value(), overshot, block, ds, sites, |sites|, kills, known, defs, pending, bound,
                        old(Value()), old(overshot))
      decreases 2 * bound, Depth(p.g, p.entry, block), 3
    {
      defs := known;
      ghost var s0, before := Value(), overshot;
      for k := 0 to |sites|
        invariant Searching(p, Value(), overshot, block, ds, sites, k, kills, known, defs, pending, bound, s0, before)
      {
        defs := SearchSite(block, ds, sites, k, kills, known, defs, pending, bound, s0, before);
      }
    }

    /** There is something left to search where paths join, or the block is as it was. */
    ghost predicate Room(block: Node, t: RWNode, kills: Defs, bound: nat)
      reads this
    {
      HasRoom(p, infos, block, t, kills, bound)
    }

    /** One of the runs of bytes that are not overwritten. */
    method SearchSite(block: Node, ds: DefSite, sites: seq<DefSite>, k: nat, ghost kills: Defs,
        ghost known: set<RWNode>, defs: set<RWNode>, ghost pending: set<RWNode>, ghost bound: nat, ghost s0: State,
        ghost first: bool)
        returns (defs': set<RWNode>)
      requires Reachable(p.g, p.entry, block) && k < |sites| && RunsAsked(p, kills, ds, sites)
      requires Searching(p, Value(), overshot, block, ds, sites, k, kills, known, defs, pending, bound, s0, first)
      modifies this
      ensures Searching(p, Value(), overshot, block, ds, sites, k + 1, kills, known, defs', pending, bound, s0, first)
      decreases 2 * bound, Depth(p.g, p.entry, block), 2
    {
      SearchIs(p, Value(), overshot, block, ds, sites, k, kills, known, defs, pending, bound, s0, first);
      ghost var s, before := Value(), overshot;
      RunIsAsked(p, infos, block, kills, ds, sites, k);
      var more := FindDefinitionsInPredecessors(block, sites[k], pending, bound);
      defs' := defs + more;
      SearchGoesOn(p, s, before, Value(), overshot, block, ds, sites, k, kills, known, defs, more, pending, bound,
                   s0, first);
    }

    /** Definitions of the site at the start of a block. */
    method FindDefinitionsInPredecessors(block: Node, ds: DefSite, ghost pending: set<RWNode>, ghost bound: nat)
        returns (defs: set<RWNode>)
      requires p.Valid() && Inv(pending) && p.g.Has(block) && Sane(ds) && !ds.target.UnknownMemory?
      requires Open(ds.target) <= bound && SiteOk(p, ds)
      requires Merges(p, block) ==> Open(ds.target) < bound || OpenByte(p, infos, block, ds)
      modifies this
      ensures Inv(pending) && Later()
      ensures Merges(p, block) ==> Open(ds.target) < bound
      ensures StartFound(p, phis, block, ds, defs, overshot)
      decreases 2 * bound, Depth(p.g, p.entry, block), 1
    {
      if |p.g.Preds(block)| == 1 {
        OnlyPredecessorIsCloser(p.g, p.entry, block, p.g.Preds(block)[0]);
        defs := FindDefinitions(p.g.Preds(block)[0], ds, pending, bound);
        EndIsStart(p, phis, block, ds, defs, overshot);
      } else {
        defs := FindDefinitionsInMultiplePredecessors(block, ds, pending, bound);
      }
    }

    method FindDefinitionsInMultiplePredecessors(block: Node, ds: DefSite, ghost pending: set<RWNode>, ghost bound: nat)
        returns (defs: set<RWNode>)
      requires p.Valid() && Inv(pending) && p.g.Has(block) && Sane(ds) && !ds.target.UnknownMemory?
      requires Open(ds.target) <= bound && SiteOk(p, ds)
      requires |p.g.Preds(block)| != 1
      requires Merges(p, block) ==> Open(ds.target) < bound || OpenByte(p, infos, block, ds)
      modifies this
      ensures Inv(pending) && Later()
      ensures Merges(p, block) ==> Open(ds.target) < bound
      ensures StartFound(p, phis, block, ds, defs, overshot)
      decreases 2 * bound, Depth(p.g, p.entry, block), 0
    {
      defs := {};
      if |p.g.Preds(block)| > 0 {
        ghost var s := Value();
        var phi := CreateAndPlacePhi(block, ds, pending);
        ghost var s' := Value();
        CreatingCloses(p, s, s', block, ds, bound);
        FindPhiDefinitions(phi, pending, bound - 1);
        OpenSpotsShrink(p, s', Value(), ds.target);
        GrowsTwice(s, s', Value());
        assert phi in s'.phis;
        defs := {phi};
        PhiIsThere(p, phis, phi, block, ds, overshot);
      } else if ds.target in p.inputs {
        // an input of the procedure
        var phi := CreateAndPlacePhi(block, ds, pending);
        InputIsDone(p, Value(), phi, pending, overshot);
        defs := {phi};
        PhiIsThere(p, phis, phi, block, ds, overshot);
      } else {
        NothingIsThere(p, phis, block, ds, overshot);
      }
    }

    /** The definitions that the phi merges. */
    method FindPhiDefinitions(phi: RWNode, ghost pending: set<RWNode>, ghost bound: nat)
      requires p.Valid() && Inv(pending + {phi}) && phi in phis && p.g.Has(phis[phi].block)
      requires Merges(p, phis[phi].block) && Open(phis[phi].site.target) <= bound
      modifies this
      ensures Inv(pending) && Later()
      ensures phi in defuse && (PredecessorsOverwrite(p, phis[phi]) ==> OwnMerged(p, phis[phi], defuse[phi]))
      decreases 2 * bound + 1, 0, 2
    {
      PhiIsFit(p, Value(), pending + {phi}, overshot, phi);
      ghost var s0 := Value();
      var defs := SearchPredecessors(phis[phi].block, phis[phi].site, pending + {phi}, bound);
      ghost var s := Value();
      assert phi in s0.phis;
      defuse := defuse[phi := defs];
      MergedIsOwn(p, phis, phis[phi], defs, overshot);
      RecordPhi(p, s, Value(), phi, defs, pending, overshot);
      GrowsTwice(s0, s, Value());
    }

    /** Definitions of the site at the end of every predecessor. */
    method SearchPredecessors(block: Node, site: DefSite, ghost pending: set<RWNode>, ghost bound: nat)
        returns (defs: set<RWNode>)
      requires p.Valid() && Inv(pending) && p.g.Has(block)
      requires forall k :: 0 <= k < |p.g.Preds(block)| ==> p.g.Has(p.g.Preds(block)[k])
      requires Sane(site) && !site.target.UnknownMemory? && SiteOk(p, site) && Open(site.target) <= bound
      modifies this
      ensures Inv(pending) && Later()
      ensures PredecessorsFound(p, phis, Phi(block, site), |p.g.Preds(block)|, defs, overshot)
      decreases 2 * bound + 1, 0, 1
    {
      defs := {};
      ghost var s0 := Value();
      NoPredecessorSearched(p, phis, Phi(block, site), overshot);
      for k := 0 to |p.g.Preds(block)|
        invariant Inv(pending) && Later() && Open(site.target) <= bound
        invariant PredecessorsFound(p, phis, Phi(block, site), k, defs, overshot)
      {
        ghost var s := Value();
        defs := SearchPredecessor(block, site, k, defs, pending, bound);
        GrowsTwice(s0, s, Value());
      }
    }

    /** One of the predecessors that the phi merges. */
    method SearchPredecessor(block: Node, site: DefSite, k: nat, defs: set<RWNode>, ghost pending: set<RWNode>,
        ghost bound: nat)
      returns (defs': set<RWNode>)
      requires p.Valid() && Inv(pending) && p.g.Has(block) && k < |p.g.Preds(block)| && p.g.Has(p.g.Preds(block)[k])
      requires Sane(site) && !site.target.UnknownMemory? && SiteOk(p, site) && Open(site.target) <= bound
      requires PredecessorsFound(p, phis, Phi(block, site), k, defs, overshot)
      modifies this
      ensures Inv(pending) && Later() && Open(site.target) <= bound
      ensures PredecessorsFound(p, phis, Phi(block, site), k + 1, defs', overshot)
      decreases 2 * bound + 1, 0, 0
    {
      ghost var s, before := Value(), overshot;
      var more := FindDefinitions(p.g.Preds(block)[k], site, pending, bound);
      defs' := defs + more;
      OpenSpotsShrink(p, s, Value(), site.target);
      PredecessorSearched(p, s.phis, phis, Phi(block, site), k, defs, more, before, overshot);
    }

    // -------------------------------------------------------------------------
    // Uses

    /** Local value numbering of the nodes in front of a node. */
    method FindDefinitionsInBlock(block: Node, to: RWNode) returns (D: Definitions, ghost k: nat)
      requires block in nodes
      requires forall k {:trigger nodes[block][k]} :: 0 <= k < |nodes[block]| ==> SaneAccess(nodes[block][k])
      ensures fresh(D) && D.Valid()
      ensures k <= |nodes[block]| && Numbered(nodes[block][..k], D.definitions, D.kills)
      ensures Tame(nodes[block]) ==> D.unknownWrites == []
      ensures k < |nodes[block]| ==> nodes[block][k].node == to
      ensures forall j :: 0 <= j < k ==> nodes[block][j].node != to
    {
      D := new Definitions();
      NumberedNothing();
      k := 0;
      for i := 0 to |nodes[block]|
        invariant fresh(D) && D.Valid() && k == i
        invariant Numbered(nodes[block][..i], D.definitions, D.kills)
        invariant Tame(nodes[block]) ==> D.unknownWrites == []
        invariant forall j :: 0 <= j < i ==> nodes[block][j].node != to
      {
        var a := nodes[block][i];
        if a.node == to {
          break;
        }
        ghost var definitions, kills := D.definitions, D.kills;
        D.Update(a, a.node);
        NoneIsEmpty(D.unknownWrites);
        NumberedMore(nodes[block][..i], a, definitions, kills, D.definitions, D.kills);
        assert nodes[block][..i + 1] == nodes[block][..i] + [a];
        k := i + 1;
      }
    }

    /** Definitions of all that the node at u reads. */
    method FindDefinitionsOfUse(block: Node, u: nat) returns (defs: set<RWNode>)
      requires p.Valid() && Inv({}) && Unique(p) && p.g.Has(block) && u < |p.code[block]|
      modifies this
      ensures Inv({}) && Later()
      ensures UsesFound(p, phis, block, u, |p.code[block][u].uses|, defs, overshot)
    {
      FrontIsSane(p, Value(), overshot, block);
      var D, k := FindDefinitionsInBlock(block, p.code[block][u].node);
      LocalIsOk(p, Value(), overshot, block, u, k, D.definitions, D.kills);
      defs := {};
      var uses := p.code[block][u].uses;
      ghost var s0, definitions, kills := Value(), D.definitions, D.kills;
      NoUseSearched(p, phis, block, u, overshot);
      for i := 0 to |uses|
        invariant Inv({}) && Later()
        invariant D.Valid() && D.definitions == definitions && D.kills == kills && D.unknownWrites == [] && fresh(D)
        invariant UsesFound(p, phis, block, u, i, defs, overshot)
      {
        ghost var s, defs0, before := Value(), defs, overshot;
        UseIsSane(p, block, u, i);
        UseIsSite(p, block, u, i);
        var known := D.Get(uses[i]);
        defs := AddUncovered(block, D, uses[i], defs + known, {}, Open(uses[i].target) + 1);
        GrowsTwice(s0, s, Value());
        UseSearched(p, s0.phis, s.phis, phis, block, u, i, definitions, kills, defs0, known, defs, before, overshot);
      }
    }

    // -------------------------------------------------------------------------
    // Answers without phi nodes

    /** Adds what the phi merges, directly or not; phi nodes that have been visited are not visited again. */
    method RecGatherNonPhisDefs(phi: RWNode, visited: set<RWNode>, ret: set<RWNode>)
        returns (visited': set<RWNode>, ret': set<RWNode>)
      requires phi in phis && visited <= phis.Keys
      ensures visited + {phi} <= visited' <= phis.Keys && ret <= ret'
      ensures Expands(phis, defuse, visited' - visited, visited', ret')
      ensures forall n {:trigger n in ret'} :: n in ret' && n !in ret ==> n !in phis && Leads(phis, defuse, {phi}, n)
      decreases |phis.Keys - visited|, 1
    {
      if phi in visited {
        return visited, ret;
      }
      visited', ret' := visited + {phi}, ret;
      FewerLeft(phis.Keys, visited, phi);
      if phi in defuse {
        visited', ret' := GatherFrom(defuse[phi], visited', ret');
        LeadsThrough(phis, defuse, phi);
      }
    }

    /** The same from several nodes. */
    method GatherFrom(from: set<RWNode>, visited: set<RWNode>, ret: set<RWNode>)
        returns (visited': set<RWNode>, ret': set<RWNode>)
      requires visited <= phis.Keys
      ensures visited <= visited' <= phis.Keys && ret <= ret'
      ensures Taken(phis, from, visited', ret') && Expands(phis, defuse, visited' - visited, visited', ret')
      ensures forall n {:trigger n in ret'} :: n in ret' && n !in ret ==> n !in phis && Leads(phis, defuse, from, n)
      decreases |phis.Keys - visited|, 2
    {
      visited', ret' := visited, ret;
      var left := from;
      while left != {}
        invariant left <= from && visited <= visited' <= phis.Keys && ret <= ret'
        invariant Taken(phis, from - left, visited', ret') && Expands(phis, defuse, visited' - visited, visited', ret')
        invariant forall n {:trigger n in ret'} :: n in ret' && n !in ret ==> n !in phis && Leads(phis, defuse, from, n)
        decreases |left|
      {
        var n :| n in left;
        left := left - {n};
        ghost var v, r := visited', ret';
        if n !in phis {
          ret' := ret' + {n};
        } else {
          LeftShrinks(phis.Keys, visited, visited');
          visited', ret' := RecGatherNonPhisDefs(n, visited', ret');
          LeadsFromMore(phis, defuse, n, from);
          ExpandsMore(phis, defuse, visited, v, visited', r, ret');
        }
      }
    }

    /** All nodes that are not phi nodes among the given ones and what they merge. */
    method GatherNonPhisDefs(from: set<RWNode>) returns (ret: set<RWNode>)
      ensures forall n {:trigger n in ret} :: n in ret <==> n !in phis && Leads(phis, defuse, from, n)
    {
      var visited;
      visited, ret := GatherFrom(from, {}, {});
      forall n | n !in phis && Leads(phis, defuse, from, n)
        ensures n in ret
      {
        AllGathered(phis, defuse, from, visited, ret, n);
      }
    }

    /** The definitions of what the node at u of the block reads, whatever has been asked for before. */
    method GetDefinitions(block: Node, u: nat) returns (defs: set<RWNode>)
      requires p.Valid() && Inv({}) && Unique(p) && p.g.Has(block) && u < |p.code[block]|
      modifies this
      ensures Inv({}) && Later()
      ensures forall n :: n in defs ==> n !in phis
      ensures !overshot ==> AllFound(p, block, u, defs) && AllCarriedFound(p, block, u, defs)
      ensures Contained(p) ==> !overshot
      ensures Aligned(p) ==> !overshot && forall n :: n in defs <==> ReachesSomeUse(p, block, u, n)
      ensures Aligned(p) ==> forall n :: n in defs <==> CarriedToUse(p, block, u, n)
    {
      var use := p.code[block][u].node;
      if use !in defuse {
        var found := FindDefinitionsOfUse(block, u);
        ghost var s := Value();
        defuse := defuse[use := found];
        RecordUse(p, s, Value(), block, u, found, overshot);
        GrowsTwice(old(Value()), s, Value());
      }
      defs := GatherNonPhisDefs(defuse[use]);
      if !overshot {
        GatheredIsAll(p, Value(), block, u, defs);
        CarriedIsFound(p, block, u, defs);
      }
      if Aligned(p) {
        GatheredIsExact(p, Value(), overshot, block, u, defs);
        ReachingIsCarried(p, block, u);
      }
      if spans :| Contains(p, spans) {
        CoherentIsSpanned(p, Value(), {}, overshot, spans);
      }
    }
  }

  /** Every definition of every byte that the node at u reads, on every path, is in the set. */
  ghost predicate AllFound(p: Procedure, block: Node, u: nat, defs: set<RWNode>)
    requires p.Valid() && p.g.Has(block) && u < |p.code[block]|
  {
    forall k, b, n {:trigger ReachesUse(p, block, u, n, p.code[block][u].uses[k].target, b)} ::
      0 <= k < |p.code[block][u].uses| && p.code[block][u].uses[k].Bytes().Has(b) ==>
        ReachesUse(p, block, u, n, p.code[block][u].uses[k].target, b) ==> n in defs
  }

  /** Every write to a byte that the node at u reads is in the set if control can come from it to the node without
      the byte being overwritten for certain. */
  ghost predicate AllCarriedFound(p: Procedure, block: Node, u: nat, defs: set<RWNode>)
    requires p.Valid() && p.g.Has(block) && u < |p.code[block]|
  {
    forall path, k: nat, t, b {:trigger Carries(p, path, k, u, t, b)} ::
      Carries(p, path, k, u, t, b) && path[|path| - 1] == block && HasByteOf(p.code[block][u].uses, t, b) ==>
        p.code[path[0]][k].node in defs
  }

  /** The node writes a byte that the node at u reads, and control can come from it to that node without the byte
      being overwritten for certain. */
  ghost predicate CarriedToUse(p: Procedure, block: Node, u: nat, n: RWNode)
    requires p.Valid() && p.g.Has(block) && u < |p.code[block]|
  {
    exists path, k: nat, t, b :: Carries(p, path, k, u, t, b) && path[|path| - 1] == block &&
                                 HasByteOf(p.code[block][u].uses, t, b) && p.code[path[0]][k].node == n
  }

  lemma {:induction false} ReachingIsCarried(p: Procedure, block: Node, u: nat)
    requires p.Valid() && p.g.Has(block) && u < |p.code[block]|
    ensures forall n :: ReachesSomeUse(p, block, u, n) <==> CarriedToUse(p, block, u, n)
  {
    assert SaneCode(p.code[block], p.firstId);
    var uses := p.code[block][u].uses;
    forall n
      ensures ReachesSomeUse(p, block, u, n) <==> CarriedToUse(p, block, u, n)
    {
      if j, b :| 0 <= j < |uses| && uses[j].Bytes().Has(b) && ReachesUse(p, block, u, n, uses[j].target, b) {
        SiteCovers(uses[j], uses[j].target, b);
        var path, k := ReachesIsCarried(p, block, u, n, uses[j].target, b);
      }
      if path, k: nat, t, b :|
        Carries(p, path, k, u, t, b) && path[|path| - 1] == block && HasByteOf(uses, t, b) &&
        p.code[path[0]][k].node == n
      {
        var j :| 0 <= j < |uses| && HasByte(uses[j], t, b);
        SiteCovers(uses[j], t, b);
        CarriedReaches(p, path, k, u, t, b);
      }
    }
  }

  lemma {:induction false} CarriedIsFound(p: Procedure, block: Node, u: nat, defs: set<RWNode>)
    requires p.Valid() && p.g.Has(block) && u < |p.code[block]| && AllFound(p, block, u, defs)
    ensures AllCarriedFound(p, block, u, defs)
  {
    assert SaneCode(p.code[block], p.firstId);
    var uses := p.code[block][u].uses;
    forall path, k: nat, t, b {:trigger Carries(p, path, k, u, t, b)} |
      Carries(p, path, k, u, t, b) && path[|path| - 1] == block && HasByteOf(uses, t, b)
      ensures p.code[path[0]][k].node in defs
    {
      var j :| 0 <= j < |uses| && HasByte(uses[j], t, b);
      SiteCovers(uses[j], t, b);
      CarriedReaches(p, path, k, u, t, b);
    }
  }

  /** A write at the unknown offset is found by a read of any byte of its target that it comes to. */
  lemma {:induction false} StretchedIsFound(p: Procedure, block: Node, u: nat, defs: set<RWNode>, path: seq<Node>,
      k: nat, w: DefSite, read: DefSite, b: int)
    requires p.Valid() && p.g.Has(block) && u < |p.code[block]| && AllCarriedFound(p, block, u, defs)
    requires path != [] && path[|path| - 1] == block && path[0] in p.code && k < |p.code[path[0]]|
    requires w in p.code[path[0]][k].defines && w.offset == UNKNOWN
    requires read in p.code[block][u].uses && read.target == w.target
    requires read.offset < UNKNOWN && 0 < read.len < UNKNOWN
    requires read.offset <= b < read.offset + read.len && b <= UNKNOWN
    requires forall i {:trigger path[i]} :: 0 <= i < |path| ==> path[i] in p.code
    requires forall i {:trigger path[i]} :: 0 < i < |path| ==> p.g.Edge(path[i - 1], path[i])
    requires |path| == 1 ==> k < u
    requires forall i, j ::
      0 <= i < |path| && (i == 0 ==> k < j) && (i == |path| - 1 ==> j < u) && 0 <= j < |p.code[path[i]]| ==>
        !HasByteOf(p.code[path[i]][j].overwrites, w.target, b)
    ensures p.code[path[0]][k].node in defs
  {
    var i :| 0 <= i < |p.code[path[0]][k].defines| && p.code[path[0]][k].defines[i] == w;
    assert HasByte(p.code[path[0]][k].defines[i], w.target, b);
    var j :| 0 <= j < |p.code[block][u].uses| && p.code[block][u].uses[j] == read;
    assert HasByte(p.code[block][u].uses[j], w.target, b);
    assert Carries(p, path, k, u, w.target, b);
  }

  /** A definition of some byte that the node at u reads reaches it. */
  ghost predicate ReachesSomeUse(p: Procedure, block: Node, u: nat, n: RWNode)
    requires p.Valid() && p.g.Has(block) && u < |p.code[block]|
  {
    exists k, b :: 0 <= k < |p.code[block][u].uses| && p.code[block][u].uses[k].Bytes().Has(b) &&
                   ReachesUse(p, block, u, n, p.code[block][u].uses[k].target, b)
  }

  lemma AllSameSpans(p: Procedure, s: State, s': State, overshot: bool)
    requires forall spans {:trigger Contains(p, spans)} :: Contains(p, spans) ==> !overshot && SpanState(p, spans, s)
    requires s'.phis == s.phis && s'.infos == s.infos
    ensures forall spans {:trigger Contains(p, spans)} :: Contains(p, spans) ==> !overshot && SpanState(p, spans, s')
  {
    forall spans | Contains(p, spans)
      ensures SpanState(p, spans, s')
    {
      SameSpans(p, spans, s, s');
    }
  }

  lemma {:induction false} RecordUse(p: Procedure, s: State, s': State, block: Node, u: nat, defs: set<RWNode>,
      overshot: bool)
    requires p.Valid() && Coherent(p, s, {}, overshot) && Unique(p) && p.g.Has(block) && u < |p.code[block]|
    requires s' == s.(defuse := s.defuse[p.code[block][u].node := defs])
    requires UsesFound(p, s.phis, block, u, |p.code[block][u].uses|, defs, overshot)
    ensures Coherent(p, s', {}, overshot) && Grows(s, s')
  {
    assert Shown(true);
    DefUseIsFree(p, s, s');
    var uses := p.code[block][u].uses;
    assert uses[..|uses|] == uses;
    if !overshot {
      assert UsesAnswered(p, s.phis, block, u, uses, defs);
      UseDone(p, s, s', block, u, defs);
    }
    if Aligned(p) {
      UseDoneIsAligned(p, s, s', block, u, defs);
    }
    AllSameSpans(p, s, s', overshot);
  }

  lemma {:induction false} SoundIsAnswered(p: Procedure, s: State)
    requires p.Valid() && WellFormed(p, s) && Sound(p, s, {})
    ensures AllAnswered(p, s.phis, s.defuse)
  {
    forall phi | phi in s.phis
      ensures p.g.Has(s.phis[phi].block)
      ensures |p.g.Preds(s.phis[phi].block)| > 1 ==>
        phi in s.defuse && PhiAnswered(p, s.phis, s.phis[phi], s.defuse[phi])
    {
      assert PhiOk(p, phi, s.phis[phi], s.nextId) && PhiSound(p, s.phis, s.defuse, phi);
    }
  }

  /** What reaches a use is a node of the procedure. */
  lemma {:induction false} ReachingIsNoPhi(p: Procedure, s: State, block: Node, u: nat, n: RWNode, t: RWNode, b: int)
    requires p.Valid() && WellFormed(p, s) && p.g.Has(block) && u <= |p.code[block]| && ReachesUse(p, block, u, n, t, b)
    ensures n !in s.phis
  {
    assert n in s.phis ==> PhiOk(p, n, s.phis[n], s.nextId);
    if k: nat :|
      k < u && p.code[block][k].node == n && Writes(p.code[block][k], t, b) &&
      NotOverwritten(p.code[block][..u], k, t, b)
    {
      assert SaneCode(p.code[block], p.firstId);
    } else {
      var q :| p.g.Edge(q, block) && ReachesEnd(p, q, n, t, b);
      var path, k: nat :| Flows(p, path, k, t, b) && path[|path| - 1] == q && p.code[path[0]][k].node == n;
      assert SaneCode(p.code[path[0]], p.firstId);
    }
  }

  lemma {:induction false} GatheredIsAll(p: Procedure, s: State, block: Node, u: nat, defs: set<RWNode>)
    requires p.Valid() && Coherent(p, s, {}, false) && p.g.Has(block) && u < |p.code[block]|
    requires p.code[block][u].node in s.defuse
    requires forall n {:trigger n in defs} ::
      n in defs <==> n !in s.phis && Leads(s.phis, s.defuse, s.defuse[p.code[block][u].node], n)
    ensures AllFound(p, block, u, defs)
  {
    assert Shown(true);
    SoundIsAnswered(p, s);
    var a := p.code[block][u];
    assert UseSound(p, s.phis, s.defuse, block, u);
    forall k, b, n | 0 <= k < |a.uses| && a.uses[k].Bytes().Has(b) && ReachesUse(p, block, u, n, a.uses[k].target, b)
      ensures n in defs
    {
      assert AnswersUse(p, s.phis, block, u, a.uses[k].target, b, s.defuse[a.node]);
      UsesAreSound(p, s.phis, s.defuse, block, u, n, a.uses[k].target, b, s.defuse[a.node]);
      ReachingIsNoPhi(p, s, block, u, n, a.uses[k].target, b);
    }
  }

  /** In an aligned procedure what is gathered is what reaches, and nothing else. */
  lemma {:induction false} GatheredIsExact(p: Procedure, s: State, overshot: bool, block: Node, u: nat,
      defs: set<RWNode>)
    requires p.Valid() && Coherent(p, s, {}, overshot) && Aligned(p)
    requires p.g.Has(block) && u < |p.code[block]| && p.code[block][u].node in s.defuse
    requires forall n {:trigger n in defs} ::
      n in defs <==> n !in s.phis && Leads(s.phis, s.defuse, s.defuse[p.code[block][u].node], n)
    requires !overshot ==> AllFound(p, block, u, defs)
    ensures !overshot && forall n :: n in defs <==> ReachesSomeUse(p, block, u, n)
  {
    assert Shown(true);
    var use := p.code[block][u];
    forall phi | phi in s.phis
      ensures phi.RWNode? && phi.id >= p.firstId
    {
      assert PhiOk(p, phi, s.phis[phi], s.nextId);
    }
    assert UsePrecise(p, s, block, u);
    forall n | n in defs
      ensures ReachesSomeUse(p, block, u, n)
    {
      LedComes(p, s.phis, s.defuse, block, u, use.uses, s.defuse[use.node], n);
      var k :| 0 <= k < |use.uses| && ComesToUse(p, s.phis, block, u, use.uses[k].target, use.uses[k].Bytes(), n);
      ComesIsReaching(p, s.phis, block, u, use.uses[k].target, use.uses[k].Bytes(), n);
    }
    forall n | ReachesSomeUse(p, block, u, n)
      ensures n in defs
    {
      assert AllFound(p, block, u, defs);
    }
  }

  // ---------------------------------------------------------------------------
  // Gathering

  /** Phi nodes have been visited, others are among the results. */
  ghost predicate Taken(phis: Phis, nodes: set<RWNode>, visited: set<RWNode>, ret: set<RWNode>) {
    forall n :: n in nodes ==> if n in phis then n in visited else n in ret
  }

  /** What these phi nodes merge has been taken. */
  ghost predicate Expands(phis: Phis, defuse: DefUses, these: set<RWNode>, visited: set<RWNode>, ret: set<RWNode>) {
    forall phi :: phi in these && phi in defuse ==> Taken(phis, defuse[phi], visited, ret)
  }

  lemma TakenMore(phis: Phis, nodes: set<RWNode>, v: set<RWNode>, v': set<RWNode>, r: set<RWNode>, r': set<RWNode>)
    requires Taken(phis, nodes, v, r) && v <= v' && r <= r'
    ensures Taken(phis, nodes, v', r')
  {
  }

  lemma {:induction false} ExpandsMore(phis: Phis, defuse: DefUses, visited: set<RWNode>, v: set<RWNode>,
      v': set<RWNode>, r: set<RWNode>, r': set<RWNode>)
    requires Expands(phis, defuse, v - visited, v, r) && Expands(phis, defuse, v' - v, v', r') && v <= v' && r <= r'
    ensures Expands(phis, defuse, v' - visited, v', r')
  {
    forall phi | phi in v' - visited && phi in defuse
      ensures Taken(phis, defuse[phi], v', r')
    {
      if phi in v {
        TakenMore(phis, defuse[phi], v, v', r, r');
      }
    }
  }

  lemma FewerLeft(all: set<RWNode>, visited: set<RWNode>, x: RWNode)
    requires x in all && x !in visited
    ensures |all - (visited + {x})| < |all - visited|
  {
    StrictSubset(all - (visited + {x}), all - visited);
  }

  lemma LeftShrinks(all: set<RWNode>, visited: set<RWNode>, visited': set<RWNode>)
    requires visited <= visited'
    ensures |all - visited'| <= |all - visited|
  {
    SubsetSize(all - visited', all - visited);
  }

  /** What is led to from the nodes that a phi merges is led to from the phi. */
  lemma {:induction false} LeadsThrough(phis: Phis, defuse: DefUses, phi: RWNode)
    requires phi in phis && phi in defuse
    ensures forall n {:trigger Leads(phis, defuse, {phi}, n)} ::
      Leads(phis, defuse, defuse[phi], n) ==> Leads(phis, defuse, {phi}, n)
  {
  }

  lemma {:induction false} LeadsFromMore(phis: Phis, defuse: DefUses, x: RWNode, from: set<RWNode>)
    requires x in from
    ensures forall n {:trigger Leads(phis, defuse, from, n)} ::
      Leads(phis, defuse, {x}, n) ==> Leads(phis, defuse, from, n)
  {
  }

  lemma {:induction false} AllGathered(phis: Phis, defuse: DefUses, from: set<RWNode>, visited: set<RWNode>,
      ret: set<RWNode>, n: RWNode)
    requires Taken(phis, from, visited, ret) && Expands(phis, defuse, visited, visited, ret) && visited <= phis.Keys
    requires forall m :: m in ret ==> m !in phis
    requires n !in phis && Leads(phis, defuse, from, n)
    ensures n in ret
  {
    var all := visited + ret;
    assert from <= all;
    assert Expanded(phis, defuse, all);
  }

  /** In the definitions found by numbering the block up to u, a byte counts as overwritten if it is, and
      otherwise only if a phi of the block is among its definitions; besides the last writers they have
      only phi nodes of the block, and these only for bytes that are not overwritten. */
  ghost predicate LocalOk(p: Procedure, phis: Phis, block: Node, u: nat, definitions: Defs, kills: Defs)
    requires p.Valid() && p.g.Has(block) && u <= |p.code[block]|
  {
    forall t, b {:trigger DefsAt(definitions, t, b)} {:trigger DefsAt(kills, t, b)} ::
      LocalByteOk(p, phis, block, u, t, b, DefsAt(definitions, t, b), DefsAt(kills, t, b))
  }

  ghost predicate LocalByteOk(p: Procedure, phis: Phis, block: Node, u: nat, t: RWNode, b: int, nodes: set<RWNode>,
      killers: set<RWNode>)
    requires p.Valid() && p.g.Has(block) && u <= |p.code[block]|
  {
    && LastWriters(p.code[block][..u], t, b) <= nodes
    && (Killed(p.code[block][..u], t, b) ==> killers != {})
    && (killers != {} ==> Killed(p.code[block][..u], t, b) || AnswersStart(p, phis, block, t, b, nodes))
    && (forall x {:trigger x in nodes} :: x in nodes ==> LocallyKept(p, phis, block, u, t, b, x))
  }

  ghost predicate LocallyKept(p: Procedure, phis: Phis, block: Node, u: nat, t: RWNode, b: int, x: RWNode)
    requires p.Valid() && p.g.Has(block) && u <= |p.code[block]|
  {
    x in LastWriters(p.code[block][..u], t, b) || (IsPhiFor(phis, x, block, t, b) && !Killed(p.code[block][..u], t, b))
  }

  lemma {:induction false} FrontIsSane(p: Procedure, s: State, overshot: bool, block: Node)
    requires p.Valid() && Coherent(p, s, {}, overshot) && p.g.Has(block)
    ensures block in s.nodes
    ensures forall k {:trigger s.nodes[block][k]} :: 0 <= k < |s.nodes[block]| ==> SaneAccess(s.nodes[block][k])
    ensures Tame(s.nodes[block])
  {
    CoherentIsFormed(p, s, {}, overshot);
    assert BlockOk(p, s, block);
    var front :| s.nodes[block] == front + p.code[block] && AreFront(p, s.phis, block, front);
    forall k {:trigger s.nodes[block][k]} | 0 <= k < |s.nodes[block]|
      ensures SaneAccess(s.nodes[block][k]) && !Wild(s.nodes[block][k])
    {
      if k < |front| {
        PhiIsSane(p, s, block, front, k);
      } else {
        assert s.nodes[block][k] == p.code[block][k - |front|] && SaneCode(p.code[block], p.firstId);
      }
    }
  }

  lemma PhiIsSane(p: Procedure, s: State, block: Node, front: seq<Access>, k: nat)
    requires p.Valid() && WellFormed(p, s) && p.g.Has(block) && AreFront(p, s.phis, block, front) && k < |front|
    ensures SaneAccess(front[k]) && !Wild(front[k])
  {
    assert front[k].node in s.phis;
    assert PhiOk(p, front[k].node, s.phis[front[k].node], s.nextId);
  }

  lemma UseIsSane(p: Procedure, block: Node, u: nat, i: nat)
    requires p.Valid() && p.g.Has(block) && u < |p.code[block]| && i < |p.code[block][u].uses|
    ensures Sane(p.code[block][u].uses[i]) && !p.code[block][u].uses[i].target.UnknownMemory?
  {
    assert SaneCode(p.code[block], p.firstId);
  }

  /** The node is found behind the phi nodes, at its own place. */
  lemma {:induction false} PlaceOfUse(p: Procedure, s: State, block: Node, front: seq<Access>, u: nat, k: nat)
    requires p.Valid() && Unique(p) && WellFormed(p, s) && p.g.Has(block) && u < |p.code[block]|
    requires s.nodes.Keys >= {block} && s.nodes[block] == front + p.code[block] && AreFront(p, s.phis, block, front)
    requires k <= |s.nodes[block]| && (k < |s.nodes[block]| ==> s.nodes[block][k].node == p.code[block][u].node)
    requires forall j :: 0 <= j < k ==> s.nodes[block][j].node != p.code[block][u].node
    ensures s.nodes[block][..k] == front + p.code[block][..u]
  {
    var list := s.nodes[block];
    assert list[|front| + u] == p.code[block][u];
    assert SaneCode(p.code[block], p.firstId);
    forall j | 0 <= j < |front|
      ensures list[j].node != p.code[block][u].node
    {
      assert list[j] == front[j];
      assert PhiOk(p, front[j].node, s.phis[front[j].node], s.nextId);
    }
    assert |front| <= k < |list| ==> list[k] == p.code[block][k - |front|];
  }

  lemma {:induction false} LocalIsOk(p: Procedure, s: State, overshot: bool, block: Node, u: nat, k: nat,
      definitions: Defs, kills: Defs)
    requires p.Valid() && Coherent(p, s, {}, overshot) && Unique(p) && p.g.Has(block) && u < |p.code[block]|
    requires block in s.nodes
    requires k <= |s.nodes[block]| && (k < |s.nodes[block]| ==> s.nodes[block][k].node == p.code[block][u].node)
    requires forall j :: 0 <= j < k ==> s.nodes[block][j].node != p.code[block][u].node
    requires Numbered(s.nodes[block][..k], definitions, kills)
    ensures LocalOk(p, s.phis, block, u, definitions, kills) && KillsOk(p, kills)
    ensures (Aligned(p) ==> PhisAreSites(p, s.phis))
  {
    CoherentIsFormed(p, s, {}, overshot);
    var front := NodesBefore(p, s, block, u, k);
    AllBehindFront(p, s.phis, block, front, u, definitions, kills);
    if Aligned(p) {
      CoherentIsAligned(p, s, {}, overshot);
      FrontWritesSites(p, s, block, front, u);
      NumberedIsUniform(p, front + p.code[block][..u], definitions, kills);
    }
    forall spans | Contains(p, spans)
      ensures KillsCount(p, spans, kills)
    {
      CoherentIsSpanned(p, s, {}, overshot, spans);
      PhisAreKnown(p, s);
      FrontIsSpanned(p, spans, s, block, front, u, definitions, kills);
    }
  }

  /** In front of the node at u there are phi nodes and the nodes of the block before it. */
  lemma {:induction false} NodesBefore(p: Procedure, s: State, block: Node, u: nat, k: nat) returns (front: seq<Access>)
    requires p.Valid() && WellFormed(p, s) && Unique(p) && p.g.Has(block) && u < |p.code[block]| && block in s.nodes
    requires k <= |s.nodes[block]| && (k < |s.nodes[block]| ==> s.nodes[block][k].node == p.code[block][u].node)
    requires forall j :: 0 <= j < k ==> s.nodes[block][j].node != p.code[block][u].node
    ensures AreFront(p, s.phis, block, front) && s.nodes[block][..k] == front + p.code[block][..u]
    ensures Tame(p.code[block][..u])
  {
    assert BlockOk(p, s, block) && SaneCode(p.code[block], p.firstId);
    front :| s.nodes[block] == front + p.code[block] && AreFront(p, s.phis, block, front);
    PlaceOfUse(p, s, block, front, u, k);
  }

  lemma {:induction false} FrontIsSpanned(p: Procedure, spans: set<Span>, s: State, block: Node, front: seq<Access>,
      u: nat, definitions: Defs, kills: Defs)
    requires p.Valid() && p.g.Has(block) && u <= |p.code[block]| && AreFront(p, s.phis, block, front)
    requires SpanState(p, spans, s) && Numbered(front + p.code[block][..u], definitions, kills) && PhisKnown(s.phis)
    ensures KillsCount(p, spans, kills)
  {
    var entered := set k | 0 <= k < |front| :: SpanOf(s.phis[front[k].node].site);
    assert entered <= spans by {
      assert Opened(true);
      assert forall k :: 0 <= k < |front| ==> front[k].node in s.phis;
    }
    forall t, b
      ensures Killed(front, t, b) <==> InSpans(entered, t, b)
    {
      FrontKills(p, s.phis, block, front, entered, t, b);
    }
    FrontCounts(front, p.code[block][..u], spans, entered, definitions, kills);
  }

  lemma PhisAreKnown(p: Procedure, s: State)
    requires p.Valid() && WellFormed(p, s)
    ensures PhisKnown(s.phis)
  {
    forall phi | phi in s.phis
      ensures !s.phis[phi].site.target.UnknownMemory?
    {
      assert PhiOk(p, phi, s.phis[phi], s.nextId);
    }
  }

  /** Sites of phi nodes are in known memory. */
  ghost predicate PhisKnown(phis: Phis) {
    forall phi {:trigger phis[phi]} :: phi in phis ==> !phis[phi].site.target.UnknownMemory?
  }

  lemma {:induction false} FrontKills(p: Procedure, phis: Phis, block: Node, front: seq<Access>, entered: set<Span>,
      t: RWNode, b: int)
    requires p.Valid() && p.g.Has(block) && AreFront(p, phis, block, front) && PhisKnown(phis)
    requires forall s :: s in entered <==> exists k :: 0 <= k < |front| && s == SpanOf(phis[front[k].node].site)
    ensures Killed(front, t, b) <==> InSpans(entered, t, b)
  {
    if k :| 0 <= k < |front| && Strong(front[k], t, b) {
      assert front[k].node in phis;
      assert SpanOf(phis[front[k].node].site) in entered;
    }
    if s :| s in entered && s.target == t && s.bytes.Has(b) {
      var k :| 0 <= k < |front| && s == SpanOf(phis[front[k].node].site);
      assert front[k].node in phis;
      assert front[k].overwrites[0].Covers(t, b);
      assert Strong(front[k], t, b);
    }
  }

  lemma {:induction false} AllBehindFront(p: Procedure, phis: Phis, block: Node, front: seq<Access>, u: nat,
      definitions: Defs, kills: Defs)
    requires p.Valid() && p.g.Has(block) && u <= |p.code[block]| && AreFront(p, phis, block, front)
    requires Tame(p.code[block][..u])
    requires Numbered(front + p.code[block][..u], definitions, kills)
    ensures LocalOk(p, phis, block, u, definitions, kills)
  {
    forall t, b
      ensures LocalByteOk(p, phis, block, u, t, b, DefsAt(definitions, t, b), DefsAt(kills, t, b))
    {
      NumberedBehindFront(p, phis, block, front, u, definitions, kills, t, b);
    }
  }

  lemma {:induction false} FrontWritesSites(p: Procedure, s: State, block: Node, front: seq<Access>, u: nat)
    requires p.Valid() && p.g.Has(block) && u <= |p.code[block]| && AreFront(p, s.phis, block, front)
    requires AlignedState(p, s)
    ensures WritesSites(p, front + p.code[block][..u])
  {
    CodeWritesSites(p, block);
    var list := front + p.code[block][..u];
    forall k, j | 0 <= k < |list| && 0 <= j < |list[k].overwrites|
      ensures IsSite(p, list[k].overwrites[j].target, list[k].overwrites[j].Bytes())
    {
      if k < |front| {
        assert list[k] == front[k];
      } else {
        assert list[k] == p.code[block][k - |front|];
      }
    }
  }

  lemma {:induction false} NumberedBehindFront(p: Procedure, phis: Phis, block: Node, front: seq<Access>, u: nat,
                                               definitions: Defs, kills: Defs, t: RWNode, b: int)
    requires p.Valid() && p.g.Has(block) && u <= |p.code[block]| && AreFront(p, phis, block, front)
    requires Tame(p.code[block][..u])
    requires Numbered(front + p.code[block][..u], definitions, kills)
    ensures LocalByteOk(p, phis, block, u, t, b, DefsAt(definitions, t, b), DefsAt(kills, t, b))
  {
    LastWritersOfEnd(front, p.code[block][..u], t, b);
    KilledInParts(front, p.code[block][..u], t, b);
    if Killed(front, t, b) && !Killed(p.code[block][..u], t, b) {
      LastWritersOfFront(front, p.code[block][..u], t, b);
      var j := LastKillerIsWriter(front, t, b);
      assert IsPhiFor(phis, front[j].node, block, t, b);
    }
    forall x | x in LastWriters(front + p.code[block][..u], t, b)
      ensures LocallyKept(p, phis, block, u, t, b, x)
    {
      WriterBehindFront(p, phis, block, front, u, t, b, x);
    }
  }

  lemma {:induction false} WriterBehindFront(p: Procedure, phis: Phis, block: Node, front: seq<Access>, u: nat,
      t: RWNode, b: int, x: RWNode)
    requires p.Valid() && p.g.Has(block) && u <= |p.code[block]| && AreFront(p, phis, block, front)
    requires Tame(p.code[block][..u])
    requires x in LastWriters(front + p.code[block][..u], t, b)
    ensures LocallyKept(p, phis, block, u, t, b, x)
  {
    var before := p.code[block][..u];
    LastWritersAre(front + before, t, b, x);
    var k: nat :| Lasts(front + before, k, t, b) && (front + before)[k].node == x;
    LastsInParts(front, before, k, t, b);
    if k < |front| {
      assert front[k].node == x && !Wild(front[k]);
      assert IsPhiFor(phis, x, block, t, b);
    } else {
      assert before[k - |front|].node == x;
      TameWritersAre(before, t, b, x);
    }
  }

  ghost predicate UsesAnswered(p: Procedure, phis: Phis, block: Node, u: nat, uses: seq<DefSite>, nodes: set<RWNode>)
    requires p.Valid() && p.g.Has(block) && u < |p.code[block]|
  {
    forall i, b {:trigger AnswersUse(p, phis, block, u, uses[i].target, b, nodes)} ::
        0 <= i < |uses| && uses[i].Bytes().Has(b) ==>
      AnswersUse(p, phis, block, u, uses[i].target, b, nodes)
  }

  lemma {:induction false} AnswersUseGrows(p: Procedure, phis: Phis, phis': Phis, block: Node, u: nat, t: RWNode,
      b: int, nodes: set<RWNode>, nodes': set<RWNode>)
    requires p.Valid() && p.g.Has(block) && u < |p.code[block]| && PhisGrow(phis, phis') && nodes <= nodes'
    requires AnswersUse(p, phis, block, u, t, b, nodes)
    ensures AnswersUse(p, phis', block, u, t, b, nodes')
  {
    if !Killed(p.code[block][..u], t, b) {
      AnswersStartGrows(p, phis, phis', block, t, b, nodes, nodes');
    }
  }

  lemma {:induction false} UsesAnsweredMore(p: Procedure, phis0: Phis, phis: Phis, phis': Phis, block: Node, u: nat,
      uses: seq<DefSite>, i: nat, definitions: Defs, kills: Defs, nodes: set<RWNode>, nodes': set<RWNode>)
    requires p.Valid() && p.g.Has(block) && u < |p.code[block]| && i < |uses| && PhisGrow(phis0, phis)
    requires PhisGrow(phis, phis')
    requires LocalOk(p, phis0, block, u, definitions, kills) && UsesAnswered(p, phis, block, u, uses[..i], nodes)
    requires nodes <= nodes'
    requires forall n {:trigger DefinesSome(definitions, uses[i], n)} ::
      DefinesSome(definitions, uses[i], n) ==> n in nodes'
    requires AllOpenAtStart(p, phis', block, kills, uses[i], nodes')
    ensures UsesAnswered(p, phis', block, u, uses[..i + 1], nodes')
  {
    var upto := uses[..i + 1];
    forall j, b | 0 <= j < |upto| && upto[j].Bytes().Has(b)
      ensures AnswersUse(p, phis', block, u, upto[j].target, b, nodes')
    {
      if j < i {
        assert uses[..i][j] == upto[j];
        AnswersUseGrows(p, phis, phis', block, u, upto[j].target, b, nodes, nodes');
      } else {
        UseByte(p, phis0, phis', block, u, uses[i], b, definitions, kills, nodes');
      }
    }
  }

  lemma {:induction false} UseByte(p: Procedure, phis: Phis, phis': Phis, block: Node, u: nat, ds: DefSite, b: int,
                                   definitions: Defs, kills: Defs, nodes: set<RWNode>)
    requires p.Valid() && p.g.Has(block) && u < |p.code[block]| && PhisGrow(phis, phis') && ds.Bytes().Has(b)
    requires LocalOk(p, phis, block, u, definitions, kills)
    requires forall n {:trigger DefinesSome(definitions, ds, n)} :: DefinesSome(definitions, ds, n) ==> n in nodes
    requires AllOpenAtStart(p, phis', block, kills, ds, nodes)
    ensures AnswersUse(p, phis', block, u, ds.target, b, nodes)
  {
    assert DefsAt(definitions, ds.target, b) <= nodes by {
      assert forall n :: n in DefsAt(definitions, ds.target, b) ==> DefinesSome(definitions, ds, n);
    }
    if !Killed(p.code[block][..u], ds.target, b) && DefsAt(kills, ds.target, b) != {} {
      AnswersStartGrows(p, phis, phis', block, ds.target, b, DefsAt(definitions, ds.target, b), nodes);
    }
  }

  // ---------------------------------------------------------------------------
  // What a search finds: all definitions and, in aligned procedures, nothing else

  ghost predicate EndFound(p: Procedure, phis: Phis, block: Node, ds: DefSite, nodes: set<RWNode>, overshot: bool)
  {
    forall k {:trigger Shown(k)} :: Shown(k) ==>
      && p.Valid() && p.g.Has(block)
      && (!overshot ==> AllAtEnd(p, phis, block, ds, nodes))
      && (Aligned(p) ==> forall x {:trigger x in nodes} ::
           x in nodes ==> Comes(p, phis, block, ds.target, ds.Bytes(), x))
      && (OverwritesAll(p, block, ds) ==> OnlyOwn(p, block, ds, nodes))
  }

  /** The search need not go past the block, and no phi of it stands in between. */
  ghost predicate OverwritesAll(p: Procedure, block: Node, ds: DefSite)
    requires p.Valid() && p.g.Has(block)
  {
    |p.g.Preds(block)| == 1 && forall b {:trigger Killed(p.code[block], ds.target, b)} ::
        ds.Bytes().Has(b) ==> Killed(p.code[block], ds.target, b)
  }

  ghost predicate OwnWriter(p: Procedure, block: Node, ds: DefSite, x: RWNode)
    requires p.Valid() && p.g.Has(block)
  {
    exists b :: ds.Bytes().Has(b) && x in LastWriters(p.code[block], ds.target, b)
  }

  ghost predicate OnlyOwn(p: Procedure, block: Node, ds: DefSite, nodes: set<RWNode>)
    requires p.Valid() && p.g.Has(block)
  {
    forall x {:trigger x in nodes} :: x in nodes ==> OwnWriter(p, block, ds, x)
  }

  ghost predicate StartFound(p: Procedure, phis: Phis, block: Node, ds: DefSite, nodes: set<RWNode>, overshot: bool)
  {
    forall k {:trigger Shown(k)} :: Shown(k) ==>
      && p.Valid() && p.g.Has(block)
      && (!overshot ==> AllAtStart(p, phis, block, ds, nodes))
      && (Aligned(p) ==> forall x {:trigger x in nodes} ::
           x in nodes ==> ComesStart(p, phis, block, ds.target, ds.Bytes(), x))
  }

  /** Beside the known nodes, those that answer for the bytes that are not overwritten. */
  ghost predicate OpenFound(p: Procedure, phis: Phis, block: Node, kills: Defs, ds: DefSite, known: set<RWNode>,
      nodes: set<RWNode>, overshot: bool)
  {
    forall k {:trigger Shown(k)} :: Shown(k) ==>
      && p.Valid() && p.g.Has(block)
      && (!overshot ==> AllOpenAtStart(p, phis, block, kills, ds, nodes))
      && (Aligned(p) ==> forall x {:trigger x in nodes} :: x in nodes ==>
            x in known || (SomeOpen(kills, ds) && ComesStart(p, phis, block, ds.target, ds.Bytes(), x)))
      && (!SomeOpen(kills, ds) ==> nodes == known)
  }

  ghost predicate SomeOpen(kills: Defs, ds: DefSite) {
    exists b :: ds.Bytes().Has(b) && DefsAt(kills, ds.target, b) == {}
  }

  /** The first k sites have been searched. */
  ghost predicate SitesFound(p: Procedure, phis: Phis, block: Node, ds: DefSite, sites: seq<DefSite>, k: nat,
                             known: set<RWNode>, nodes: set<RWNode>, overshot: bool)
  {
    forall j {:trigger Shown(j)} :: Shown(j) ==>
      && p.Valid() && p.g.Has(block) && k <= |sites|
      && (!overshot ==> SitesAtStart(p, phis, block, sites[..k], nodes))
      && (Aligned(p) ==> forall x {:trigger x in nodes} :: x in nodes ==>
            x in known || (k > 0 && ComesStart(p, phis, block, ds.target, ds.Bytes(), x)))
      && (k == 0 ==> nodes == known)
  }

  /** The first k predecessors of the phi have been searched. */
  ghost predicate PredecessorsFound(p: Procedure, phis: Phis, phi: Phi, k: nat, nodes: set<RWNode>, overshot: bool)
  {
    forall j {:trigger Shown(j)} :: Shown(j) ==>
      && p.Valid() && p.g.Has(phi.block) && k <= |p.g.Preds(phi.block)|
      && (!overshot ==> PredecessorsAtEnd(p, phis, p.g.Preds(phi.block)[..k], phi.site, nodes))
      && (Aligned(p) ==> OnlyMerged(p, phis, phi, nodes))
      && (PredecessorsOverwrite(p, phi) ==> OwnMerged(p, phi, nodes))
  }

  ghost predicate PredecessorsOverwrite(p: Procedure, phi: Phi)
    requires p.Valid() && p.g.Has(phi.block)
  {
    forall q {:trigger q in p.g.Preds(phi.block)} ::
        q in p.g.Preds(phi.block) ==> p.g.Has(q) && OverwritesAll(p, q, phi.site)
  }

  /** Where all predecessors overwrite the site, only their own last writers are merged. */
  ghost predicate OwnMerged(p: Procedure, phi: Phi, nodes: set<RWNode>)
    requires p.Valid() && p.g.Has(phi.block)
  {
    forall k {:trigger Shown(k)} :: Shown(k) ==> forall x {:trigger x in nodes} :: x in nodes ==>
      exists q :: q in p.g.Preds(phi.block) && p.g.Has(q) && OwnWriter(p, q, phi.site, x)
  }

  /** The first k sites that the node at u reads have been searched. */
  ghost predicate UsesFound(p: Procedure, phis: Phis, block: Node, u: nat, k: nat, nodes: set<RWNode>, overshot: bool)
  {
    forall j {:trigger Shown(j)} :: Shown(j) ==>
      && p.Valid() && p.g.Has(block) && u < |p.code[block]| && k <= |p.code[block][u].uses|
      && (!overshot ==> UsesAnswered(p, phis, block, u, p.code[block][u].uses[..k], nodes))
      && (Aligned(p) ==> OnlyToUse(p, phis, block, u, p.code[block][u].uses, nodes))
  }

  lemma {:induction false} NoUseSearched(p: Procedure, phis: Phis, block: Node, u: nat, overshot: bool)
    requires p.Valid() && p.g.Has(block) && u < |p.code[block]|
    ensures UsesFound(p, phis, block, u, 0, {}, overshot)
  {
    assert Shown(true);
  }

  lemma {:induction false} UseSearched(p: Procedure, phis0: Phis, phis: Phis, phis': Phis, block: Node, u: nat, k: nat,
                                       definitions: Defs, kills: Defs, nodes: set<RWNode>, known: set<RWNode>,
                                           nodes': set<RWNode>,
                                       before: bool, after: bool)
    requires p.Valid() && p.g.Has(block) && u < |p.code[block]| && k < |p.code[block][u].uses| && (before ==> after)
    requires PhisGrow(phis0, phis) && PhisGrow(phis, phis') && nodes + known <= nodes'
    requires LocalOk(p, phis0, block, u, definitions, kills) && (Aligned(p) ==> PhisAreSites(p, phis0))
    requires UsesFound(p, phis, block, u, k, nodes, before)
    requires forall n {:trigger n in known} :: n in known <==> DefinesSome(definitions, p.code[block][u].uses[k], n)
    requires OpenFound(p, phis', block, kills, p.code[block][u].uses[k], nodes + known, nodes', after)
    ensures UsesFound(p, phis', block, u, k + 1, nodes', after)
  {
    assert Shown(true);
    var uses := p.code[block][u].uses;
    if !after {
      forall n | DefinesSome(definitions, uses[k], n)
        ensures n in nodes'
      {
        assert n in known;
      }
      UsesAnsweredMore(p, phis0, phis, phis', block, u, uses, k, definitions, kills, nodes, nodes');
    }
    if Aligned(p) {
      OnlyToUseGrows(p, phis, phis', block, u, uses, nodes);
      forall x | x in nodes'
        ensures ComesToSome(p, phis', block, u, uses, x)
      {
        if x !in nodes {
          UseSearchedComes(p, phis0, phis', block, u, uses[k], definitions, kills, x);
        }
      }
    }
  }

  lemma {:induction false} UseSearchedComes(p: Procedure, phis0: Phis, phis: Phis, block: Node, u: nat, ds: DefSite,
                                            definitions: Defs, kills: Defs, x: RWNode)
    requires p.Valid() && p.g.Has(block) && u < |p.code[block]| && Aligned(p) && IsSite(p, ds.target, ds.Bytes())
    requires PhisGrow(phis0, phis) && PhisAreSites(p, phis0) && LocalOk(p, phis0, block, u, definitions, kills)
    requires DefinesSome(definitions, ds, x) ||
      (SomeOpen(kills, ds) && ComesStart(p, phis, block, ds.target, ds.Bytes(), x))
    ensures ComesToUse(p, phis, block, u, ds.target, ds.Bytes(), x)
  {
    var before, t, i := p.code[block][..u], ds.target, ds.Bytes();
    CodeWritesSites(p, block);
    assert WritesSites(p, before);
    if DefinesSome(definitions, ds, x) {
      var b :| i.Has(b) && x in DefsAt(definitions, t, b);
      assert LocalByteOk(p, phis0, block, u, t, b, DefsAt(definitions, t, b), DefsAt(kills, t, b));
      if x !in LastWriters(before, t, b) {
        PhiIsForSite(p, phis0, block, t, i, b, x);
        ClearByOne(p, before, t, i, b);
      }
    } else {
      var b :| i.Has(b) && DefsAt(kills, t, b) == {};
      assert LocalByteOk(p, phis0, block, u, t, b, DefsAt(definitions, t, b), DefsAt(kills, t, b));
      ClearByOne(p, before, t, i, b);
    }
  }

  ghost predicate AllAtEnd(p: Procedure, phis: Phis, block: Node, ds: DefSite, nodes: set<RWNode>)
    requires p.Valid() && p.g.Has(block)
  {
    forall b {:trigger AnswersEnd(p, phis, block, ds.target, b, nodes)} ::
        ds.Bytes().Has(b) ==> AnswersEnd(p, phis, block, ds.target, b, nodes)
  }

  ghost predicate AllAtStart(p: Procedure, phis: Phis, block: Node, ds: DefSite, nodes: set<RWNode>)
    requires p.Valid() && p.g.Has(block)
  {
    forall b {:trigger AnswersStart(p, phis, block, ds.target, b, nodes)} ::
        ds.Bytes().Has(b) ==> AnswersStart(p, phis, block, ds.target, b, nodes)
  }

  ghost predicate AllOpenAtStart(p: Procedure, phis: Phis, block: Node, kills: Defs, ds: DefSite, nodes: set<RWNode>)
    requires p.Valid() && p.g.Has(block)
  {
    forall b {:trigger AnswersStart(p, phis, block, ds.target, b, nodes)} {:trigger DefsAt(kills, ds.target, b)} ::
      ds.Bytes().Has(b) && DefsAt(kills, ds.target, b) == {} ==> AnswersStart(p, phis, block, ds.target, b, nodes)
  }

  ghost predicate SitesAtStart(p: Procedure, phis: Phis, block: Node, sites: seq<DefSite>, nodes: set<RWNode>)
    requires p.Valid() && p.g.Has(block)
  {
    forall k {:trigger sites[k]} :: 0 <= k < |sites| ==> AllAtStart(p, phis, block, sites[k], nodes)
  }

  /** The nodes answer at the end of each of the blocks. */
  ghost predicate PredecessorsAtEnd(p: Procedure, phis: Phis, blocks: seq<Node>, ds: DefSite, nodes: set<RWNode>)
    requires p.Valid()
  {
    forall k {:trigger blocks[k]} :: 0 <= k < |blocks| ==> p.g.Has(blocks[k]) && AllAtEnd(p, phis, blocks[k], ds, nodes)
  }

  lemma {:induction false} AllAtEndGrows(p: Procedure, phis: Phis, phis': Phis, block: Node, ds: DefSite,
      nodes: set<RWNode>, nodes': set<RWNode>)
    requires p.Valid() && p.g.Has(block) && PhisGrow(phis, phis') && nodes <= nodes'
    requires AllAtEnd(p, phis, block, ds, nodes)
    ensures AllAtEnd(p, phis', block, ds, nodes')
  {
    forall b | ds.Bytes().Has(b)
      ensures AnswersEnd(p, phis', block, ds.target, b, nodes')
    {
      AnswersEndGrows(p, phis, phis', block, ds.target, b, nodes, nodes');
    }
  }

  lemma {:induction false} PredecessorsAtEndMore(p: Procedure, phis: Phis, phis': Phis, blocks: seq<Node>, k: nat,
      ds: DefSite, nodes: set<RWNode>, more: set<RWNode>)
    requires p.Valid() && PhisGrow(phis, phis') && k < |blocks| && p.g.Has(blocks[k])
    requires PredecessorsAtEnd(p, phis, blocks[..k], ds, nodes) && AllAtEnd(p, phis', blocks[k], ds, more)
    ensures PredecessorsAtEnd(p, phis', blocks[..k + 1], ds, nodes + more)
  {
    var upto := blocks[..k + 1];
    forall j {:trigger upto[j]} | 0 <= j < |upto|
      ensures p.g.Has(upto[j]) && AllAtEnd(p, phis', upto[j], ds, nodes + more)
    {
      if j < k {
        assert blocks[..k][j] == upto[j];
        AllAtEndGrows(p, phis, phis', upto[j], ds, nodes, nodes + more);
      } else {
        AllAtEndGrows(p, phis', phis', upto[j], ds, more, nodes + more);
      }
    }
  }

  lemma {:induction false} NoPredecessorSearched(p: Procedure, phis: Phis, phi: Phi, overshot: bool)
    requires p.Valid() && p.g.Has(phi.block)
    ensures PredecessorsFound(p, phis, phi, 0, {}, overshot)
  {
    assert Shown(true);
  }

  lemma {:induction false} PredecessorSearched(p: Procedure, phis: Phis, phis': Phis, phi: Phi, k: nat,
      nodes: set<RWNode>, more: set<RWNode>, before: bool, after: bool)
    requires p.Valid() && p.g.Has(phi.block) && k < |p.g.Preds(phi.block)| && p.g.Has(p.g.Preds(phi.block)[k])
    requires PhisGrow(phis, phis') && (before ==> after)
    requires PredecessorsFound(p, phis, phi, k, nodes, before)
    requires EndFound(p, phis', p.g.Preds(phi.block)[k], phi.site, more, after)
    ensures PredecessorsFound(p, phis', phi, k + 1, nodes + more, after)
  {
    assert Shown(true);
    var q := p.g.Preds(phi.block)[k];
    if !after {
      PredecessorsAtEndMore(p, phis, phis', p.g.Preds(phi.block), k, phi.site, nodes, more);
    }
    if Aligned(p) {
      assert q in p.g.Preds(phi.block);
      OnlyMergedGrows(p, phis, phis', phi, nodes);
      forall x | x in nodes + more
        ensures ComesBefore(p, phis', phi.block, phi.site.target, phi.site.Bytes(), x)
      {
        assert x !in nodes ==> p.g.Edge(q, phi.block) && Comes(p, phis', q, phi.site.target, phi.site.Bytes(), x);
      }
    }
    if PredecessorsOverwrite(p, phi) {
      assert q in p.g.Preds(phi.block);
      assert OnlyOwn(p, q, phi.site, more);
    }
  }

  lemma MergedIsOwn(p: Procedure, phis: Phis, phi: Phi, nodes: set<RWNode>, overshot: bool)
    requires p.Valid() && p.g.Has(phi.block) && PredecessorsFound(p, phis, phi, |p.g.Preds(phi.block)|, nodes, overshot)
    ensures PredecessorsOverwrite(p, phi) ==> OwnMerged(p, phi, nodes)
  {
    assert Shown(true);
  }

  lemma {:induction false} RecordPhi(p: Procedure, s: State, s': State, phi: RWNode, defs: set<RWNode>,
      pending: set<RWNode>, overshot: bool)
    requires p.Valid() && Coherent(p, s, pending + {phi}, overshot) && phi in s.phis
    requires s' == s.(defuse := s.defuse[phi := defs])
    requires p.g.Has(s.phis[phi].block)
    requires PredecessorsFound(p, s.phis, s.phis[phi], |p.g.Preds(s.phis[phi].block)|, defs, overshot)
    ensures Coherent(p, s', pending, overshot) && Grows(s, s')
  {
    assert Shown(true);
    var what := s.phis[phi];
    DefUseIsFree(p, s, s');
    if !overshot {
      var preds := p.g.Preds(what.block);
      assert preds[..|preds|] == preds;
      assert PhiAnswered(p, s.phis, what, defs) by {
        forall q, b | q in preds && what.site.Bytes().Has(b)
          ensures AnswersEnd(p, s.phis, q, what.site.target, b, defs)
        {
          var k :| 0 <= k < |preds| && preds[k] == q;
          assert AllAtEnd(p, s.phis, preds[k], what.site, defs);
        }
      }
      PhiDone(p, s, s', phi, defs, pending);
    }
    if Aligned(p) {
      PhiDoneIsAligned(p, s, s', phi, defs);
    }
    AllSameSpans(p, s, s', overshot);
  }

  /** A phi that stands for an input merges nothing. */
  lemma {:induction false} InputIsDone(p: Procedure, s: State, phi: RWNode, pending: set<RWNode>, overshot: bool)
    requires p.Valid() && Coherent(p, s, pending + {phi}, overshot) && phi in s.phis
    requires p.g.Has(s.phis[phi].block) && p.g.Preds(s.phis[phi].block) == []
    ensures Coherent(p, s, pending, overshot)
  {
    assert Shown(true);
    if !overshot {
      forall x | x in s.phis && x !in pending
        ensures PhiSound(p, s.phis, s.defuse, x)
      {
        assert x != phi ==> PhiSound(p, s.phis, s.defuse, x);
      }
      assert Sound(p, s, pending);
    }
  }

  lemma PhiIsFit(p: Procedure, s: State, pending: set<RWNode>, overshot: bool, phi: RWNode)
    requires p.Valid() && Coherent(p, s, pending, overshot) && phi in s.phis && p.g.Has(s.phis[phi].block)
    ensures Sane(s.phis[phi].site) && !s.phis[phi].site.target.UnknownMemory? && SiteOk(p, s.phis[phi].site)
    ensures forall k :: 0 <= k < |p.g.Preds(s.phis[phi].block)| ==> p.g.Has(p.g.Preds(s.phis[phi].block)[k])
  {
    assert Shown(true);
    assert PhiOk(p, phi, s.phis[phi], s.nextId);
    forall spans | Contains(p, spans)
      ensures SpanOf(s.phis[phi].site) in spans
    {
      CoherentIsSpanned(p, s, pending, overshot, spans);
      assert Opened(true);
    }
    assert forall k :: 0 <= k < |p.g.Preds(s.phis[phi].block)| ==>
        p.g.Preds(s.phis[phi].block)[k] in p.g.Preds(s.phis[phi].block);
  }

  lemma InfoIsThere(p: Procedure, s: State, pending: set<RWNode>, overshot: bool, block: Node)
    requires p.Valid() && Coherent(p, s, pending, overshot) && p.g.Has(block) && block in s.infos
    ensures ValidDefs(s.infos[block].definitions) && ValidDefs(s.infos[block].kills) && block in s.nodes
    ensures KillsOk(p, s.infos[block].kills)
  {
    assert Shown(true);
    assert BlockOk(p, s, block);
    assert Aligned(p) ==> AllUniform(p, s.infos[block].kills);
    forall spans | Contains(p, spans)
      ensures KillsCount(p, spans, s.infos[block].kills)
    {
      CoherentIsSpanned(p, s, pending, overshot, spans);
      InfoCounts(p, spans, s, block);
      WholeCode(p, spans, block, s.infos[block].kills);
    }
  }

  lemma InfoCounts(p: Procedure, spans: set<Span>, s: State, block: Node)
    requires SpanState(p, spans, s) && block in s.infos && block in p.code
    ensures CountsAs(p.code[block], spans, s.infos[block].kills)
  {
    assert Opened(true);
  }

  lemma {:induction false} RecordCreated(p: Procedure, s: State, s': State, phi: RWNode, what: Phi, sites: seq<DefSite>,
                                         pending: set<RWNode>, overshot: bool, past: bool)
    requires p.Valid() && Coherent(p, s, pending, overshot) && Created(p, s, s', phi, what, sites)
    requires |p.g.Preds(what.block)| != 1
    requires SiteOk(p, what.site)
    requires past == (overshot || (Merges(p, what.block) && Harms(p, what.block, sites, what.site)))
    ensures Coherent(p, s', pending + {phi}, past)
    ensures Grows(s, s') && forall b :: what.site.Bytes().Has(b) ==> !IsOpen(s'.infos, what.block, what.site.target, b)
  {
    CoherentIsFormed(p, s, pending, overshot);
    InfoIsThere(p, s, pending, overshot, what.block);
    CreatedSites(p, s, s', phi, what, sites);
    NewPhi(p, s, phi);
    CreatingGrows(p, s, s', phi, what, sites);
    CreatedIsWellFormed(p, s, s', phi, what, sites);
    if !past {
      CoherentIsSound(p, s, pending);
      CreatedIsSound(p, s, s', phi, what, sites, pending);
    }
    if Aligned(p) {
      CoherentIsAligned(p, s, pending, overshot);
      CreatedIsAligned(p, s, s', phi, what, sites);
    }
    forall spans | Contains(p, spans)
      ensures !past && SpanState(p, spans, s')
    {
      CoherentIsSpanned(p, s, pending, overshot, spans);
      CreatedStays(p, spans, s, s', phi, what, sites);
    }
  }

  lemma CoherentIsSound(p: Procedure, s: State, pending: set<RWNode>)
    requires Coherent(p, s, pending, false)
    ensures p.Valid() && WellFormed(p, s) && Sound(p, s, pending)
  {
    assert Shown(true);
  }

  /** The phi is entered for runs that may be asked for. */
  lemma CreatedSites(p: Procedure, s: State, s': State, phi: RWNode, what: Phi, sites: seq<DefSite>)
    requires p.Valid() && Created(p, s, s', phi, what, sites) && ValidDefs(s.infos[what.block].kills)
    requires SiteOk(p, what.site) && KillsOk(p, s.infos[what.block].kills)
    ensures SitesAsked(p, what.site, sites) && (Aligned(p) ==> !GoesPast(sites, what.site))
  {
    assert Shown(true);
    OpenSitesOk(p, s.infos[what.block].kills, what.site, sites);
  }

  lemma {:induction false} CreatedStays(p: Procedure, spans: set<Span>, s: State, s': State, phi: RWNode, what: Phi,
      sites: seq<DefSite>)
    requires p.Valid() && Created(p, s, s', phi, what, sites) && phi !in s.phis && ValidDefs(s.infos[what.block].kills)
    requires Contains(p, spans) && SpanState(p, spans, s) && SiteOk(p, what.site) && SitesAsked(p, what.site, sites)
    ensures SpanState(p, spans, s') && (Merges(p, what.block) ==> !Harms(p, what.block, sites, what.site))
  {
    assert SpanOf(what.site) in spans;
    forall k {:trigger sites[k]} | 0 <= k < |sites|
      ensures SpanOf(sites[k]) in spans
    {
      assert SiteAsked(p, what.site, sites[k]);
    }
    CreatedIsSpanned(p, spans, s, s', phi, what, sites);
    InfoCounts(p, spans, s, what.block);
    if Merges(p, what.block) {
      assert Shown(true);
      JoinsStay(p, spans, what.block, s.infos[what.block].kills, what.site, sites);
    }
  }

  lemma {:induction false} NoSiteSearched(p: Procedure, phis: Phis, block: Node, ds: DefSite, sites: seq<DefSite>,
      known: set<RWNode>, overshot: bool)
    requires p.Valid() && p.g.Has(block)
    ensures SitesFound(p, phis, block, ds, sites, 0, known, known, overshot)
  {
    assert Shown(true);
  }

  lemma NoneIsEmpty(nodes: seq<RWNode>)
    ensures (forall n :: n !in nodes) ==> nodes == []
  {
    if nodes != [] {
      assert nodes[0] in nodes;
    }
  }

  /** There is something left to search where paths join, or the block is as it was. */
  ghost predicate HasRoom(p: Procedure, infos: map<Node, Info>, block: Node, t: RWNode, kills: Defs, bound: nat) {
    Merges(p, block) ==> |OpenSpots(p, infos, t)| < bound || (block in infos && infos[block].kills == kills)
  }

  /** The first k runs of bytes have been searched. */
  ghost predicate Searching(p: Procedure, s: State, overshot: bool, block: Node, ds: DefSite, sites: seq<DefSite>,
      k: nat, kills: Defs, known: set<RWNode>, defs: set<RWNode>, pending: set<RWNode>, bound: nat, s0: State,
      before: bool)
  {
    forall j {:trigger Shown(j)} :: Shown(j) ==>
      && p.Valid() && p.g.Has(block)
      && Coherent(p, s, pending, overshot) && Grows(s0, s) && (before ==> overshot) && known <= defs
      && |OpenSpots(p, s.infos, ds.target)| <= bound && HasRoom(p, s.infos, block, ds.target, kills, bound)
      && SitesFound(p, s.phis, block, ds, sites, k, known, defs, overshot)
  }

  lemma SearchStarts(p: Procedure, s: State, overshot: bool, block: Node, ds: DefSite, sites: seq<DefSite>,
      kills: Defs, known: set<RWNode>, pending: set<RWNode>, bound: nat)
    requires p.Valid() && p.g.Has(block)
    requires Coherent(p, s, pending, overshot) && |OpenSpots(p, s.infos, ds.target)| <= bound
    requires HasRoom(p, s.infos, block, ds.target, kills, bound)
    requires SitesFound(p, s.phis, block, ds, sites, 0, known, known, overshot)
    ensures Searching(p, s, overshot, block, ds, sites, 0, kills, known, known, pending, bound, s, overshot)
  {
  }

  /** One more run of bytes has been searched. */
  lemma {:induction false} SearchGoesOn(p: Procedure, s: State, o: bool, s': State, o': bool, block: Node, ds: DefSite,
      sites: seq<DefSite>, k: nat, kills: Defs, known: set<RWNode>, defs: set<RWNode>, more: set<RWNode>,
      pending: set<RWNode>, bound: nat, s0: State, before: bool)
    requires Searching(p, s, o, block, ds, sites, k, kills, known, defs, pending, bound, s0, before)
    requires k < |sites| && RunsAsked(p, kills, ds, sites)
    requires Coherent(p, s', pending, o') && Grows(s, s') && (o ==> o')
    requires StartFound(p, s'.phis, block, sites[k], more, o')
    requires Merges(p, block) ==> |OpenSpots(p, s'.infos, sites[k].target)| < bound
    ensures Searching(p, s', o', block, ds, sites, k + 1, kills, known, defs + more, pending, bound, s0, before)
  {
    SearchIs(p, s, o, block, ds, sites, k, kills, known, defs, pending, bound, s0, before);
    RunIsAsked(p, s.infos, block, kills, ds, sites, k);
    SiteSearched(p, s, s', block, ds, sites, k, known, defs, more, o, o');
    GrowsTwice(s0, s, s');
  }

  lemma SearchIs(p: Procedure, s: State, overshot: bool, block: Node, ds: DefSite, sites: seq<DefSite>, k: nat,
      kills: Defs, known: set<RWNode>, defs: set<RWNode>, pending: set<RWNode>, bound: nat, s0: State, before: bool)
    requires Searching(p, s, overshot, block, ds, sites, k, kills, known, defs, pending, bound, s0, before)
    ensures p.Valid() && p.g.Has(block)
    ensures Coherent(p, s, pending, overshot) && Grows(s0, s) && (before ==> overshot) && known <= defs
    ensures |OpenSpots(p, s.infos, ds.target)| <= bound && HasRoom(p, s.infos, block, ds.target, kills, bound)
    ensures SitesFound(p, s.phis, block, ds, sites, k, known, defs, overshot)
  {
    assert Shown(true);
  }

  lemma {:induction false} SiteSearched(p: Procedure, s: State, s': State, block: Node, ds: DefSite,
      sites: seq<DefSite>, k: nat, known: set<RWNode>, defs: set<RWNode>, more: set<RWNode>, before: bool, after: bool)
    requires p.Valid() && p.g.Has(block) && Grows(s, s') && k < |sites| && (before ==> after)
    requires Aligned(p) ==> sites[k].target == ds.target && sites[k].Bytes() == ds.Bytes()
    requires SitesFound(p, s.phis, block, ds, sites, k, known, defs, before)
    requires StartFound(p, s'.phis, block, sites[k], more, after)
    ensures |OpenSpots(p, s'.infos, sites[k].target)| <= |OpenSpots(p, s.infos, sites[k].target)|
    ensures SitesFound(p, s'.phis, block, ds, sites, k + 1, known, defs + more, after)
  {
    OpenSpotsShrink(p, s, s', sites[k].target);
    assert Shown(true);
    if !after {
      SitesAtStartMore(p, s.phis, s'.phis, block, sites, k, defs, more);
    }
    if Aligned(p) {
      forall x | x in defs + more && x !in known
        ensures ComesStart(p, s'.phis, block, ds.target, ds.Bytes(), x)
      {
        if x in defs {
          ComesStartGrows(p, s.phis, s'.phis, block, ds.target, ds.Bytes(), x);
        }
      }
    }
  }

  ghost predicate OpenByte(p: Procedure, infos: map<Node, Info>, block: Node, ds: DefSite) {
    exists b :: ds.Bytes().Has(b) && IsOpen(infos, block, ds.target, b)
  }

  /** The runs of bytes of a site that are not overwritten. */
  ghost predicate RunsAsked(p: Procedure, kills: Defs, ds: DefSite, sites: seq<DefSite>) {
    forall k {:trigger Shown(k)} ::
        Shown(k) ==> AreOpen(kills, ds, sites) && SitesAsked(p, ds, sites) && !ds.target.UnknownMemory?
  }

  lemma RunsAreAsked(p: Procedure, kills: Defs, ds: DefSite, sites: seq<DefSite>)
    requires AreOpen(kills, ds, sites) && SitesAsked(p, ds, sites) && !ds.target.UnknownMemory?
    ensures RunsAsked(p, kills, ds, sites)
  {
  }

  lemma {:induction false} RunIsAsked(p: Procedure, infos: map<Node, Info>, block: Node, kills: Defs, ds: DefSite,
      sites: seq<DefSite>, k: nat)
    requires RunsAsked(p, kills, ds, sites) && k < |sites|
    ensures sites[k].target == ds.target && !ds.target.UnknownMemory? && Sane(sites[k]) && SiteOk(p, sites[k])
    ensures Aligned(p) ==> sites[k].Bytes() == ds.Bytes()
    ensures block in infos && infos[block].kills == kills ==> OpenByte(p, infos, block, sites[k])
  {
    assert Shown(true);
    var b := sites[k].Bytes().start;
    assert SiteAsked(p, ds, sites[k]);
    assert sites[k].Bytes().Has(b) && InSite(sites, b);
    assert DefsAt(kills, ds.target, b) == {};
  }

  lemma {:induction false} AllAtStartGrows(p: Procedure, phis: Phis, phis': Phis, block: Node, ds: DefSite,
      nodes: set<RWNode>, nodes': set<RWNode>)
    requires p.Valid() && p.g.Has(block) && PhisGrow(phis, phis') && nodes <= nodes'
    requires AllAtStart(p, phis, block, ds, nodes)
    ensures AllAtStart(p, phis', block, ds, nodes')
  {
    forall b | ds.Bytes().Has(b)
      ensures AnswersStart(p, phis', block, ds.target, b, nodes')
    {
      AnswersStartGrows(p, phis, phis', block, ds.target, b, nodes, nodes');
    }
  }

  lemma {:induction false} SitesAtStartMore(p: Procedure, phis: Phis, phis': Phis, block: Node, sites: seq<DefSite>,
      k: nat, nodes: set<RWNode>, more: set<RWNode>)
    requires p.Valid() && p.g.Has(block) && PhisGrow(phis, phis') && k < |sites|
    requires SitesAtStart(p, phis, block, sites[..k], nodes) && AllAtStart(p, phis', block, sites[k], more)
    ensures SitesAtStart(p, phis', block, sites[..k + 1], nodes + more)
  {
    var upto := sites[..k + 1];
    forall j {:trigger upto[j]} | 0 <= j < |upto|
      ensures AllAtStart(p, phis', block, upto[j], nodes + more)
    {
      if j < k {
        assert sites[..k][j] == upto[j];
        AllAtStartGrows(p, phis, phis', block, upto[j], nodes, nodes + more);
      } else {
        AllAtStartGrows(p, phis', phis', block, upto[j], more, nodes + more);
      }
    }
  }

  lemma {:induction false} SitesCoverOpen(p: Procedure, phis: Phis, block: Node, kills: Defs, ds: DefSite,
      sites: seq<DefSite>, known: set<RWNode>, nodes: set<RWNode>, overshot: bool)
    requires p.Valid() && p.g.Has(block) && AreOpen(kills, ds, sites)
    requires SitesFound(p, phis, block, ds, sites, |sites|, known, nodes, overshot)
    ensures OpenFound(p, phis, block, kills, ds, known, nodes, overshot)
  {
    assert Shown(true);
    assert sites[..|sites|] == sites;
    if !overshot {
      forall b | ds.Bytes().Has(b) && DefsAt(kills, ds.target, b) == {}
        ensures AnswersStart(p, phis, block, ds.target, b, nodes)
      {
        assert InSite(sites, b);
        var k :| 0 <= k < |sites| && sites[k].Bytes().Has(b);
        assert AllAtStart(p, phis, block, sites[k], nodes);
      }
    }
    if |sites| > 0 {
      var b := sites[0].Bytes().start;
      assert sites[0].Bytes().Has(b) && InSite(sites, b);
      assert ds.Bytes().Has(b) && DefsAt(kills, ds.target, b) == {};
    }
  }

  lemma {:induction false} EndIsStart(p: Procedure, phis: Phis, block: Node, ds: DefSite, nodes: set<RWNode>,
      overshot: bool)
    requires p.Valid() && p.g.Has(block) && |p.g.Preds(block)| == 1 && p.g.Has(p.g.Preds(block)[0])
    requires EndFound(p, phis, p.g.Preds(block)[0], ds, nodes, overshot)
    ensures StartFound(p, phis, block, ds, nodes, overshot)
  {
    assert Shown(true);
    var q := p.g.Preds(block)[0];
    assert q in p.g.Preds(block);
    if !overshot {
      forall b | ds.Bytes().Has(b)
        ensures AnswersStart(p, phis, block, ds.target, b, nodes)
      {
        assert AnswersEnd(p, phis, q, ds.target, b, nodes);
      }
    }
    if Aligned(p) {
      forall x | x in nodes
        ensures ComesBefore(p, phis, block, ds.target, ds.Bytes(), x)
      {
        assert p.g.Edge(q, block) && Comes(p, phis, q, ds.target, ds.Bytes(), x);
      }
    }
  }

  lemma {:induction false} KnownAndSearched(p: Procedure, s: State, phis: Phis, pending: set<RWNode>, block: Node,
      ds: DefSite, known: set<RWNode>, defs: set<RWNode>, before: bool, after: bool)
    requires p.Valid() && Coherent(p, s, pending, before) && p.g.Has(block) && block in s.infos
    requires PhisGrow(s.phis, phis)
    requires SiteOk(p, ds) && (before ==> after) && known <= defs
    requires forall n {:trigger n in known} :: n in known <==> DefinesSome(s.infos[block].definitions, ds, n)
    requires OpenFound(p, phis, block, s.infos[block].kills, ds, known, defs, after)
    ensures EndFound(p, phis, block, ds, defs, after)
  {
    assert Shown(true);
    var info := s.infos[block];
    if !after {
      forall n | DefinesSome(info.definitions, ds, n)
        ensures n in known
      {
      }
      KnownAnswersEnd(p, s, phis, pending, block, ds, known, defs);
    }
    if Aligned(p) {
      forall x | x in defs
        ensures Comes(p, phis, block, ds.target, ds.Bytes(), x)
      {
        KnownComes(p, s, phis, block, ds, x);
      }
    }
    if OverwritesAll(p, block, ds) {
      KnownIsOwn(p, s, block, ds, known);
    }
  }

  lemma {:induction false} KnownIsOwn(p: Procedure, s: State, block: Node, ds: DefSite, known: set<RWNode>)
    requires p.Valid() && WellFormed(p, s) && p.g.Has(block) && block in s.infos && OverwritesAll(p, block, ds)
    requires forall n {:trigger n in known} :: n in known <==> DefinesSome(s.infos[block].definitions, ds, n)
    ensures !SomeOpen(s.infos[block].kills, ds) && OnlyOwn(p, block, ds, known)
  {
    assert BlockOk(p, s, block) && Opened(true);
    forall x | x in known
      ensures OwnWriter(p, block, ds, x)
    {
      var b :| ds.Bytes().Has(b) && x in DefsAt(s.infos[block].definitions, ds.target, b);
      assert x in s.phis ==> s.phis[x].block != block;
    }
  }

  /** What is kept for a block comes to its end, and so does what is searched for when a byte is open. */
  lemma {:induction false} KnownComes(p: Procedure, s: State, phis: Phis, block: Node, ds: DefSite, x: RWNode)
    requires p.Valid() && WellFormed(p, s) && AlignedState(p, s) && Aligned(p) && IsSite(p, ds.target, ds.Bytes())
    requires p.g.Has(block) && block in s.infos && PhisGrow(s.phis, phis)
    requires DefinesSome(s.infos[block].definitions, ds, x) ||
      (SomeOpen(s.infos[block].kills, ds) && ComesStart(p, phis, block, ds.target, ds.Bytes(), x))
    ensures Comes(p, phis, block, ds.target, ds.Bytes(), x)
  {
    var info, t, i := s.infos[block], ds.target, ds.Bytes();
    if DefinesSome(info.definitions, ds, x) {
      var b :| i.Has(b) && x in DefsAt(info.definitions, t, b);
      assert OnlyKept(p, s.phis, block, info.definitions) && Shown(true);
      KeptComes(p, s.phis, block, t, i, b, x);
      ComesGrows(p, s.phis, phis, block, t, i, x);
    } else {
      var b :| i.Has(b) && DefsAt(info.kills, t, b) == {};
      assert BlockOk(p, s, block);
      CodeWritesSites(p, block);
      ClearByOne(p, p.code[block], t, i, b);
      ComesOn(p, phis, block, t, i, x);
    }
  }

  lemma {:induction false} KnownAnswersEnd(p: Procedure, s: State, phis: Phis, pending: set<RWNode>, block: Node,
      ds: DefSite, known: set<RWNode>, defs: set<RWNode>)
    requires p.Valid() && Coherent(p, s, pending, false) && p.g.Has(block) && block in s.infos && PhisGrow(s.phis, phis)
    requires (forall n {:trigger DefinesSome(s.infos[block].definitions, ds, n)} ::
      DefinesSome(s.infos[block].definitions, ds, n) ==> n in known)
    requires known <= defs && AllOpenAtStart(p, phis, block, s.infos[block].kills, ds, defs)
    ensures AllAtEnd(p, phis, block, ds, defs)
  {
    assert Shown(true);
    var info, t := s.infos[block], ds.target;
    assert BlockOk(p, s, block) && InfoSound(p, s.phis, block, info);
    forall b | ds.Bytes().Has(b)
      ensures AnswersEnd(p, phis, block, t, b, defs)
    {
      assert DefsAt(info.definitions, t, b) <= defs by {
        assert forall n :: n in DefsAt(info.definitions, t, b) ==> DefinesSome(info.definitions, ds, n);
      }
      assert LastWriters(p.code[block], t, b) <= DefsAt(info.definitions, t, b);
      if !Killed(p.code[block], t, b) && DefsAt(info.kills, t, b) != {} {
        AnswersStartGrows(p, s.phis, phis, block, t, b, DefsAt(info.definitions, t, b), defs);
      }
    }
  }

  /** Once the phi is entered, fewer bytes are open than before. */
  lemma {:induction false} CreatingCloses(p: Procedure, s: State, s': State, block: Node, ds: DefSite, bound: nat)
    requires p.Valid() && p.g.Has(block) && Merges(p, block) && Grows(s, s')
    requires forall b :: ds.Bytes().Has(b) ==> !IsOpen(s'.infos, block, ds.target, b)
    requires |OpenSpots(p, s.infos, ds.target)| <= bound
    requires |OpenSpots(p, s.infos, ds.target)| < bound || OpenByte(p, s.infos, block, ds)
    ensures |OpenSpots(p, s'.infos, ds.target)| < bound
  {
    OpenSpotsShrink(p, s, s', ds.target);
    if OpenByte(p, s.infos, block, ds) {
      var b :| ds.Bytes().Has(b) && IsOpen(s.infos, block, ds.target, b);
      var a, c := OpenSpots(p, s'.infos, ds.target), OpenSpots(p, s.infos, ds.target);
      assert Spot(block, b) in c && Spot(block, b) !in a;
      StrictSubset(a, c);
    }
  }

  lemma {:induction false} PhiIsThere(p: Procedure, phis: Phis, phi: RWNode, block: Node, ds: DefSite, overshot: bool)
    requires p.Valid() && p.g.Has(block) && |p.g.Preds(block)| != 1 && phi in phis && phis[phi] == Phi(block, ds)
    ensures StartFound(p, phis, block, ds, {phi}, overshot)
  {
    assert Shown(true);
    forall b | ds.Bytes().Has(b)
      ensures AnswersStart(p, phis, block, ds.target, b, {phi})
    {
      assert IsPhiFor(phis, phi, block, ds.target, b);
    }
  }

  lemma NothingIsThere(p: Procedure, phis: Phis, block: Node, ds: DefSite, overshot: bool)
    requires p.Valid() && p.g.Has(block) && p.g.Preds(block) == []
    ensures StartFound(p, phis, block, ds, {}, overshot)
  {
    assert Shown(true);
  }

  /** The bytes of the next site are still not overwritten. */
  lemma {:induction false} NotYetOverwritten(info: Info, now: Info, site: DefSite, sites: seq<DefSite>, k: nat,
      phi: RWNode)
    requires AreOpen(info.kills, site, sites) && k < |sites| && WithPhi(info, now, site.target, sites[..k], phi)
    ensures forall b :: sites[k].Bytes().Has(b) ==> DefsAt(now.kills, site.target, b) == {}
  {
    forall b | sites[k].Bytes().Has(b)
      ensures DefsAt(now.kills, site.target, b) == {}
    {
      assert InSite(sites, b);
      assert !InSite(sites[..k], b);
    }
  }

  lemma {:induction false} WithPhiMore(info: Info, now: Info, next: Info, target: RWNode, sites: seq<DefSite>, k: nat,
      phi: RWNode)
    requires k < |sites| && sites[k].target == target && WithPhi(info, now, target, sites[..k], phi)
    requires forall t, b {:trigger DefsAt(next.definitions, t, b)} ::
      DefsAt(next.definitions, t, b) == Written(DefsAt(now.definitions, t, b), sites[k].Covers(t, b), phi, false)
    requires forall t, b {:trigger DefsAt(next.kills, t, b)} ::
      DefsAt(next.kills, t, b) == Written(DefsAt(now.kills, t, b), sites[k].Covers(t, b), phi, false)
    ensures WithPhi(info, next, target, sites[..k + 1], phi)
  {
    forall b
      ensures InSite(sites[..k + 1], b) <==> InSite(sites[..k], b) || sites[k].Bytes().Has(b)
    {
      if j :| 0 <= j < k && sites[j].Bytes().Has(b) {
        assert sites[..k][j] == sites[..k + 1][j] == sites[j];
      }
      if sites[k].Bytes().Has(b) {
        assert sites[..k + 1][k] == sites[k];
      }
      if InSite(sites[..k + 1], b) && !sites[k].Bytes().Has(b) {
        var upto := sites[..k + 1];
        var j :| 0 <= j < |upto| && upto[j].Bytes().Has(b);
        assert sites[..k][j] == sites[j];
      }
    }
    forall t, b
      ensures DefsAt(next.definitions, t, b) ==
        Written(DefsAt(info.definitions, t, b), t == target && InSite(sites[..k + 1], b), phi, false)
      ensures DefsAt(next.kills, t, b) ==
        Written(DefsAt(info.kills, t, b), t == target && InSite(sites[..k + 1], b), phi, false)
    {
      assert DefsAt(next.definitions, t, b) ==
          Written(DefsAt(now.definitions, t, b), sites[k].Covers(t, b), phi, false);
      assert DefsAt(next.kills, t, b) == Written(DefsAt(now.kills, t, b), sites[k].Covers(t, b), phi, false);
    }
  }
}
