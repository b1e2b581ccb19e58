/** Which node defined which byte: the maps kept for a basic block, and what is in them after
    local value numbering. */
module BlockDefinitions {
  import opened Offsets
  import opened IntervalMaps

  /** A node of the read-write graph; one of them stands for memory that is not known. */
  datatype RWNode = UnknownMemory | RWNode(id: nat)

  datatype DefSite = DefSite(target: RWNode, offset: Offset, len: Offset) {

    /** The bytes of the site; an unknown offset stretches over all of them. */
    function Bytes(): Interval {
      if offset == UNKNOWN then Interval(0, UNKNOWN) else Interval(offset, Plus(offset, Minus(len, 1)))
    }

    ghost predicate Covers(t: RWNode, b: int) {
      target == t && Bytes().Has(b)
    }
  }

  /** What a node writes, possibly and certainly, and what it reads. */
  datatype Access = Access(node: RWNode, defines: seq<DefSite>, overwrites: seq<DefSite>, uses: seq<DefSite>)

  // ---------------------------------------------------------------------------
  // Sites and intervals

  function SiteOf(target: RWNode, i: Interval): DefSite {
    DefSite(target, i.start, Plus(Minus(i.end, i.start), 1))
  }

  /** Going from an interval to a site and back loses nothing unless the interval begins at the
      unknown offset, or has exactly as many bytes as the unknown length says. */
  lemma {:induction false} SiteOfBytes(target: RWNode, i: Interval)
    requires i.start <= i.end
    ensures SiteOf(target, i).Bytes() == i <==> i.start < UNKNOWN && !(i.start == 0 && i.end == UNKNOWN - 1)
  {
    assert i.start == UNKNOWN ==> SiteOf(target, i).Bytes().start == 0;
  }

  /** A site has the bytes from its offset on, as many as its length says; all of them up to the end if the length
      is unknown or zero, and all bytes of the target if the offset is unknown. */
  ghost predicate HasByte(ds: DefSite, t: RWNode, b: int) {
    && ds.target == t && 0 <= b <= UNKNOWN
    && (ds.offset == UNKNOWN ||
        (ds.offset <= b && (ds.len == UNKNOWN || ds.len == 0 || b < ds.offset + ds.len)))
  }

  /** The interval of a site holds just its bytes. */
  lemma SiteCovers(ds: DefSite, t: RWNode, b: int)
    ensures ds.Covers(t, b) <==> HasByte(ds, t, b)
    ensures ds.target == t && ds.offset == UNKNOWN && 0 <= b <= UNKNOWN ==> ds.Covers(t, b)
    ensures ds.offset < UNKNOWN && 0 < ds.len < UNKNOWN ==>
      (ds.Covers(t, b) <==> ds.target == t && ds.offset <= b < ds.offset + ds.len && b <= UNKNOWN)
  {
  }

  // ---------------------------------------------------------------------------
  // Maps from targets to interval maps

  type Defs = map<RWNode, seq<Entry<RWNode>>>

  ghost predicate ValidDefs(m: Defs) {
    forall t :: t in m ==> m[t] != [] && Sorted(m[t]) && Clean(m[t])
  }

  ghost function DefsAt(m: Defs, t: RWNode, b: int): set<RWNode> {
    if t in m then At(m[t], b) else {}
  }

  /** The node defines a byte of the site. */
  ghost predicate DefinesSome(m: Defs, ds: DefSite, n: RWNode) {
    exists b :: ds.Bytes().Has(b) && n in DefsAt(m, ds.target, b)
  }

  ghost predicate Sane(ds: DefSite) {
    Fits(ds.Bytes())
  }

  /** A write to unknown memory joins the definitions where there are some already. */
  function WithUnknown(nodes: set<RWNode>, applies: bool, node: RWNode): set<RWNode> {
    if applies && nodes != {} then nodes + {node} else nodes
  }

  /** All targets but those left have been dealt with. */
  ghost predicate UnknownAdded(m: Defs, n: Defs, left: set<RWNode>, node: RWNode) {
    forall t, b {:trigger DefsAt(n, t, b)} :: DefsAt(n, t, b) == WithUnknown(DefsAt(m, t, b), t !in left, node)
  }

  lemma NothingAdded(m: Defs, node: RWNode)
    requires ValidDefs(m)
    ensures AddedSoFar(m, m, m.Keys, node, false)
  {
  }

  lemma AddUnknown(m: Defs, n: Defs, o: Defs, left: set<RWNode>, target: RWNode, node: RWNode)
    requires UnknownAdded(m, n, left, node) && target in left
    requires forall t, b {:trigger DefsAt(o, t, b)} ::
      DefsAt(o, t, b) == WithUnknown(DefsAt(n, t, b), t == target, node)
    ensures UnknownAdded(m, o, left - {target}, node)
  {
    forall t, b
      ensures DefsAt(o, t, b) == WithUnknown(DefsAt(m, t, b), t !in left - {target}, node)
    {
      assert DefsAt(o, t, b) == WithUnknown(DefsAt(n, t, b), t == target, node);
    }
  }

  /** The two maps agree on these targets. */
  ghost predicate SameAt(m: Defs, n: Defs, targets: set<RWNode>) {
    forall t {:trigger t in targets} :: t in targets ==> t in m && t in n && m[t] == n[t]
  }

  /** What is known when a node has been added to all targets but those left. */
  ghost predicate AddedSoFar(m: Defs, n: Defs, left: set<RWNode>, node: RWNode, changed: bool) {
    && ValidDefs(n) && n.Keys == m.Keys && left <= m.Keys
    && UnknownAdded(m, n, left, node) && SameAt(m, n, left) && (changed <==> !SameAt(m, n, n.Keys))
  }

  lemma AllAdded(m: Defs, n: Defs, node: RWNode, changed: bool)
    requires AddedSoFar(m, n, {}, node, changed)
    ensures ValidDefs(n) && UnknownAdded(m, n, {}, node) && (changed <==> n != m)
  {
  }

  lemma OneMoreSame(m: Defs, was: Defs, n: Defs, left: set<RWNode>, target: RWNode)
    requires m.Keys == was.Keys == n.Keys && target in left && left <= m.Keys && SameAt(m, was, left)
    requires SameAt(was, n, n.Keys - {target})
    ensures SameAt(m, n, left - {target})
    ensures !SameAt(m, n, n.Keys) <==> !SameAt(m, was, was.Keys) || n[target] != was[target]
  {
    forall t | t in left - {target}
      ensures m[t] == n[t]
    {
      assert t in left && t in n.Keys - {target};
    }
    if t :| t in was.Keys && m[t] != was[t] {
      assert t in n.Keys - {target};
    }
    if t :| t in n.Keys && m[t] != n[t] {
      assert t != target ==> t in n.Keys - {target};
    }
  }

  class DefinitionsMap {
    var definitions: Defs

    constructor (m: Defs)
      ensures definitions == m
    {
      definitions := m;
    }

    method Add(ds: DefSite, node: RWNode) returns (changed: bool)
      requires ValidDefs(definitions) && Sane(ds)
      modifies this
      ensures ValidDefs(definitions)
      ensures forall t, b {:trigger DefsAt(definitions, t, b)} ::
        DefsAt(definitions, t, b) == Written(DefsAt(old(definitions), t, b), ds.Covers(t, b), node, false)
      ensures changed <==> definitions != old(definitions)
    {
      changed := Write(ds, node, false);
    }

    method Update(ds: DefSite, node: RWNode) returns (changed: bool)
      requires ValidDefs(definitions) && Sane(ds)
      modifies this
      ensures ValidDefs(definitions)
      ensures forall t, b {:trigger DefsAt(definitions, t, b)} ::
        DefsAt(definitions, t, b) == Written(DefsAt(old(definitions), t, b), ds.Covers(t, b), node, true)
      ensures changed <==> definitions != old(definitions)
    {
      changed := Write(ds, node, true);
    }

    method Write(ds: DefSite, node: RWNode, update: bool) returns (changed: bool)
      requires ValidDefs(definitions) && Sane(ds)
      modifies this
      ensures ValidDefs(definitions)
      ensures forall t, b {:trigger DefsAt(definitions, t, b)} ::
        DefsAt(definitions, t, b) == Written(DefsAt(old(definitions), t, b), ds.Covers(t, b), node, update)
      ensures changed <==> definitions != old(definitions)
    {
      var offsets := new DisjunctiveIntervalMap(if ds.target in definitions then definitions[ds.target] else []);
      changed := offsets.Add(ds.Bytes(), node, update);
      definitions := definitions[ds.target := offsets.mapping];
    }

    method AddAll(node: RWNode) returns (changed: bool)
      requires ValidDefs(definitions)
      modifies this
      ensures ValidDefs(definitions)
      ensures UnknownAdded(old(definitions), definitions, {}, node)
      ensures changed <==> definitions != old(definitions)
    {
      changed := false;
      var left := definitions.Keys;
      ghost var before := definitions;
      NothingAdded(before, node);
      while left != {}
        invariant AddedSoFar(before, definitions, left, node, changed)
        decreases |left|
      {
        changed, left := AddAllNext(node, left, changed, before);
      }
      AllAdded(before, definitions, node, changed);
    }

    method AddAllNext(node: RWNode, left: set<RWNode>, changed: bool, ghost before: Defs)
        returns (changed': bool, left': set<RWNode>)
      requires AddedSoFar(before, definitions, left, node, changed) && left != {}
      modifies this
      ensures AddedSoFar(before, definitions, left', node, changed') && |left'| < |left|
    {
      var target :| target in left;
      ghost var was := definitions;
      left' := left - {target};
      var differs := AddAllTo(target, node);
      changed' := changed || differs;
      AddUnknown(before, was, definitions, left, target, node);
      OneMoreSame(before, was, definitions, left, target);
    }

    method AddAllTo(target: RWNode, node: RWNode) returns (changed: bool)
      requires ValidDefs(definitions) && target in definitions
      modifies this
      ensures ValidDefs(definitions) && definitions.Keys == old(definitions).Keys
      ensures SameAt(old(definitions), definitions, definitions.Keys - {target})
      ensures changed <==> definitions[target] != old(definitions)[target]
      ensures forall t, b {:trigger DefsAt(definitions, t, b)} ::
        DefsAt(definitions, t, b) == WithUnknown(DefsAt(old(definitions), t, b), t == target, node)
    {
      var offsets := new DisjunctiveIntervalMap(definitions[target]);
      changed := offsets.AddAll(node);
      definitions := definitions[target := offsets.mapping];
    }

    /** The definitions of any byte of the site. */
    method Get(ds: DefSite) returns (nodes: set<RWNode>)
      requires ValidDefs(definitions) && Sane(ds)
      ensures forall n {:trigger n in nodes} {:trigger DefinesSome(definitions, ds, n)} ::
        n in nodes <==> DefinesSome(definitions, ds, n)
    {
      if ds.target !in definitions {
        return {};
      }
      var offsets := new DisjunctiveIntervalMap(definitions[ds.target]);
      nodes := offsets.Gather(ds.Bytes());
    }

    method UndefinedIntervals(ds: DefSite) returns (gaps: seq<Interval>)
      requires ValidDefs(definitions) && Sane(ds)
      ensures ds.target !in definitions ==> gaps == [Interval(ds.offset, Plus(ds.offset, Minus(ds.len, 1)))]
      ensures ds.target in definitions ==>
        && AreGaps(definitions[ds.target], ds.Bytes(), gaps, ds.Bytes().end + 1)
        && (gaps != [] && gaps[|gaps| - 1].end > ds.Bytes().end <==> Overshoots(definitions[ds.target], ds.Bytes()))
        && EndsAtEntry(definitions[ds.target], ds.Bytes(), gaps)
    {
      if ds.target !in definitions {
        return [Interval(ds.offset, Plus(ds.offset, Minus(ds.len, 1)))];
      }
      var offsets := new DisjunctiveIntervalMap(definitions[ds.target]);
      gaps := offsets.Uncovered(ds.Bytes());
    }
  }

  // ---------------------------------------------------------------------------
  // What one node does to the definitions of a byte

  ghost predicate CoveredBy(sites: seq<DefSite>, t: RWNode, b: int) {
    exists k :: 0 <= k < |sites| && !sites[k].target.UnknownMemory? && sites[k].Covers(t, b)
  }

  ghost predicate SomeUnknown(sites: seq<DefSite>) {
    exists k :: 0 <= k < |sites| && sites[k].target.UnknownMemory?
  }

  ghost predicate SaneSites(sites: seq<DefSite>) {
    forall k {:trigger sites[k]} :: 0 <= k < |sites| && !sites[k].target.UnknownMemory? ==> Sane(sites[k])
  }

  /** Unknown memory is never overwritten for certain. */
  ghost predicate SaneAccess(e: Access) {
    SaneSites(e.defines) && SaneSites(e.overwrites) && !SomeUnknown(e.overwrites)
  }

  ghost predicate Strong(e: Access, t: RWNode, b: int) {
    CoveredBy(e.overwrites, t, b)
  }

  ghost predicate Writes(e: Access, t: RWNode, b: int) {
    Strong(e, t, b) || CoveredBy(e.defines, t, b)
  }

  ghost predicate Wild(e: Access) {
    SomeUnknown(e.defines)
  }

  /** The definitions of a byte after some writes to it, and perhaps to unknown memory, by one node. */
  ghost function Weakly(nodes: set<RWNode>, covered: bool, unknown: bool, node: RWNode): set<RWNode> {
    if covered then nodes + {node} else WithUnknown(nodes, unknown, node)
  }

  ghost function After(e: Access, node: RWNode, nodes: set<RWNode>, t: RWNode, b: int): set<RWNode> {
    if Strong(e, t, b) then {node} else Weakly(nodes, CoveredBy(e.defines, t, b), Wild(e), node)
  }

  /** The possible writes of a node have turned m into n. */
  ghost predicate DefinesDone(m: Defs, n: Defs, sites: seq<DefSite>, node: RWNode) {
    forall t, b {:trigger DefsAt(n, t, b)} ::
        DefsAt(n, t, b) == Weakly(DefsAt(m, t, b), CoveredBy(sites, t, b), SomeUnknown(sites), node)
  }

  /** The certain writes of a node have turned m into n, where `update` decides whether they replace
      what was there. */
  ghost predicate OverwritesDone(m: Defs, n: Defs, sites: seq<DefSite>, node: RWNode, update: bool) {
    forall t, b {:trigger DefsAt(n, t, b)} ::
        DefsAt(n, t, b) == Written(DefsAt(m, t, b), CoveredBy(sites, t, b), node, update)
  }

  lemma {:induction false} CoveredByMore(sites: seq<DefSite>, site: DefSite, t: RWNode, b: int)
    ensures CoveredBy(sites + [site], t, b) <==>
      CoveredBy(sites, t, b) || (!site.target.UnknownMemory? && site.Covers(t, b))
    ensures SomeUnknown(sites + [site]) <==> SomeUnknown(sites) || site.target.UnknownMemory?
  {
    var all := sites + [site];
    assert all[|sites|] == site;
    if k :| 0 <= k < |sites| && !sites[k].target.UnknownMemory? && sites[k].Covers(t, b) {
      assert all[k] == sites[k];
    }
    if k :| 0 <= k < |sites| && sites[k].target.UnknownMemory? {
      assert all[k] == sites[k];
    }
  }

  lemma {:induction false} DefinesOneMore(m: Defs, n: Defs, o: Defs, sites: seq<DefSite>, site: DefSite, node: RWNode)
    requires DefinesDone(m, n, sites, node)
    requires forall t, b {:trigger DefsAt(o, t, b)} ::
      DefsAt(o, t, b) == if site.target.UnknownMemory? then WithUnknown(DefsAt(n, t, b), true, node)
                         else Written(DefsAt(n, t, b), site.Covers(t, b), node, false)
    ensures DefinesDone(m, o, sites + [site], node)
  {
    forall t, b
      ensures DefsAt(o, t, b) ==
        Weakly(DefsAt(m, t, b), CoveredBy(sites + [site], t, b), SomeUnknown(sites + [site]), node)
    {
      CoveredByMore(sites, site, t, b);
      assert DefsAt(n, t, b) == Weakly(DefsAt(m, t, b), CoveredBy(sites, t, b), SomeUnknown(sites), node);
    }
  }

  lemma {:induction false} OverwritesOneMore(m: Defs, n: Defs, o: Defs, sites: seq<DefSite>, site: DefSite,
      node: RWNode, update: bool)
    requires OverwritesDone(m, n, sites, node, update) && !site.target.UnknownMemory?
    requires forall t, b {:trigger DefsAt(o, t, b)} ::
      DefsAt(o, t, b) == Written(DefsAt(n, t, b), site.Covers(t, b), node, update)
    ensures OverwritesDone(m, o, sites + [site], node, update)
  {
    forall t, b
      ensures DefsAt(o, t, b) == Written(DefsAt(m, t, b), CoveredBy(sites + [site], t, b), node, update)
    {
      CoveredByMore(sites, site, t, b);
      assert DefsAt(n, t, b) == Written(DefsAt(m, t, b), CoveredBy(sites, t, b), node, update);
    }
  }

  class Definitions {
    var processed: bool
    var definitions: Defs
    var kills: Defs
    var unknownWrites: seq<RWNode>

    constructor ()
      ensures definitions == map[] && kills == map[] && unknownWrites == [] && !processed
    {
      processed, definitions, kills, unknownWrites := false, map[], map[], [];
    }

    /** The definitions of a block without writes to unknown memory. */
    constructor From(definitions: Defs, kills: Defs)
      ensures this.definitions == definitions && this.kills == kills && unknownWrites == [] && processed
    {
      this.processed, this.definitions, this.kills, this.unknownWrites := true, definitions, kills, [];
    }

    ghost predicate Valid()
      reads this
    {
      ValidDefs(definitions) && ValidDefs(kills)
    }

    /** As if the node were executed when these are the definitions; `defnode` is recorded as the one
        that defines. */
    method Update(e: Access, defnode: RWNode)
      requires Valid() && SaneAccess(e)
      modifies this
      ensures Valid() && processed == old(processed)
      ensures forall t, b {:trigger DefsAt(definitions, t, b)} ::
        DefsAt(definitions, t, b) == After(e, defnode, DefsAt(old(definitions), t, b), t, b)
      ensures OverwritesDone(old(kills), kills, e.overwrites, defnode, false)
      ensures forall n :: n in unknownWrites <==> n in old(unknownWrites) || (Wild(e) && n == defnode)
    {
      ghost var m := definitions;
      UpdatePossible(e.defines, defnode);
      ghost var n := definitions;
      UpdateCertain(e.overwrites, defnode);
      forall t, b
        ensures DefsAt(definitions, t, b) == After(e, defnode, DefsAt(m, t, b), t, b)
      {
        assert DefsAt(definitions, t, b) == Written(DefsAt(n, t, b), CoveredBy(e.overwrites, t, b), defnode, true);
      }
    }

    method UpdatePossible(sites: seq<DefSite>, defnode: RWNode)
      requires Valid() && SaneSites(sites)
      modifies this
      ensures Valid() && processed == old(processed) && kills == old(kills)
      ensures DefinesDone(old(definitions), definitions, sites, defnode)
      ensures forall n :: n in unknownWrites <==> n in old(unknownWrites) || (SomeUnknown(sites) && n == defnode)
    {
      for k := 0 to |sites|
        invariant Valid() && processed == old(processed) && kills == old(kills)
        invariant DefinesDone(old(definitions), definitions, sites[..k], defnode)
        invariant forall n ::
          n in unknownWrites <==> n in old(unknownWrites) || (SomeUnknown(sites[..k]) && n == defnode)
      {
        ghost var before := definitions;
        var map' := new DefinitionsMap(definitions);
        if sites[k].target.UnknownMemory? {
          var _ := map'.AddAll(defnode);
          assert UnknownAdded(definitions, map'.definitions, {}, defnode);
          unknownWrites := unknownWrites + [defnode];
        } else {
          var _ := map'.Add(sites[k], defnode);
        }
        definitions := map'.definitions;
        DefinesOneMore(old(definitions), before, definitions, sites[..k], sites[k], defnode);
        CoveredByMore(sites[..k], sites[k], defnode, 0);
        assert sites[..k + 1] == sites[..k] + [sites[k]];
      }
      assert sites[..|sites|] == sites;
    }

    method UpdateCertain(sites: seq<DefSite>, defnode: RWNode)
      requires Valid() && SaneSites(sites) && !SomeUnknown(sites)
      modifies this
      ensures Valid() && processed == old(processed) && unknownWrites == old(unknownWrites)
      ensures OverwritesDone(old(definitions), definitions, sites, defnode, true)
      ensures OverwritesDone(old(kills), kills, sites, defnode, false)
    {
      for k := 0 to |sites|
        invariant Valid() && processed == old(processed) && unknownWrites == old(unknownWrites)
        invariant OverwritesDone(old(definitions), definitions, sites[..k], defnode, true)
        invariant OverwritesDone(old(kills), kills, sites[..k], defnode, false)
      {
        assert !sites[k].target.UnknownMemory?;
        ghost var beforeKills, before := kills, definitions;
        var killsMap := new DefinitionsMap(kills);
        var _ := killsMap.Add(sites[k], defnode);
        kills := killsMap.definitions;
        var definitionsMap := new DefinitionsMap(definitions);
        var _ := definitionsMap.Update(sites[k], defnode);
        definitions := definitionsMap.definitions;
        OverwritesOneMore(old(kills), beforeKills, kills, sites[..k], sites[k], defnode, false);
        OverwritesOneMore(old(definitions), before, definitions, sites[..k], sites[k], defnode, true);
        assert sites[..k + 1] == sites[..k] + [sites[k]];
      }
      assert sites[..|sites|] == sites;
    }

    /** A phi both defines the site, beside weak definitions that there may be, and overwrites it. */
    method Define(site: DefSite, phi: RWNode)
      requires Valid() && Sane(site)
      modifies this
      ensures Valid()
      ensures forall t, b {:trigger DefsAt(definitions, t, b)} ::
        DefsAt(definitions, t, b) == Written(DefsAt(old(definitions), t, b), site.Covers(t, b), phi, false)
      ensures forall t, b {:trigger DefsAt(kills, t, b)} ::
        DefsAt(kills, t, b) == Written(DefsAt(old(kills), t, b), site.Covers(t, b), phi, false)
    {
      var definitionsMap := new DefinitionsMap(definitions);
      var _ := definitionsMap.Add(site, phi);
      definitions := definitionsMap.definitions;
      var killsMap := new DefinitionsMap(kills);
      var _ := killsMap.Add(site, phi);
      kills := killsMap.definitions;
    }

    /** The definitions of the site or, if there are none at all, the writes to unknown memory. */
    method Get(ds: DefSite) returns (nodes: set<RWNode>)
      requires Valid() && Sane(ds)
      ensures forall n {:trigger n in nodes} ::
        n in nodes <==> if exists m :: DefinesSome(definitions, ds, m) then DefinesSome(definitions, ds, n)
            else n in unknownWrites
    {
      var map' := new DefinitionsMap(definitions);
      nodes := map'.Get(ds);
      assert nodes == {} ==> forall m :: DefinesSome(definitions, ds, m) ==> m in nodes;
      if nodes == {} {
        nodes := set n | n in unknownWrites;
      }
    }

    /** The bytes of the site that no node is known to overwrite, as runs that may go past its end. */
    method Uncovered(ds: DefSite) returns (gaps: seq<Interval>)
      requires Valid() && Sane(ds)
      ensures ds.target !in kills ==> gaps == [Interval(ds.offset, Plus(ds.offset, Minus(ds.len, 1)))]
      ensures ds.target in kills ==>
        && AreGaps(kills[ds.target], ds.Bytes(), gaps, ds.Bytes().end + 1)
        && (gaps != [] && gaps[|gaps| - 1].end > ds.Bytes().end <==> Overshoots(kills[ds.target], ds.Bytes()))
        && EndsAtEntry(kills[ds.target], ds.Bytes(), gaps)
    {
      var map' := new DefinitionsMap(kills);
      gaps := map'.UndefinedIntervals(ds);
    }

    /** The same runs as sites. */
    method UncoveredSites(ds: DefSite) returns (sites: seq<DefSite>)
      requires Valid() && Sane(ds)
      ensures AreOpen(kills, ds, sites) && EndInFront(kills, ds, sites)
      ensures GoesPast(sites, ds) <==> ds.target in kills && Overshoots(kills[ds.target], ds.Bytes())
    {
      var gaps := Uncovered(ds);
      sites := seq(|gaps|, i requires 0 <= i < |gaps| => SiteOf(ds.target, gaps[i]));
      if ds.target in kills {
        GapsAreOpen(kills, ds, gaps, sites);
        GapsEndInFront(kills, ds, gaps, sites);
      } else {
        OneOpenSite(kills, ds, sites);
      }
    }
  }

  // ---------------------------------------------------------------------------
  // Sites that are not overwritten

  ghost predicate InSite(sites: seq<DefSite>, b: int) {
    exists k :: 0 <= k < |sites| && sites[k].Bytes().Has(b)
  }

  /** The sites are in order and apart, start in ds, are not overwritten, and have all such bytes of ds. */
  ghost predicate AreOpen(kills: Defs, ds: DefSite, sites: seq<DefSite>) {
    && (forall k {:trigger sites[k]} :: 0 <= k < |sites| ==>
          sites[k].target == ds.target && Sane(sites[k]) && ds.Bytes().Has(sites[k].Bytes().start))
    && (forall j, k {:trigger sites[j], sites[k]} ::
         0 <= j < k < |sites| ==> sites[j].Bytes().end + 1 < sites[k].Bytes().start)
    && (forall b {:trigger InSite(sites, b)} {:trigger DefsAt(kills, ds.target, b)} ::
         InSite(sites, b) ==> DefsAt(kills, ds.target, b) == {})
    && (forall b {:trigger InSite(sites, b)} {:trigger DefsAt(kills, ds.target, b)} ::
          ds.Bytes().Has(b) && DefsAt(kills, ds.target, b) == {} ==> InSite(sites, b))
  }

  /** A site that goes past the end of ds ends in front of an overwritten byte. */
  ghost predicate EndInFront(kills: Defs, ds: DefSite, sites: seq<DefSite>) {
    forall k {:trigger sites[k]} :: 0 <= k < |sites| && sites[k].Bytes().end > ds.Bytes().end ==>
      DefsAt(kills, ds.target, sites[k].Bytes().end + 1) != {}
  }

  ghost predicate GoesPast(sites: seq<DefSite>, ds: DefSite) {
    exists b :: InSite(sites, b) && !ds.Bytes().Has(b)
  }

  lemma {:induction false} OneOpenSite(kills: Defs, ds: DefSite, sites: seq<DefSite>)
    requires Sane(ds) && ds.target !in kills
    requires sites == [SiteOf(ds.target, Interval(ds.offset, Plus(ds.offset, Minus(ds.len, 1))))]
    ensures AreOpen(kills, ds, sites) && EndInFront(kills, ds, sites) && !GoesPast(sites, ds)
  {
    assert sites[0].Bytes() == ds.Bytes();
    forall b
      ensures InSite(sites, b) <==> ds.Bytes().Has(b)
    {
      assert ds.Bytes().Has(b) ==> sites[0].Bytes().Has(b);
    }
  }

  lemma {:induction false} SitesOfGaps(target: RWNode, gaps: seq<Interval>, sites: seq<DefSite>)
    requires |sites| == |gaps|
    requires forall k {:trigger sites[k]} :: 0 <= k < |gaps| ==> sites[k] == SiteOf(target, gaps[k]) && Fits(gaps[k])
    ensures forall k {:trigger sites[k]} {:trigger gaps[k]} ::
      0 <= k < |gaps| ==> sites[k].Bytes() == gaps[k] && sites[k].target == target
    ensures forall b :: InSite(sites, b) <==> InSome(gaps, b)
  {
    forall k {:trigger sites[k]} | 0 <= k < |gaps|
      ensures sites[k].Bytes() == gaps[k] && sites[k].target == target
    {
      assert sites[k] == SiteOf(target, gaps[k]) && Fits(gaps[k]);
      SiteOfBytes(target, gaps[k]);
    }
    forall b
      ensures InSite(sites, b) <==> InSome(gaps, b)
    {
      if k :| 0 <= k < |sites| && sites[k].Bytes().Has(b) {
        assert gaps[k].Has(b);
      }
      if k :| 0 <= k < |gaps| && gaps[k].Has(b) {
        assert sites[k].Bytes().Has(b);
      }
    }
  }

  lemma {:induction false} GapsGoPast(ds: DefSite, gaps: seq<Interval>, sites: seq<DefSite>)
    requires forall b :: InSite(sites, b) <==> InSome(gaps, b)
    requires forall j, k {:trigger gaps[j], gaps[k]} :: 0 <= j < k < |gaps| ==> gaps[j].end + 1 < gaps[k].start
    requires forall k {:trigger gaps[k]} :: 0 <= k < |gaps| ==> ds.Bytes().start <= gaps[k].start <= gaps[k].end
    ensures GoesPast(sites, ds) <==> gaps != [] && gaps[|gaps| - 1].end > ds.Bytes().end
  {
    if gaps != [] && gaps[|gaps| - 1].end > ds.Bytes().end {
      assert gaps[|gaps| - 1].Has(gaps[|gaps| - 1].end);
      assert InSome(gaps, gaps[|gaps| - 1].end);
    }
  }

  lemma {:induction false} GapsAreOpen(kills: Defs, ds: DefSite, gaps: seq<Interval>, sites: seq<DefSite>)
    requires ds.target in kills && AreGaps(kills[ds.target], ds.Bytes(), gaps, ds.Bytes().end + 1)
    requires Clean(kills[ds.target]) && Fits(ds.Bytes())
    requires |sites| == |gaps|
    requires forall k {:trigger sites[k]} :: 0 <= k < |gaps| ==> sites[k] == SiteOf(ds.target, gaps[k])
    ensures AreOpen(kills, ds, sites)
    ensures GoesPast(sites, ds) <==> gaps != [] && gaps[|gaps| - 1].end > ds.Bytes().end
  {
    SitesOfGaps(ds.target, gaps, sites);
    GapsGoPast(ds, gaps, sites);
  }

  lemma {:induction false} GapsEndInFront(kills: Defs, ds: DefSite, gaps: seq<Interval>, sites: seq<DefSite>)
    requires ds.target in kills && AreGaps(kills[ds.target], ds.Bytes(), gaps, ds.Bytes().end + 1)
    requires Clean(kills[ds.target]) && Fits(ds.Bytes())
    requires EndsAtEntry(kills[ds.target], ds.Bytes(), gaps)
    requires |sites| == |gaps|
    requires forall k {:trigger sites[k]} :: 0 <= k < |gaps| ==> sites[k] == SiteOf(ds.target, gaps[k])
    ensures EndInFront(kills, ds, sites)
  {
    SitesOfGaps(ds.target, gaps, sites);
    PastIsLast(ds.Bytes().end, gaps);
  }

  lemma PastIsLast(end: int, gaps: seq<Interval>)
    requires forall j, k {:trigger gaps[j], gaps[k]} :: 0 <= j < k < |gaps| ==> gaps[j].end + 1 < gaps[k].start
    requires forall k {:trigger gaps[k]} :: 0 <= k < |gaps| ==> gaps[k].start <= end
    ensures forall k {:trigger gaps[k]} :: 0 <= k < |gaps| && gaps[k].end > end ==> k == |gaps| - 1
  {
    if gaps != [] {
      assert gaps[|gaps| - 1].start <= end;
    }
  }
}
