/** Procedures whose sites overlap only where they are equal: in them every site is overwritten as a
    whole or not at all. */
module AlignedSites {
  import opened Graphs
  import opened Guards
  import opened Offsets
  import opened IntervalMaps
  import opened BlockDefinitions
  import opened LocalNumbering
  import opened ReachingDefinitions
  import opened ContainedSearches

  ghost predicate AmongSites(sites: seq<DefSite>, t: RWNode, i: Interval) {
    exists k :: 0 <= k < |sites| && sites[k].target == t && sites[k].Bytes() == i
  }

  ghost predicate OfAccess(a: Access, t: RWNode, i: Interval) {
    AmongSites(a.overwrites, t, i) || AmongSites(a.uses, t, i)
  }

  /** Some node of the procedure overwrites or reads these bytes of the target. */
  ghost predicate IsSite(p: Procedure, t: RWNode, i: Interval) {
    exists block, k :: block in p.code && 0 <= k < |p.code[block]| && OfAccess(p.code[block][k], t, i)
  }

  ghost predicate Apart(i: Interval, j: Interval) {
    i == j || !Meets(i, j)
  }

  /** Known from the procedure alone, before any search. */
  ghost predicate Aligned(p: Procedure) {
    forall k {:trigger Shown(k)} :: Shown(k) ==>
      forall t, i, j {:trigger IsSite(p, t, i), IsSite(p, t, j)} :: IsSite(p, t, i) && IsSite(p, t, j) ==> Apart(i, j)
  }

  ghost predicate Uniform(kills: Defs, t: RWNode, i: Interval) {
    forall b, c {:trigger DefsAt(kills, t, b), DefsAt(kills, t, c)} ::
        i.Has(b) && i.Has(c) && DefsAt(kills, t, b) == {} ==> DefsAt(kills, t, c) == {}
  }

  /** Each site counts as overwritten as a whole or not at all. */
  ghost predicate AllUniform(p: Procedure, kills: Defs) {
    forall k {:trigger Shown(k)} :: Shown(k) ==>
      forall t, i {:trigger IsSite(p, t, i)} :: IsSite(p, t, i) ==> Uniform(kills, t, i)
  }

  // ---------------------------------------------------------------------------
  // Local value numbering

  /** All certain writes of the list are to sites of the procedure, and all these are apart. */
  ghost predicate WritesSites(p: Procedure, list: seq<Access>) {
    forall k, j {:trigger list[k].overwrites[j]} :: 0 <= k < |list| && 0 <= j < |list[k].overwrites| ==>
      IsSite(p, list[k].overwrites[j].target, list[k].overwrites[j].Bytes())
  }

  lemma {:induction false} CodeWritesSites(p: Procedure, block: Node)
    requires block in p.code
    ensures WritesSites(p, p.code[block])
  {
    var list := p.code[block];
    forall k, j | 0 <= k < |list| && 0 <= j < |list[k].overwrites|
      ensures IsSite(p, list[k].overwrites[j].target, list[k].overwrites[j].Bytes())
    {
      assert AmongSites(list[k].overwrites, list[k].overwrites[j].target, list[k].overwrites[j].Bytes());
      assert OfAccess(p.code[block][k], list[k].overwrites[j].target, list[k].overwrites[j].Bytes());
    }
  }

  lemma {:induction false} KilledTogether(p: Procedure, list: seq<Access>, t: RWNode, i: Interval, b: int, c: int)
    requires Aligned(p) && WritesSites(p, list) && IsSite(p, t, i) && i.Has(b) && i.Has(c) && Killed(list, t, c)
    ensures Killed(list, t, b)
  {
    assert Shown(true);
    var k :| 0 <= k < |list| && Strong(list[k], t, c);
    var j :| 0 <= j < |list[k].overwrites| && !list[k].overwrites[j].target.UnknownMemory? &&
        list[k].overwrites[j].Covers(t, c);
    var site := list[k].overwrites[j];
    assert IsSite(p, t, site.Bytes());
    assert Apart(i, site.Bytes());
    assert list[k].overwrites[j].Covers(t, b);
    assert Strong(list[k], t, b);
  }

  lemma {:induction false} NumberedIsUniform(p: Procedure, list: seq<Access>, definitions: Defs, kills: Defs)
    requires Aligned(p) && WritesSites(p, list) && Numbered(list, definitions, kills)
    ensures AllUniform(p, kills)
  {
    forall t, i, b, c | IsSite(p, t, i) && i.Has(b) && i.Has(c) && DefsAt(kills, t, b) == {}
      ensures DefsAt(kills, t, c) == {}
    {
      if Killed(list, t, c) {
        KilledTogether(p, list, t, i, b, c);
      }
    }
  }

  // ---------------------------------------------------------------------------
  // Open runs

  /** If some entry overlaps the site, the site is overwritten as a whole. */
  lemma {:induction false} NeverPast(p: Procedure, kills: Defs, ds: DefSite, sites: seq<DefSite>)
    requires ValidDefs(kills) && Sane(ds) && Uniform(kills, ds.target, ds.Bytes())
    requires GoesPast(sites, ds) <==> ds.target in kills && Overshoots(kills[ds.target], ds.Bytes())
    ensures !GoesPast(sites, ds)
  {
    if ds.target in kills && SomeMeets(kills[ds.target], ds.Bytes()) {
      var m, i := kills[ds.target], ds.Bytes();
      var j :| 0 <= j < |m| && Meets(m[j].key, i);
      var b := if m[j].key.start <= i.start then i.start else m[j].key.start;
      AtIndex(m, j, b);
      assert DefsAt(kills, ds.target, b) != {} && i.Has(b) && i.Has(i.end);
      assert DefsAt(kills, ds.target, i.end) == At(m, i.end);
    }
  }

  /** So the open runs of a site are the site itself, or there are none. */
  lemma {:induction false} OpenIsWhole(kills: Defs, ds: DefSite, sites: seq<DefSite>, k: nat)
    requires Sane(ds) && Uniform(kills, ds.target, ds.Bytes()) && AreOpen(kills, ds, sites) && !GoesPast(sites, ds)
    requires k < |sites|
    ensures sites[k].target == ds.target && sites[k].Bytes() == ds.Bytes()
  {
    var i := ds.Bytes();
    var s := sites[k].Bytes();
    assert s.Has(s.start) && InSite(sites, s.start) && DefsAt(kills, ds.target, s.start) == {};
    assert forall c {:trigger DefsAt(kills, ds.target, c)} :: i.Has(c) ==> DefsAt(kills, ds.target, c) == {};
    assert s.Has(s.end) && InSite(sites, s.end) && i.Has(s.end);
    RunIsClosed(kills, ds, sites, k);
  }

  lemma {:induction false} RunIsClosed(kills: Defs, ds: DefSite, sites: seq<DefSite>, k: nat)
    requires AreOpen(kills, ds, sites) && k < |sites| && ds.Bytes().Has(sites[k].Bytes().end)
    requires forall c {:trigger DefsAt(kills, ds.target, c)} :: ds.Bytes().Has(c) ==> DefsAt(kills, ds.target, c) == {}
    ensures sites[k].Bytes() == ds.Bytes()
  {
    var i, s := ds.Bytes(), sites[k].Bytes();
    forall b, c | i.Has(c) && s.Has(b) && (c == b - 1 || c == b + 1)
      ensures s.Has(c)
    {
      assert DefsAt(kills, ds.target, c) == {} && InSite(sites, c);
      var j :| 0 <= j < |sites| && sites[j].Bytes().Has(c);
      NeighboursAreOne(kills, ds, sites, j, k, c, b);
    }
    assert i.Has(s.start - 1) ==> s.Has(s.start) && s.Has(s.start - 1);
    assert i.Has(s.end + 1) ==> s.Has(s.end) && s.Has(s.end + 1);
  }

  /** Different runs are apart. */
  lemma NeighboursAreOne(kills: Defs, ds: DefSite, sites: seq<DefSite>, j: nat, k: nat, b: int, c: int)
    requires AreOpen(kills, ds, sites) && j < |sites| && k < |sites| && sites[j].Bytes().Has(b)
    requires sites[k].Bytes().Has(c)
    requires b == c - 1 || b == c + 1
    ensures j == k
  {
  }

  // ---------------------------------------------------------------------------
  // Aligned procedures are contained

  ghost function UseSpans(p: Procedure): (spans: set<Span>)
    ensures forall block, u, j :: block in p.code && 0 <= u < |p.code[block]| && 0 <= j < |p.code[block][u].uses| ==>
      SpanOf(p.code[block][u].uses[j]) in spans
    ensures forall s :: s in spans ==> IsSite(p, s.target, s.bytes)
  {
    var spans := set block, u, j | block in p.code.Keys && 0 <= u < |p.code[block]| &&
        0 <= j < |p.code[block][u].uses| ::
      SpanOf(p.code[block][u].uses[j]);
    assert forall s :: s in spans ==> IsSite(p, s.target, s.bytes) by {
      forall block, u, j | block in p.code && 0 <= u < |p.code[block]| && 0 <= j < |p.code[block][u].uses|
        ensures IsSite(p, SpanOf(p.code[block][u].uses[j]).target, SpanOf(p.code[block][u].uses[j]).bytes)
      {
        UseOfCode(p, block, u, j);
      }
    }
    spans
  }

  lemma UseOfCode(p: Procedure, block: Node, u: nat, k: nat)
    requires block in p.code && u < |p.code[block]| && k < |p.code[block][u].uses|
    ensures IsSite(p, p.code[block][u].uses[k].target, p.code[block][u].uses[k].Bytes())
  {
    var ds := p.code[block][u].uses[k];
    assert AmongSites(p.code[block][u].uses, ds.target, ds.Bytes());
    assert OfAccess(p.code[block][u], ds.target, ds.Bytes());
  }

  /** A site counts as overwritten as a whole or not at all. */
  lemma {:induction false} CountsTogether(p: Procedure, list: seq<Access>, entered: set<Span>, t: RWNode, i: Interval,
      b: int, c: int)
    requires Aligned(p) && WritesSites(p, list) && IsSite(p, t, i) && i.Has(b) && i.Has(c)
    requires forall s :: s in entered ==> IsSite(p, s.target, s.bytes)
    requires Counts(list, entered, t, c)
    ensures Counts(list, entered, t, b)
  {
    if Killed(list, t, c) {
      KilledTogether(p, list, t, i, b, c);
    } else {
      assert Shown(true);
      var s :| s in entered && s.target == t && s.bytes.Has(c);
      assert IsSite(p, t, s.bytes);
      assert Apart(i, s.bytes);
    }
  }

  /** So its runs are the site itself. */
  lemma {:induction false} RunIsWhole(p: Procedure, list: seq<Access>, entered: set<Span>, t: RWNode, i: Interval,
      r: Interval)
    requires Aligned(p) && WritesSites(p, list) && IsSite(p, t, i)
    requires forall s :: s in entered ==> IsSite(p, s.target, s.bytes)
    requires IsRun(list, entered, t, i, r)
    ensures r == i
  {
    forall c | i.Has(c)
      ensures !Counts(list, entered, t, c)
    {
      if Counts(list, entered, t, c) {
        CountsTogether(p, list, entered, t, i, r.start, c);
      }
    }
  }

  lemma {:induction false} SiteDoesNotRunPast(p: Procedure, list: seq<Access>, entered: set<Span>, t: RWNode,
      i: Interval)
    requires Aligned(p) && WritesSites(p, list) && IsSite(p, t, i)
    requires forall s :: s in entered ==> IsSite(p, s.target, s.bytes)
    ensures !RunsPast(list, entered, t, i)
  {
    if b :| i.Has(b) && Counts(list, entered, t, b) {
      CountsTogether(p, list, entered, t, i, i.end, b);
    }
  }

  lemma {:induction false} PrefixWritesSites(p: Procedure, block: Node, u: nat)
    requires block in p.code && u <= |p.code[block]|
    ensures WritesSites(p, p.code[block][..u])
  {
    CodeWritesSites(p, block);
    var list := p.code[block][..u];
    forall k, j | 0 <= k < |list| && 0 <= j < |list[k].overwrites|
      ensures IsSite(p, list[k].overwrites[j].target, list[k].overwrites[j].Bytes())
    {
      assert list[k] == p.code[block][k];
    }
  }

  /** Sites that overlap only where they are equal are a family that no search leaves. */
  lemma {:induction false} AlignedIsContained(p: Procedure)
    requires Aligned(p)
    ensures Contained(p)
  {
    var spans := UseSpans(p);
    forall block, u | block in p.code && 0 <= u <= |p.code[block]|
      ensures RunsStay(spans, p.code[block][..u])
    {
      PrefixWritesSites(p, block, u);
      forall entered, s, r | entered <= spans && s in spans && IsRun(p.code[block][..u], entered, s.target, s.bytes, r)
        ensures Span(s.target, r) in spans
      {
        RunIsWhole(p, p.code[block][..u], entered, s.target, s.bytes, r);
      }
    }
    forall block | block in p.code
      ensures NoneRunsPast(spans, p.code[block])
    {
      CodeWritesSites(p, block);
      forall entered, s | entered <= spans && s in spans
        ensures !RunsPast(p.code[block], entered, s.target, s.bytes)
      {
        SiteDoesNotRunPast(p, p.code[block], entered, s.target, s.bytes);
      }
    }
    assert Contains(p, spans);
  }

  // ---------------------------------------------------------------------------
  // What the search is asked for

  ghost predicate SiteOk(p: Procedure, ds: DefSite) {
    && (Aligned(p) ==> IsSite(p, ds.target, ds.Bytes()))
    && (forall spans {:trigger Contains(p, spans)} :: Contains(p, spans) ==> SpanOf(ds) in spans)
  }

  ghost predicate KillsOk(p: Procedure, kills: Defs) {
    && (Aligned(p) ==> AllUniform(p, kills))
    && (forall spans {:trigger Contains(p, spans)} :: Contains(p, spans) ==> KillsCount(p, spans, kills))
  }

  /** A run that is searched for in the predecessors. */
  ghost predicate SiteAsked(p: Procedure, ds: DefSite, site: DefSite) {
    SiteOk(p, site) && (Aligned(p) ==> site.target == ds.target && site.Bytes() == ds.Bytes())
  }

  ghost predicate SitesAsked(p: Procedure, ds: DefSite, sites: seq<DefSite>) {
    forall k {:trigger sites[k]} :: 0 <= k < |sites| ==> SiteAsked(p, ds, sites[k])
  }

  /** In an aligned procedure, what is searched for in the predecessors is the same site. */
  lemma {:induction false} OpenSitesOk(p: Procedure, kills: Defs, ds: DefSite, sites: seq<DefSite>)
    requires ValidDefs(kills) && Sane(ds) && SiteOk(p, ds) && KillsOk(p, kills) && AreOpen(kills, ds, sites)
    requires EndInFront(kills, ds, sites)
    requires GoesPast(sites, ds) <==> ds.target in kills && Overshoots(kills[ds.target], ds.Bytes())
    ensures SitesAsked(p, ds, sites)
    ensures Aligned(p) ==> !GoesPast(sites, ds)
  {
    if Aligned(p) {
      assert Shown(true);
      assert IsSite(p, ds.target, ds.Bytes());
      NeverPast(p, kills, ds, sites);
    }
    forall k {:trigger sites[k]} | 0 <= k < |sites|
      ensures SiteAsked(p, ds, sites[k])
    {
      if Aligned(p) {
        OpenIsWhole(kills, ds, sites, k);
      }
      forall spans | Contains(p, spans)
        ensures SpanOf(sites[k]) in spans
      {
        OpenStays(p, spans, kills, ds, sites);
      }
    }
  }

  lemma {:induction false} UseIsSite(p: Procedure, block: Node, u: nat, k: nat)
    requires block in p.code && u < |p.code[block]| && k < |p.code[block][u].uses|
    ensures SiteOk(p, p.code[block][u].uses[k])
  {
    UseOfCode(p, block, u, k);
    forall spans | Contains(p, spans)
      ensures SpanOf(p.code[block][u].uses[k]) in spans
    {
      UseIsSpan(p, spans, block, u, k);
    }
  }
}
