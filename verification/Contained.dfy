/** Procedures in which no search leaves a given family of byte ranges, and none that goes on at a block
    where paths join runs past its own bytes. */
module ContainedSearches {
  import opened Graphs
  import opened Guards
  import opened Offsets
  import opened IntervalMaps
  import opened BlockDefinitions
  import opened LocalNumbering
  import opened ReachingDefinitions

  datatype Span = Span(target: RWNode, bytes: Interval)

  function SpanOf(ds: DefSite): Span {
    Span(ds.target, ds.Bytes())
  }

  ghost predicate InSpans(spans: set<Span>, t: RWNode, b: int) {
    exists s :: s in spans && s.target == t && s.bytes.Has(b)
  }

  /** The byte counts as overwritten when phi nodes have been entered for some spans. */
  ghost predicate Counts(list: seq<Access>, entered: set<Span>, t: RWNode, b: int) {
    Killed(list, t, b) || InSpans(entered, t, b)
  }

  /** The last byte of the interval and the next one are open, some byte of it and some later one are not. */
  ghost predicate RunsPast(list: seq<Access>, entered: set<Span>, t: RWNode, i: Interval) {
    && !Counts(list, entered, t, i.end) && !Counts(list, entered, t, i.end + 1)
    && (exists b :: i.Has(b) && Counts(list, entered, t, b))
    && (exists b :: b > i.end + 1 && Counts(list, entered, t, b))
  }

  /** A longest run of open bytes that starts in the interval; it ends with it, unless it runs past. */
  ghost predicate IsRun(list: seq<Access>, entered: set<Span>, t: RWNode, i: Interval, r: Interval) {
    && i.Has(r.start) && r.Has(r.start)
    && (forall b {:trigger Counts(list, entered, t, b)} :: r.Has(b) ==> !Counts(list, entered, t, b))
    && (r.start == i.start || Counts(list, entered, t, r.start - 1))
    && (r.end == i.end || Counts(list, entered, t, r.end + 1))
    && (r.end > i.end ==> RunsPast(list, entered, t, i))
  }

  /** The runs of every span are spans. */
  ghost predicate RunsStay(spans: set<Span>, list: seq<Access>) {
    forall entered, s, r {:trigger IsRun(list, entered, s.target, s.bytes, r)} ::
      entered <= spans && s in spans && IsRun(list, entered, s.target, s.bytes, r) ==> Span(s.target, r) in spans
  }

  ghost predicate NoneRunsPast(spans: set<Span>, list: seq<Access>) {
    forall entered, s {:trigger RunsPast(list, entered, s.target, s.bytes)} ::
      entered <= spans && s in spans ==> !RunsPast(list, entered, s.target, s.bytes)
  }

  ghost predicate IsJoin(p: Procedure, block: Node) {
    |p.g.preds| == |p.g.succs| && p.g.Has(block) && |p.g.Preds(block)| > 1
  }

  /** Whatever is asked for, and whatever phi nodes have been entered, searches are for these spans, and where
      paths join none of them runs past its end. */
  ghost predicate Contains(p: Procedure, spans: set<Span>) {
    forall k {:trigger Opened(k)} :: Opened(k) ==>
      && (forall block, u, j {:trigger p.code[block][u].uses[j]} ::
           block in p.code && 0 <= u < |p.code[block]| && 0 <= j < |p.code[block][u].uses| ==>
            SpanOf(p.code[block][u].uses[j]) in spans)
      && (forall block, u {:trigger p.code[block][..u]} ::
           block in p.code && 0 <= u <= |p.code[block]| ==> RunsStay(spans, p.code[block][..u]))
      && (forall block {:trigger p.code[block]} ::
           block in p.code && IsJoin(p, block) ==> NoneRunsPast(spans, p.code[block]))
  }

  /** Known from the procedure alone, before any search. */
  ghost predicate Contained(p: Procedure) {
    exists spans :: Contains(p, spans)
  }

  // ---------------------------------------------------------------------------
  // What counts as overwritten

  ghost predicate Accounts(list: seq<Access>, entered: set<Span>, kills: Defs) {
    forall t, b {:trigger DefsAt(kills, t, b)} {:trigger Counts(list, entered, t, b)} ::
        DefsAt(kills, t, b) != {} <==> Counts(list, entered, t, b)
  }

  /** The nodes of the list and phi nodes entered for some of the spans overwrite it. */
  ghost predicate CountsAs(list: seq<Access>, spans: set<Span>, kills: Defs) {
    exists entered :: entered <= spans && Accounts(list, entered, kills)
  }

  lemma {:induction false} NumberedCounts(list: seq<Access>, spans: set<Span>, definitions: Defs, kills: Defs)
    requires Numbered(list, definitions, kills)
    ensures CountsAs(list, spans, kills)
  {
    var none: set<Span> := {};
    assert Accounts(list, none, kills);
    assert none <= spans;
  }

  /** With phi nodes in front, their spans are entered. */
  lemma {:induction false} FrontCounts(front: seq<Access>, list: seq<Access>, spans: set<Span>, entered: set<Span>,
      definitions: Defs, kills: Defs)
    requires Numbered(front + list, definitions, kills) && entered <= spans
    requires forall t, b :: Killed(front, t, b) <==> InSpans(entered, t, b)
    ensures CountsAs(list, spans, kills)
  {
    forall t, b
      ensures DefsAt(kills, t, b) != {} <==> Counts(list, entered, t, b)
    {
      KilledInParts(front, list, t, b);
    }
    assert Accounts(list, entered, kills);
  }

  lemma InMoreSpans(spans: set<Span>, more: set<Span>, t: RWNode, b: int)
    ensures InSpans(spans + more, t, b) <==> InSpans(spans, t, b) || InSpans(more, t, b)
  {
    if s :| s in spans && s.target == t && s.bytes.Has(b) {
      assert s in spans + more;
    }
    if s :| s in more && s.target == t && s.bytes.Has(b) {
      assert s in spans + more;
    }
  }

  ghost function SpansOf(sites: seq<DefSite>): (spans: set<Span>)
    ensures forall s :: s in spans <==> exists k :: 0 <= k < |sites| && SpanOf(sites[k]) == s
  {
    set k | 0 <= k < |sites| :: SpanOf(sites[k])
  }

  lemma {:induction false} InSpansOf(target: RWNode, sites: seq<DefSite>, t: RWNode, b: int)
    requires forall k {:trigger sites[k]} :: 0 <= k < |sites| ==> sites[k].target == target
    ensures InSpans(SpansOf(sites), t, b) <==> t == target && InSite(sites, b)
  {
    if k :| 0 <= k < |sites| && sites[k].Bytes().Has(b) {
      assert SpanOf(sites[k]) in SpansOf(sites);
    }
    if s :| s in SpansOf(sites) && s.target == t && s.bytes.Has(b) {
      var k :| 0 <= k < |sites| && SpanOf(sites[k]) == s;
      assert sites[k].Bytes().Has(b);
    }
  }

  /** A phi is entered for some spans more. */
  lemma {:induction false} EnteredCounts(list: seq<Access>, spans: set<Span>, kills: Defs, kills': Defs,
      target: RWNode, sites: seq<DefSite>, phi: RWNode)
    requires CountsAs(list, spans, kills) && SpansOf(sites) <= spans
    requires forall k {:trigger sites[k]} :: 0 <= k < |sites| ==> sites[k].target == target
    requires forall t, b {:trigger DefsAt(kills', t, b)} ::
      DefsAt(kills', t, b) == Written(DefsAt(kills, t, b), t == target && InSite(sites, b), phi, false)
    ensures CountsAs(list, spans, kills')
  {
    var entered :| entered <= spans && Accounts(list, entered, kills);
    var more := entered + SpansOf(sites);
    forall t, b
      ensures DefsAt(kills', t, b) != {} <==> Counts(list, more, t, b)
    {
      InMoreSpans(entered, SpansOf(sites), t, b);
      InSpansOf(target, sites, t, b);
      assert DefsAt(kills', t, b) == Written(DefsAt(kills, t, b), t == target && InSite(sites, b), phi, false);
    }
    assert Accounts(list, more, kills') && more <= spans;
  }

  // ---------------------------------------------------------------------------
  // Open runs

  lemma {:induction false} OvershootingRunsPast(list: seq<Access>, entered: set<Span>, kills: Defs, ds: DefSite)
    requires ValidDefs(kills) && Sane(ds) && Accounts(list, entered, kills)
    requires ds.target in kills && Overshoots(kills[ds.target], ds.Bytes())
    ensures RunsPast(list, entered, ds.target, ds.Bytes())
  {
    var m, i, t := kills[ds.target], ds.Bytes(), ds.target;
    assert DefsAt(kills, t, i.end) == {} && DefsAt(kills, t, i.end + 1) == {};
    var j :| 0 <= j < |m| && Meets(m[j].key, i);
    var b := if m[j].key.start <= i.start then i.start else m[j].key.start;
    AtIndex(m, j, b);
    assert i.Has(b) && DefsAt(kills, t, b) != {};
    var k :| 0 <= k < |m| && m[k].key.start > i.end;
    AtIndex(m, k, m[k].key.start);
    assert DefsAt(kills, t, m[k].key.start) != {};
  }

  /** What is searched for in the predecessors is a run. */
  lemma {:induction false} OpenIsRun(list: seq<Access>, entered: set<Span>, kills: Defs, ds: DefSite,
      sites: seq<DefSite>, k: nat)
    requires ValidDefs(kills) && Sane(ds) && Accounts(list, entered, kills)
    requires AreOpen(kills, ds, sites) && EndInFront(kills, ds, sites) && k < |sites|
    requires GoesPast(sites, ds) <==> ds.target in kills && Overshoots(kills[ds.target], ds.Bytes())
    ensures IsRun(list, entered, ds.target, ds.Bytes(), sites[k].Bytes())
  {
    var r, i, t := sites[k].Bytes(), ds.Bytes(), ds.target;
    forall b | r.Has(b)
      ensures !Counts(list, entered, t, b)
    {
      assert InSite(sites, b);
      assert DefsAt(kills, t, b) == {};
    }
    RunIsLongest(kills, ds, sites, k);
    assert DefsAt(kills, t, r.start - 1) != {} <==> Counts(list, entered, t, r.start - 1);
    assert DefsAt(kills, t, r.end + 1) != {} <==> Counts(list, entered, t, r.end + 1);
    if r.end > i.end {
      assert r.Has(r.end) && InSite(sites, r.end);
      OvershootingRunsPast(list, entered, kills, ds);
    }
  }

  lemma {:induction false} NextToRun(kills: Defs, ds: DefSite, sites: seq<DefSite>, k: nat, b: int)
    requires AreOpen(kills, ds, sites) && k < |sites|
    requires (b == sites[k].Bytes().start - 1 || b == sites[k].Bytes().end + 1)
    ensures !InSite(sites, b)
  {
    forall j | 0 <= j < |sites|
      ensures !sites[j].Bytes().Has(b)
    {
    }
  }

  lemma {:induction false} RunIsLongest(kills: Defs, ds: DefSite, sites: seq<DefSite>, k: nat)
    requires AreOpen(kills, ds, sites) && EndInFront(kills, ds, sites) && k < |sites|
    ensures sites[k].Bytes().start == ds.Bytes().start || DefsAt(kills, ds.target, sites[k].Bytes().start - 1) != {}
    ensures sites[k].Bytes().end == ds.Bytes().end || DefsAt(kills, ds.target, sites[k].Bytes().end + 1) != {}
  {
    NextToRun(kills, ds, sites, k, sites[k].Bytes().start - 1);
    NextToRun(kills, ds, sites, k, sites[k].Bytes().end + 1);
  }

  ghost predicate KillsCount(p: Procedure, spans: set<Span>, kills: Defs) {
    exists block, u :: block in p.code && 0 <= u <= |p.code[block]| && CountsAs(p.code[block][..u], spans, kills)
  }

  /** Searches for spans go on with spans. */
  lemma {:induction false} OpenStays(p: Procedure, spans: set<Span>, kills: Defs, ds: DefSite, sites: seq<DefSite>)
    requires Contains(p, spans) && SpanOf(ds) in spans && KillsCount(p, spans, kills)
    requires ValidDefs(kills) && Sane(ds) && AreOpen(kills, ds, sites) && EndInFront(kills, ds, sites)
    requires GoesPast(sites, ds) <==> ds.target in kills && Overshoots(kills[ds.target], ds.Bytes())
    ensures forall k {:trigger sites[k]} :: 0 <= k < |sites| ==> SpanOf(sites[k]) in spans
  {
    assert Opened(true);
    var block, u :| block in p.code && 0 <= u <= |p.code[block]| && CountsAs(p.code[block][..u], spans, kills);
    var entered :| entered <= spans && Accounts(p.code[block][..u], entered, kills);
    assert RunsStay(spans, p.code[block][..u]);
    forall k {:trigger sites[k]} | 0 <= k < |sites|
      ensures SpanOf(sites[k]) in spans
    {
      OpenIsRun(p.code[block][..u], entered, kills, ds, sites, k);
      assert IsRun(p.code[block][..u], entered, SpanOf(ds).target, SpanOf(ds).bytes, sites[k].Bytes());
    }
  }

  /** Where paths join no search runs past its end. */
  lemma {:induction false} JoinsStay(p: Procedure, spans: set<Span>, block: Node, kills: Defs, ds: DefSite,
      sites: seq<DefSite>)
    requires Contains(p, spans) && SpanOf(ds) in spans && block in p.code && IsJoin(p, block)
    requires CountsAs(p.code[block], spans, kills)
    requires ValidDefs(kills) && Sane(ds)
    requires GoesPast(sites, ds) <==> ds.target in kills && Overshoots(kills[ds.target], ds.Bytes())
    ensures !GoesPast(sites, ds)
  {
    assert Opened(true);
    var entered :| entered <= spans && Accounts(p.code[block], entered, kills);
    var s := SpanOf(ds);
    assert NoneRunsPast(spans, p.code[block]);
    assert !RunsPast(p.code[block], entered, s.target, s.bytes);
    if GoesPast(sites, ds) {
      OvershootingRunsPast(p.code[block], entered, kills, ds);
    }
  }

  lemma WholeCode(p: Procedure, spans: set<Span>, block: Node, kills: Defs)
    requires block in p.code && CountsAs(p.code[block], spans, kills)
    ensures KillsCount(p, spans, kills)
  {
    assert p.code[block][..|p.code[block]|] == p.code[block];
  }

  lemma UseIsSpan(p: Procedure, spans: set<Span>, block: Node, u: nat, j: nat)
    requires Contains(p, spans) && block in p.code && u < |p.code[block]| && j < |p.code[block][u].uses|
    ensures SpanOf(p.code[block][u].uses[j]) in spans
  {
    assert Opened(true);
  }
}
