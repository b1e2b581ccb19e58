/** What stores have put into memory and loads have read from it. */
module StoredValues {
  import opened Graphs
  import opened Guards
  import opened Offsets
  import opened PointsToSets
  import opened PointerGraphs
  import opened PointerStates
  import opened PointerTransfer

  predicate IsStore(g: PointerGraph, n: Node) {
    g.Has(n) && g.At(n).kind == Store && |g.At(n).operands| == 2
  }

  predicate IsLoad(g: PointerGraph, n: Node) {
    g.Has(n) && g.At(n).kind == Load && |g.At(n).operands| == 1
  }

  /** Nodes that write memory. */
  predicate WritesMemory(g: PointerGraph, n: Node) {
    g.Has(n) && (g.At(n).kind == Store || g.At(n).kind == Memcpy)
  }

  /** The values are in every cell of allocated memory that is pointed to. */
  ghost predicate Holds(g: PointerGraph, s: PState, values: PointsTo, pointers: PointsTo) {
    forall p, x {:trigger p in pointers, x in values} :: p in pointers && ToMemory(g, p) && x in values ==>
      Covers(s.Content(Cell(p.target, p.offset)), x)
  }

  ghost predicate StoreHolds(g: PointerGraph, s: PState, n: Node) {
    IsStore(g, n) ==> Holds(g, s, s.Pts(g.At(n).operands[0]), s.Pts(g.At(n).operands[1]))
  }

  /** The set has all that is in cells that can be read. */
  ghost predicate HasRead(g: PointerGraph, s: PState, pointers: PointsTo, set': PointsTo) {
    forall q, c, x {:trigger Reads(q, c), x in s.Content(c)} ::
        q in pointers && ToMemory(g, q) && Reads(q, c) && x in s.Content(c) ==> Covers(set', x)
  }

  ghost predicate LoadHolds(g: PointerGraph, s: PState, n: Node) {
    IsLoad(g, n) ==> HasRead(g, s, s.Pts(g.At(n).operands[0]), s.Pts(n))
  }

  ghost predicate SameMemory(s: PState, s': PState) {
    forall c {:trigger s'.Content(c)} {:trigger s.Content(c)} :: s'.Content(c) == s.Content(c)
  }

  /** Values that are covered stay covered. */
  ghost predicate MemoryCovers(s: PState, s': PState) {
    forall c, x {:trigger Covers(s'.Content(c), x)} :: Covers(s.Content(c), x) ==> Covers(s'.Content(c), x)
  }

  // ---------------------------------------------------------------------------
  // Processing one node

  /** What processing a node means for memory. */
  ghost predicate MemoryProcessed(g: PointerGraph, s: PState, s': PState, n: Node, enq: bool) {
    && MemoryCovers(s, s') && (!WritesMemory(g, n) || !enq ==> SameMemory(s, s'))
    && (IsStore(g, n) ==> Holds(g, s', s.Pts(g.At(n).operands[0]), s.Pts(g.At(n).operands[1])))
    && (IsLoad(g, n) ==> HasRead(g, s, s.Pts(g.At(n).operands[0]), s'.Pts(n)))
  }

  lemma StepCovers(g: PointerGraph, s: PState, s': PState, changed: bool)
    requires Step(g, s, s', changed)
    ensures MemoryCovers(s, s') && (!changed ==> SameMemory(s, s'))
  {
    assert Shown(true);
    forall c, x | Covers(s.Content(c), x)
      ensures Covers(s'.Content(c), x)
    {
      assert HasFact(s, InCell(c, Covered(x)));
    }
  }

  lemma {:induction false} StoredHolds(g: PointerGraph, s: PState, s': PState, values: PointsTo, pointers: PointsTo)
    requires g.Valid() && OkSet(g, pointers) && StoredTo(g, s, s', values, pointers)
    ensures Holds(g, s', values, pointers)
  {
    StoreIsInMemory(g, s, s', values, pointers);
    forall p, x | p in pointers && ToMemory(g, p) && x in values
      ensures x in s'.Content(Cell(p.target, p.offset))
    {
      assert Pointer(p.target, p.offset) == p;
    }
  }

  lemma {:induction false} LoadedHasRead(g: PointerGraph, s: PState, pointers: PointsTo, before: PointsTo,
      after: PointsTo)
    requires g.Valid() && OkSet(g, pointers) && Fed(before, LoadSet(g, s, pointers), after)
    ensures HasRead(g, s, pointers, after)
  {
    LoadReads(g, s, pointers, before, after);
    forall q, c, x | q in pointers && ToMemory(g, q) && Reads(q, c) && x in s.Content(c)
      ensures Covers(after, x)
    {
      assert ComesOut(g, s, q, x);
    }
  }

  lemma {:induction false} NodeProcessedMemory(g: PointerGraph, s: PState, s': PState, n: Node, enq: bool)
    requires g.Valid() && g.Has(n) && NodeProcessed(g, s, s', n) && Step(g, s, s', enq)
    ensures MemoryProcessed(g, s, s', n, enq) && KeepsPts(s, s', n, enq)
  {
    StepCovers(g, s, s', enq);
    KeptPts(g, s, s', n, enq);
    match g.At(n).kind
    case Store => StoredHolds(g, s, s', s.Pts(g.At(n).operands[0]), s.Pts(g.At(n).operands[1]));
    case Load => LoadedHasRead(g, s, s.Pts(g.At(n).operands[0]), s.Pts(n), s'.Pts(n));
    case _ =>
  }

  lemma KeptPts(g: PointerGraph, s: PState, s': PState, n: Node, enq: bool)
    requires g.Valid() && g.Has(n) && NodeProcessed(g, s, s', n) && Step(g, s, s', enq)
    ensures KeepsPts(s, s', n, enq)
  {
    assert Shown(true);
    NodeProcessedMeans(g, s, s', n);
  }

  // ---------------------------------------------------------------------------
  // A pass over nodes

  ghost predicate NoneWrites(g: PointerGraph, nodes: seq<Node>) {
    forall n {:trigger n in nodes} :: n in nodes ==> !WritesMemory(g, n)
  }

  ghost predicate Unchanged(operands: seq<Node>, changed: seq<Node>) {
    forall m {:trigger m in operands} :: m in operands ==> m !in changed
  }

  /** After a pass over some nodes: stores whose operands have not changed hold, and if no change of memory has
      been reported, neither has memory changed, and loads whose operand has not changed hold. */
  ghost predicate PassedMemory(g: PointerGraph, nodes: seq<Node>, s: PState, s': PState, changed: seq<Node>) {
    forall k {:trigger Shown(k)} :: Shown(k) ==>
      && MemoryCovers(s, s') && (NoneWrites(g, changed) ==> SameMemory(s, s'))
      && (forall n {:trigger StoreHolds(g, s', n)} ::
           n in nodes && IsStore(g, n) && Unchanged(g.At(n).operands, changed) ==> StoreHolds(g, s', n))
      && (NoneWrites(g, changed) ==>
            forall n {:trigger LoadHolds(g, s', n)} ::
                n in nodes && IsLoad(g, n) && Unchanged(g.At(n).operands, changed) ==> LoadHolds(g, s', n))
  }

  lemma MemoryPassStarts(g: PointerGraph, s: PState)
    ensures PassedMemory(g, [], s, s, [])
  {
  }

  /** Other points-to sets than those of the changed nodes are kept. */
  ghost predicate KeepsPts(s: PState, s': PState, n: Node, enq: bool) {
    forall m {:trigger s'.Pts(m)} {:trigger s.Pts(m)} :: m != n || !enq ==> s'.Pts(m) == s.Pts(m)
  }

  lemma {:induction false} HoldsLater(g: PointerGraph, s: PState, s': PState, values: PointsTo, pointers: PointsTo)
    requires Holds(g, s, values, pointers) && MemoryCovers(s, s')
    ensures Holds(g, s', values, pointers)
  {
  }

  lemma {:induction false} StoreHoldsNext(g: PointerGraph, n: Node, s: PState, s': PState, enq: bool, x: Node)
    requires MemoryProcessed(g, s, s', n, enq) && KeepsPts(s, s', n, enq) && IsStore(g, x)
    requires enq ==> n !in g.At(x).operands
    requires x == n || StoreHolds(g, s, x)
    ensures StoreHolds(g, s', x)
  {
    var value, pointer := g.At(x).operands[0], g.At(x).operands[1];
    assert value in g.At(x).operands && pointer in g.At(x).operands;
    assert s'.Pts(value) == s.Pts(value) && s'.Pts(pointer) == s.Pts(pointer);
    if x != n {
      HoldsLater(g, s, s', s.Pts(value), s.Pts(pointer));
    }
  }

  lemma {:induction false} LoadHoldsNext(g: PointerGraph, n: Node, s: PState, s': PState, enq: bool, x: Node)
    requires MemoryProcessed(g, s, s', n, enq) && KeepsPts(s, s', n, enq) && IsLoad(g, x) && SameMemory(s, s')
    requires enq ==> n !in g.At(x).operands
    requires x == n || LoadHolds(g, s, x)
    ensures LoadHolds(g, s', x)
  {
    var pointer := g.At(x).operands[0];
    assert pointer in g.At(x).operands;
    assert s'.Pts(pointer) == s.Pts(pointer);
    assert x != n ==> s'.Pts(x) == s.Pts(x);
  }

  lemma {:induction false} MemoryPassNext(g: PointerGraph, nodes: seq<Node>, n: Node, s0: PState, s: PState,
      s': PState, changed: seq<Node>, enq: bool)
    requires PassedMemory(g, nodes, s0, s, changed) && MemoryProcessed(g, s, s', n, enq) && KeepsPts(s, s', n, enq)
    ensures PassedMemory(g, nodes + [n], s0, s', if enq then changed + [n] else changed)
  {
    var changed' := if enq then changed + [n] else changed;
    MoreChanged(g, changed, n, enq);
    PassedMemoryIs(g, nodes, s0, s, changed);
    forall x | x in nodes + [n] && IsStore(g, x) && Unchanged(g.At(x).operands, changed')
      ensures StoreHolds(g, s', x)
    {
      StoreHoldsNext(g, n, s, s', enq, x);
    }
    if NoneWrites(g, changed') {
      forall x | x in nodes + [n] && IsLoad(g, x) && Unchanged(g.At(x).operands, changed')
        ensures LoadHolds(g, s', x)
      {
        LoadHoldsNext(g, n, s, s', enq, x);
      }
    }
  }

  lemma {:induction false} MemoryPassStep(g: PointerGraph, nodes: seq<Node>, k: nat, s0: PState, s: PState, s': PState,
      changed: seq<Node>, enq: bool)
    requires k < |nodes| && g.Valid() && g.Has(nodes[k]) && NodeProcessed(g, s, s', nodes[k]) && Step(g, s, s', enq)
    requires PassedMemory(g, nodes[..k], s0, s, changed)
    ensures PassedMemory(g, nodes[..k + 1], s0, s', if enq then changed + [nodes[k]] else changed)
  {
    NodeProcessedMemory(g, s, s', nodes[k], enq);
    MemoryPassNext(g, nodes[..k], nodes[k], s0, s, s', changed, enq);
    assert nodes[..k + 1] == nodes[..k] + [nodes[k]];
  }

  lemma MoreChanged(g: PointerGraph, changed: seq<Node>, n: Node, enq: bool)
    ensures var changed' := if enq then changed + [n] else changed;
      && (NoneWrites(g, changed') ==> NoneWrites(g, changed) && (enq ==> !WritesMemory(g, n)))
      && forall operands :: Unchanged(operands, changed') ==> Unchanged(operands, changed) && (enq ==> n !in operands)
  {
    var changed' := if enq then changed + [n] else changed;
    assert forall x :: x in changed ==> x in changed';
    assert enq ==> n in changed';
  }

  lemma PassedMemoryIs(g: PointerGraph, nodes: seq<Node>, s: PState, s': PState, changed: seq<Node>)
    requires PassedMemory(g, nodes, s, s', changed)
    ensures MemoryCovers(s, s') && (NoneWrites(g, changed) ==> SameMemory(s, s'))
    ensures forall n {:trigger StoreHolds(g, s', n)} ::
      n in nodes && IsStore(g, n) && Unchanged(g.At(n).operands, changed) ==> StoreHolds(g, s', n)
    ensures NoneWrites(g, changed) ==>
      forall n {:trigger LoadHolds(g, s', n)} ::
          n in nodes && IsLoad(g, n) && Unchanged(g.At(n).operands, changed) ==> LoadHolds(g, s', n)
  {
    assert Shown(true);
  }
}
