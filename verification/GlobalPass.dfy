/** The one pass of the pointer analysis over the global nodes, and what is left of it in the end. */
module GlobalPasses {
  import opened Graphs
  import opened Guards
  import opened Offsets
  import opened PointsToSets
  import opened PointerGraphs
  import opened PointerStates
  import opened PointerTransfer
  import opened StoredValues

  // ---------------------------------------------------------------------------
  // Nodes processed one after the other

  ghost predicate OneProcessed(g: PointerGraph, s: PState, s': PState, n: Node) {
    g.Has(n) && NodeProcessed(g, s, s', n) && (Step(g, s, s', true) || Step(g, s, s', false))
  }

  /** Each node has been processed once, in the order of the list. */
  ghost predicate InOrder(g: PointerGraph, nodes: seq<Node>, s: PState, s': PState) {
    if nodes == [] then s' == s
    else exists m: PState :: InOrder(g, nodes[..|nodes| - 1], s, m) && OneProcessed(g, m, s', Last(nodes))
  }

  function Last(nodes: seq<Node>): Node
    requires nodes != []
  {
    nodes[|nodes| - 1]
  }

  lemma InOrderNext(g: PointerGraph, nodes: seq<Node>, k: nat, s0: PState, s: PState, s': PState, enq: bool)
    requires k < |nodes| && InOrder(g, nodes[..k], s0, s)
    requires g.Has(nodes[k]) && NodeProcessed(g, s, s', nodes[k]) && Step(g, s, s', enq)
    ensures InOrder(g, nodes[..k + 1], s0, s')
  {
    assert nodes[..k + 1][..k] == nodes[..k];
    assert OneProcessed(g, s, s', Last(nodes[..k + 1]));
  }

  ghost predicate KeepsFacts(s: PState, s': PState) {
    forall k {:trigger Shown(k)} :: Shown(k) ==> forall f :: HasFact(s, f) ==> HasFact(s', f)
  }

  lemma StepKeepsFacts(g: PointerGraph, s: PState, s': PState, changed: bool)
    requires Step(g, s, s', changed)
    ensures KeepsFacts(s, s')
  {
    assert Shown(true);
  }

  lemma KeepsFactsTwice(s: PState, s': PState, s'': PState)
    requires KeepsFacts(s, s') && KeepsFacts(s', s'')
    ensures KeepsFacts(s, s'')
  {
    assert Shown(true);
  }

  lemma FactsCover(s: PState, s': PState)
    requires KeepsFacts(s, s')
    ensures forall n, x {:trigger Covers(s'.Pts(n), x)} :: Covers(s.Pts(n), x) ==> Covers(s'.Pts(n), x)
    ensures MemoryCovers(s, s')
  {
    assert Shown(true);
    forall n, x {:trigger Covers(s'.Pts(n), x)} | Covers(s.Pts(n), x)
      ensures Covers(s'.Pts(n), x)
    {
      assert HasFact(s, InNode(n, Covered(x)));
    }
    forall c, x {:trigger Covers(s'.Content(c), x)} | Covers(s.Content(c), x)
      ensures Covers(s'.Content(c), x)
    {
      assert HasFact(s, InCell(c, Covered(x)));
    }
  }

  // ---------------------------------------------------------------------------
  // What stays

  /** Is the points-to set of the node one that the program may still change when some nodes are to be processed? */
  ghost predicate Changes(g: PointerGraph, nodes: seq<Node>, n: Node) {
    n in nodes && g.Has(n) && Computes(g.At(n).kind)
  }

  /** Processing the nodes keeps all facts, and the points-to sets of other nodes. */
  ghost predicate GoesOver(g: PointerGraph, nodes: seq<Node>, s: PState, s': PState) {
    KeepsFacts(s, s') && forall n {:trigger s'.Pts(n)} :: !Changes(g, nodes, n) ==> s'.Pts(n) == s.Pts(n)
  }

  lemma {:induction false} OneGoesOver(g: PointerGraph, s: PState, s': PState, n: Node)
    requires g.Valid() && OneProcessed(g, s, s', n)
    ensures GoesOver(g, [n], s, s')
  {
    NodeProcessedMeans(g, s, s', n);
    StepKeepsFacts(g, s, s', Step(g, s, s', true));
  }

  lemma GoesOverTwice(g: PointerGraph, nodes: seq<Node>, n: Node, s: PState, s': PState, s'': PState)
    requires GoesOver(g, nodes, s, s') && GoesOver(g, [n], s', s'')
    ensures GoesOver(g, nodes + [n], s, s'')
  {
    KeepsFactsTwice(s, s', s'');
    forall x {:trigger s''.Pts(x)} | !Changes(g, nodes + [n], x)
      ensures s''.Pts(x) == s.Pts(x)
    {
      assert !Changes(g, nodes, x) && !Changes(g, [n], x);
      assert s''.Pts(x) == s'.Pts(x) && s'.Pts(x) == s.Pts(x);
    }
  }

  /** In the middle of the list a node is processed, and the rest of the list goes over what it has done. */
  lemma {:induction false} InTheMiddle(g: PointerGraph, nodes: seq<Node>, i: nat, s: PState, s': PState)
      returns (before: PState, after: PState)
    requires g.Valid() && i < |nodes| && InOrder(g, nodes, s, s')
    ensures OneProcessed(g, before, after, nodes[i]) && GoesOver(g, nodes[i + 1..], after, s')
    decreases |nodes|
  {
    var last, front := Last(nodes), nodes[..|nodes| - 1];
    var m: PState :| InOrder(g, front, s, m) && OneProcessed(g, m, s', last);
    if i == |nodes| - 1 {
      before, after := m, s';
      assert KeepsFacts(s', s');
    } else {
      before, after := InTheMiddle(g, front, i, s, m);
      OneGoesOver(g, m, s', last);
      GoesOverTwice(g, front[i + 1..], last, after, m, s');
      assert nodes[i + 1..] == front[i + 1..] + [last];
    }
  }

  // ---------------------------------------------------------------------------
  // The state in the end

  /** From here on only nodes that control reaches from the root have been processed. */
  ghost predicate OnlyReached(g: PointerGraph, s: PState, s': PState) {
    KeepsFacts(s, s') &&
    forall n {:trigger s'.Pts(n)} ::
      g.Has(n) && (!Computes(g.At(n).kind) || !ReachedFrom(g, [g.root], n)) ==> s'.Pts(n) == s.Pts(n)
  }

  lemma OnlyReachedTwice(g: PointerGraph, s: PState, s': PState, s'': PState)
    requires OnlyReached(g, s, s') && OnlyReached(g, s', s'')
    ensures OnlyReached(g, s, s'')
  {
    KeepsFactsTwice(s, s', s'');
    forall n {:trigger s''.Pts(n)} | g.Has(n) && (!Computes(g.At(n).kind) || !ReachedFrom(g, [g.root], n))
      ensures s''.Pts(n) == s.Pts(n)
    {
      assert s'.Pts(n) == s.Pts(n);
    }
  }

  /** The operand keeps its points-to set from the time on when the i-th node of the list is processed: it is not
      computed at all, or neither comes later in the list nor is reached from the root. */
  ghost predicate Fixed(g: PointerGraph, globals: seq<Node>, i: nat, m: Node)
    requires i <= |globals|
  {
    g.Has(m) && (!Computes(g.At(m).kind) || (m !in globals[i..] && !ReachedFrom(g, [g.root], m)))
  }

  /** A global store has stored, and a global node that combines its operands has taken them in, as far as the
      operands have not changed since. */
  ghost predicate GlobalHolds(g: PointerGraph, s: PState, globals: seq<Node>, i: nat)
    requires i < |globals| && g.Has(globals[i])
  {
    var n := globals[i];
    && (IsStore(g, n) && (forall m :: m in g.At(n).operands ==> Fixed(g, globals, i, m)) ==> StoreHolds(g, s, n))
    && (Combines(g.At(n).kind) ==>
          forall m {:trigger s.Pts(m)} :: m in g.At(n).operands && Fixed(g, globals, i, m) ==>
            Absorbs(g, n, s.Pts(n), s.Pts(m)))
  }

  lemma {:induction false} GlobalsHold(g: PointerGraph, globals: seq<Node>, i: nat, s0: PState, s1: PState, s: PState)
    requires g.Valid() && i < |globals| && g.Has(globals[i])
    requires InOrder(g, globals, s0, s1) && OnlyReached(g, s1, s)
    ensures GlobalHolds(g, s, globals, i)
  {
    var n := globals[i];
    var before, after := InTheMiddle(g, globals, i, s0, s1);
    KeepsFactsTwice(after, s1, s);
    FactsCover(after, s);
    NodeProcessedMeans(g, before, after, n);
    forall m | Fixed(g, globals, i, m)
      ensures s.Pts(m) == before.Pts(m) == after.Pts(m)
    {
      FixedStays(g, globals, i, m, before, after, s1, s);
    }
    if Combines(g.At(n).kind) {
      forall m | m in g.At(n).operands && Fixed(g, globals, i, m)
        ensures Absorbs(g, n, s.Pts(n), s.Pts(m))
      {
        assert Absorbs(g, n, after.Pts(n), before.Pts(m));
      }
    }
    if IsStore(g, n) && forall m :: m in g.At(n).operands ==> Fixed(g, globals, i, m) {
      GlobalStoreHolds(g, n, before, after, s);
    }
  }

  ghost predicate AllGlobalsHold(g: PointerGraph, s: PState, globals: seq<Node>) {
    forall i {:trigger globals[i]} :: 0 <= i < |globals| ==> g.Has(globals[i]) && GlobalHolds(g, s, globals, i)
  }

  lemma EachGlobalHolds(g: PointerGraph, globals: seq<Node>, s0: PState, s1: PState, s: PState)
    requires g.Valid() && (forall n :: n in globals ==> g.Has(n))
    requires InOrder(g, globals, s0, s1) && OnlyReached(g, s1, s)
    ensures AllGlobalsHold(g, s, globals)
  {
    forall i {:trigger globals[i]} | 0 <= i < |globals|
      ensures g.Has(globals[i]) && GlobalHolds(g, s, globals, i)
    {
      GlobalsHold(g, globals, i, s0, s1, s);
    }
  }

  lemma {:induction false} FixedStays(g: PointerGraph, globals: seq<Node>, i: nat, m: Node, before: PState,
      after: PState, s1: PState, s: PState)
    requires g.Valid() && i < |globals| && OneProcessed(g, before, after, globals[i])
    requires GoesOver(g, globals[i + 1..], after, s1) && OnlyReached(g, s1, s) && Fixed(g, globals, i, m)
    ensures s.Pts(m) == before.Pts(m) == after.Pts(m)
  {
    NodeProcessedMeans(g, before, after, globals[i]);
    assert globals[i..] == [globals[i]] + globals[i + 1..];
    assert !Changes(g, globals[i + 1..], m);
    assert s.Pts(m) == s1.Pts(m) && s1.Pts(m) == after.Pts(m);
  }

  lemma {:induction false} GlobalStoreHolds(g: PointerGraph, n: Node, before: PState, after: PState, s: PState)
    requires g.Valid() && IsStore(g, n) && OneProcessed(g, before, after, n) && MemoryCovers(after, s)
    requires forall m :: m in g.At(n).operands ==> s.Pts(m) == before.Pts(m) == after.Pts(m)
    ensures StoreHolds(g, s, n)
  {
    var value, pointer := g.At(n).operands[0], g.At(n).operands[1];
    assert value in g.At(n).operands && pointer in g.At(n).operands;
    StoredHolds(g, before, after, before.Pts(value), before.Pts(pointer));
    HoldsLater(g, after, s, before.Pts(value), before.Pts(pointer));
  }

  /** What this means for a store of one pointer through another: the value is in the cell. */
  lemma {:induction false} GlobalIsStored(g: PointerGraph, s: PState, globals: seq<Node>, i: nat, p: Pointer,
      x: Pointer)
    requires g.Valid() && i < |globals| && g.Has(globals[i]) && GlobalHolds(g, s, globals, i)
    requires g.At(globals[i]).kind == Store
    requires forall m :: m in g.At(globals[i]).operands ==> Fixed(g, globals, i, m)
    requires x in s.Pts(g.At(globals[i]).operands[0])
    requires p in s.Pts(g.At(globals[i]).operands[1]) && ToMemory(g, p)
    ensures Covers(s.Content(Cell(p.target, p.offset)), x)
  {
    assert g.ValidNode(globals[i]);
    assert StoreHolds(g, s, globals[i]);
  }
}
