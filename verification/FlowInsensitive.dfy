/** The worklist of the flow-insensitive pointer analysis. */
module FlowInsensitive {
  import opened Graphs
  import opened Guards
  import opened Offsets
  import opened PointsToSets
  import opened PointerGraphs
  import opened PointerStates
  import opened PointerTransfer
  import opened StoredValues
  import opened GlobalPasses
  import opened StrongComponents

  class PointerAnalysisFI {
    const g: PointerGraph
    const a: Analysis
    var toProcess: seq<Node>
    var changed: seq<Node>

    constructor (a: Analysis)
      requires a.Valid()
      ensures this.a == a && g == a.g && Valid() && toProcess == [] && changed == []
    {
      this.a, this.g := a, a.g;
      toProcess, changed := [], [];
    }

    ghost predicate Valid()
      reads this, a
    {
      a.g == g && a.Valid() && AllIn(g, toProcess) && AllIn(g, changed)
    }

    /** One pass over the queued nodes. */
    method Iteration() returns (any: bool)
      requires Valid() && changed == []
      modifies `changed, a
      ensures Valid() && any == (changed != []) && Step(g, old(a.Value()), a.Value(), any)
      ensures Passed(g, toProcess, old(a.Value()), a.Value(), changed)
      ensures PassedMemory(g, toProcess, old(a.Value()), a.Value(), changed)
      ensures InOrder(g, toProcess, old(a.Value()), a.Value())
    {
      NoStep(g, a.Value());
      PassStarts(g, a.Value());
      MemoryPassStarts(g, a.Value());
      assert toProcess[..0] == [];
      for k := 0 to |toProcess|
        invariant toProcess == old(toProcess) && a.Valid() && Step(g, old(a.Value()), a.Value(), changed != [])
        invariant Passed(g, toProcess[..k], old(a.Value()), a.Value(), changed)
        invariant PassedMemory(g, toProcess[..k], old(a.Value()), a.Value(), changed)
        invariant InOrder(g, toProcess[..k], old(a.Value()), a.Value())
      {
        ProcessQueued(k, old(a.Value()));
      }
      assert toProcess[..|toProcess|] == toProcess;
      any := changed != [];
      PassedAreIn(g, toProcess, old(a.Value()), a.Value(), changed);
    }

    method ProcessQueued(k: nat, ghost s0: PState)
      requires a.g == g && a.Valid() && AllIn(g, toProcess) && k < |toProcess|
      requires Step(g, s0, a.Value(), changed != []) && Passed(g, toProcess[..k], s0, a.Value(), changed)
      requires PassedMemory(g, toProcess[..k], s0, a.Value(), changed) && InOrder(g, toProcess[..k], s0, a.Value())
      modifies `changed, a
      ensures a.Valid() && Step(g, s0, a.Value(), changed != [])
      ensures Passed(g, toProcess[..k + 1], s0, a.Value(), changed)
      ensures PassedMemory(g, toProcess[..k + 1], s0, a.Value(), changed)
      ensures InOrder(g, toProcess[..k + 1], s0, a.Value())
    {
      ghost var s := a.Value();
      var enq := a.ProcessNode(toProcess[k]);
      NodeProcessedMeans(g, s, a.Value(), toProcess[k]);
      StepTwice(g, s0, s, a.Value(), changed != [], enq);
      PassNext(g, toProcess, k, s0, s, a.Value(), changed, enq);
      MemoryPassStep(g, toProcess, k, s0, s, a.Value(), changed, enq);
      InOrderNext(g, toProcess, k, s0, s, a.Value(), enq);
      if enq {
        changed := changed + [toProcess[k]];
      }
    }

    /** All nodes that control reaches from the changed ones are queued; nothing if none has changed. */
    method QueueChanged()
      requires Valid()
      modifies `toProcess, `changed
      ensures Valid() && changed == [] && forall n :: n in toProcess <==> ReachedFrom(g, old(changed), n)
      ensures old(changed) == [] ==> toProcess == []
    {
      toProcess := [];
      if changed != [] {
        toProcess := GetNodes(g, changed);
        ReachedAreIn(g, changed, toProcess);
        changed := [];
      }
    }

    method InitializeQueue()
      requires Valid() && toProcess == []
      modifies `toProcess
      ensures Valid() && forall n :: n in toProcess <==> ReachedFrom(g, [g.root], n)
    {
      toProcess := GetNodes(g, [g.root]);
      ReachedAreIn(g, [g.root], toProcess);
    }

    method Round()
      requires Valid() && changed == [] && Settled(g, a.Value(), toProcess) && SettledMemory(g, a.Value(), toProcess)
      modifies this, a
      ensures Valid() && changed == [] && Settled(g, a.Value(), toProcess) && SettledMemory(g, a.Value(), toProcess)
      ensures KeepsFixed(g, old(a.Value()), a.Value()) && OnlyReached(g, old(a.Value()), a.Value())
      ensures (toProcess == [] && Step(g, old(a.Value()), a.Value(), false)) || Step(g, old(a.Value()), a.Value(), true)
    {
      ghost var s := a.Value();
      var any := Iteration();
      ghost var these := changed;
      PassedKeepsFixed(g, toProcess, s, a.Value(), changed);
      PassedAreIn(g, toProcess, s, a.Value(), changed);
      PassedOnlyReached(g, toProcess, s, a.Value(), changed, any);
      ghost var before := toProcess;
      QueueChanged();
      RoundSettles(g, s, a.Value(), before, these, toProcess);
      RoundSettlesMemory(g, s, a.Value(), before, these, toProcess);
    }

    /** The number of iterations is not bounded. */
    method Run(globals: seq<Node>)
      requires Valid() && toProcess == [] && changed == [] && AllIn(g, globals)
      modifies this, a
      ensures Valid() && toProcess == [] && changed == []
      ensures Settled(g, a.Value(), []) && SettledMemory(g, a.Value(), []) && KeepsFixed(g, old(a.Value()), a.Value())
      ensures exists s1 {:trigger InOrder(g, globals, old(a.Value()), s1)} ::
        InOrder(g, globals, old(a.Value()), s1) && OnlyReached(g, s1, a.Value())
      ensures AllGlobalsHold(g, a.Value(), globals)
    {
      ghost var s0 := a.Value();
      ProcessGlobals(globals);
      ghost var s1 := a.Value();
      ProcessReachable();
      KeepsFixedTwice(g, s0, s1, a.Value());
      EachGlobalHolds(g, globals, s0, s1, a.Value());
    }

    /** One pass, of which only the effect on the points-to sets and on memory is kept. */
    method ProcessGlobals(globals: seq<Node>)
      requires Valid() && toProcess == [] && changed == [] && AllIn(g, globals)
      modifies this, a
      ensures Valid() && toProcess == [] && changed == []
      ensures InOrder(g, globals, old(a.Value()), a.Value()) && KeepsFixed(g, old(a.Value()), a.Value())
    {
      toProcess := globals;
      ghost var s := a.Value();
      var _ := Iteration();
      PassedKeepsFixed(g, toProcess, s, a.Value(), changed);
      toProcess, changed := [], [];
    }

    method ProcessReachable()
      requires Valid() && toProcess == [] && changed == []
      modifies this, a
      ensures Valid() && toProcess == [] && changed == []
      ensures Settled(g, a.Value(), []) && SettledMemory(g, a.Value(), [])
      ensures KeepsFixed(g, old(a.Value()), a.Value()) && OnlyReached(g, old(a.Value()), a.Value())
    {
      ghost var s0, s := a.Value(), a.Value();
      InitializeQueue();
      NothingSettled(g, a.Value(), toProcess);
      Round();
      while toProcess != []
        invariant Valid() && changed == [] && Settled(g, a.Value(), toProcess) && SettledMemory(g, a.Value(), toProcess)
        invariant KeepsFixed(g, s0, a.Value()) && OnlyReached(g, s0, a.Value())
        decreases |Missing(g, a.Value())|, |toProcess|
      {
        s := a.Value();
        Round();
        KeepsFixedTwice(g, s0, s, a.Value());
        OnlyReachedTwice(g, s0, s, a.Value());
        RoundShrinks(g, s, a.Value());
      }
    }
  }

  /** Reached from the root, nodes that are not queued have what they make of every operand that control
      cannot reach from the root, or that can reach them. */
  ghost predicate Settled(g: PointerGraph, s: PState, queued: seq<Node>) {
    forall k {:trigger Shown(k)} :: Shown(k) ==>
      && (forall n :: n in queued ==> ReachedFrom(g, [g.root], n))
      && forall n, m {:trigger Absorbed(g, s, n, m)} ::
        ReachedFrom(g, [g.root], n) && n !in queued && (ReachedFrom(g, [g.root], m) ==> Reach(g.Flow(), m, n)) ==>
            Absorbed(g, s, n, m)
  }

  /** What the analysis guarantees in the end: whatever an operand may point to has reached the node, shifted if
      that is a GEP. */
  lemma SettledMeans(g: PointerGraph, s: PState, n: Node, m: Node, p: Pointer)
    requires Settled(g, s, []) && g.Has(n) && ReachedFrom(g, [g.root], n)
    requires g.At(n).kind in {Gep, Cast, Phi, Return, CallReturn}
    requires m in g.At(n).operands
    requires ReachedFrom(g, [g.root], m) ==> Reach(g.Flow(), m, n)
    requires p in s.Pts(m) && g.Has(p.target)
    ensures if g.At(n).kind == Gep then ShiftedIn(g, g.At(n).offset, p, s.Pts(n)) else Covers(s.Pts(n), p)
  {
    assert Shown(true);
    assert Absorbed(g, s, n, m);
    if g.At(n).kind == Gep {
      GepPointerIs(g, g.At(n).offset, p);
    }
  }

  /** The same for global nodes and operands that are fixed when they are processed. */
  lemma GlobalMeans(g: PointerGraph, s: PState, globals: seq<Node>, i: nat, m: Node, p: Pointer)
    requires i < |globals| && g.Has(globals[i]) && GlobalHolds(g, s, globals, i)
    requires g.At(globals[i]).kind in {Gep, Cast, Phi, Return, CallReturn}
    requires m in g.At(globals[i]).operands && Fixed(g, globals, i, m) && p in s.Pts(m) && g.Has(p.target)
    ensures var n := globals[i];
      if g.At(n).kind == Gep then ShiftedIn(g, g.At(n).offset, p, s.Pts(n)) else Covers(s.Pts(n), p)
  {
    assert Absorbs(g, globals[i], s.Pts(globals[i]), s.Pts(m));
    if g.At(globals[i]).kind == Gep {
      GepPointerIs(g, g.At(globals[i]).offset, p);
    }
  }

  /** The node is reached from the root, and so are, on a way to it, those of its operands that control reaches. */
  ghost predicate AfterOperands(g: PointerGraph, n: Node) {
    && g.Has(n) && ReachedFrom(g, [g.root], n)
    && forall m {:trigger m in g.At(n).operands} ::
         m in g.At(n).operands && ReachedFrom(g, [g.root], m) ==> Reach(g.Flow(), m, n)
  }

  /** From everything that writes memory control can go on to the node. */
  ghost predicate AfterWrites(g: PointerGraph, n: Node) {
    forall w {:trigger WritesMemory(g, w)} ::
        WritesMemory(g, w) && ReachedFrom(g, [g.root], w) ==> Reach(g.Flow(), w, n)
  }

  /** Nodes that are not queued have stored what they store; if everything that writes memory can be followed
      by them, they have loaded what they load. */
  ghost predicate SettledMemory(g: PointerGraph, s: PState, queued: seq<Node>) {
    forall k {:trigger Shown(k)} :: Shown(k) ==>
      && (forall n {:trigger StoreHolds(g, s, n)} :: AfterOperands(g, n) && n !in queued ==> StoreHolds(g, s, n))
      && (forall n {:trigger LoadHolds(g, s, n)} ::
           AfterOperands(g, n) && AfterWrites(g, n) && n !in queued ==> LoadHolds(g, s, n))
  }

  /** What the analysis guarantees of memory in the end: what a store puts into a cell has come out of each load
      that reads the cell. */
  lemma {:induction false} StoredIsLoaded(g: PointerGraph, s: PState, store: Node, load: Node, p: Pointer, q: Pointer,
      x: Pointer)
    requires SettledMemory(g, s, [])
    requires IsStore(g, store) && AfterOperands(g, store) && IsLoad(g, load) && AfterOperands(g, load)
    requires AfterWrites(g, load)
    requires x in s.Pts(g.At(store).operands[0]) && p in s.Pts(g.At(store).operands[1]) && ToMemory(g, p)
    requires q in s.Pts(g.At(load).operands[0]) && ToMemory(g, q) && Reads(q, Cell(p.target, p.offset))
    ensures Covers(s.Pts(load), x)
  {
    assert Shown(true);
    assert StoreHolds(g, s, store) && LoadHolds(g, s, load);
    var c := Cell(p.target, p.offset);
    assert Covers(s.Content(c), x);
    var y := if x in s.Content(c) then x else Anywhere(x.target);
    assert y in s.Content(c) && Covers(s.Pts(load), y);
  }

  /** The same for a global store with fixed operands, which control need not reach. */
  lemma {:induction false} GlobalIsLoaded(g: PointerGraph, s: PState, globals: seq<Node>, i: nat, load: Node,
      p: Pointer, q: Pointer, x: Pointer)
    requires g.Valid() && SettledMemory(g, s, []) && i < |globals| && g.Has(globals[i]) && GlobalHolds(g, s, globals, i)
    requires g.At(globals[i]).kind == Store && IsLoad(g, load) && AfterOperands(g, load) && AfterWrites(g, load)
    requires forall m :: m in g.At(globals[i]).operands ==> Fixed(g, globals, i, m)
    requires x in s.Pts(g.At(globals[i]).operands[0])
    requires p in s.Pts(g.At(globals[i]).operands[1]) && ToMemory(g, p)
    requires q in s.Pts(g.At(load).operands[0]) && ToMemory(g, q) && Reads(q, Cell(p.target, p.offset))
    ensures Covers(s.Pts(load), x)
  {
    GlobalIsStored(g, s, globals, i, p, x);
    assert Shown(true);
    assert LoadHolds(g, s, load);
    var c := Cell(p.target, p.offset);
    var y := if x in s.Content(c) then x else Anywhere(x.target);
    assert y in s.Content(c) && Covers(s.Pts(load), y);
  }

  lemma {:induction false} RoundSettlesMemory(g: PointerGraph, s: PState, s': PState, queued: seq<Node>,
      changed: seq<Node>, next: seq<Node>)
    requires g.Valid() && Settled(g, s, queued) && SettledMemory(g, s, queued) && AllIn(g, changed)
    requires Passed(g, queued, s, s', changed) && PassedMemory(g, queued, s, s', changed)
    requires forall n :: n in next <==> ReachedFrom(g, changed, n)
    ensures SettledMemory(g, s', next)
  {
    ChangedAreReached(g, s, s', queued, changed);
    forall n | AfterOperands(g, n) && n !in next
      ensures StoreHolds(g, s', n)
      ensures AfterWrites(g, n) ==> LoadHolds(g, s', n)
    {
      OperandsUnchanged(g, changed, next, n);
      StoreSettles(g, s, s', queued, changed, n);
      if AfterWrites(g, n) {
        NoneHasWritten(g, changed, next, n);
        LoadSettles(g, s, s', queued, changed, n);
      }
    }
  }

  lemma ChangedAreReached(g: PointerGraph, s: PState, s': PState, queued: seq<Node>, changed: seq<Node>)
    requires Settled(g, s, queued) && Passed(g, queued, s, s', changed)
    ensures forall n :: n in changed ==> ReachedFrom(g, [g.root], n)
  {
    assert Shown(true);
  }

  lemma OperandsUnchanged(g: PointerGraph, changed: seq<Node>, next: seq<Node>, n: Node)
    requires g.Valid() && (forall x :: x in next <==> ReachedFrom(g, changed, x)) && n !in next && AllIn(g, changed)
    requires (forall x :: x in changed ==> ReachedFrom(g, [g.root], x)) && AfterOperands(g, n)
    ensures n !in changed && Unchanged(g.At(n).operands, changed)
  {
    OperandUnchanged(g, changed, next, n, n);
    forall m | m in g.At(n).operands
      ensures m !in changed
    {
      OperandUnchanged(g, changed, next, n, m);
    }
  }

  lemma NoneHasWritten(g: PointerGraph, changed: seq<Node>, next: seq<Node>, n: Node)
    requires (forall x :: x in next <==> ReachedFrom(g, changed, x)) && n !in next
    requires (forall x :: x in changed ==> ReachedFrom(g, [g.root], x)) && AfterWrites(g, n)
    ensures NoneWrites(g, changed)
  {
    forall w | w in changed
      ensures !WritesMemory(g, w)
    {
      assert WritesMemory(g, w) ==> Reach(g.Flow(), w, n) && ReachedFrom(g, changed, n);
    }
  }

  lemma {:induction false} StoreSettles(g: PointerGraph, s: PState, s': PState, queued: seq<Node>, changed: seq<Node>,
      n: Node)
    requires SettledMemory(g, s, queued) && Passed(g, queued, s, s', changed) && PassedMemory(g, queued, s, s', changed)
    requires AfterOperands(g, n) && Unchanged(g.At(n).operands, changed)
    ensures StoreHolds(g, s', n)
  {
    assert Shown(true);
    if IsStore(g, n) && n !in queued {
      assert StoreHolds(g, s, n);
      var value, pointer := g.At(n).operands[0], g.At(n).operands[1];
      assert value in g.At(n).operands && pointer in g.At(n).operands;
      assert s'.Pts(value) == s.Pts(value) && s'.Pts(pointer) == s.Pts(pointer);
      HoldsLater(g, s, s', s.Pts(value), s.Pts(pointer));
    }
  }

  lemma {:induction false} LoadSettles(g: PointerGraph, s: PState, s': PState, queued: seq<Node>, changed: seq<Node>,
      n: Node)
    requires SettledMemory(g, s, queued) && Passed(g, queued, s, s', changed) && PassedMemory(g, queued, s, s', changed)
    requires AfterOperands(g, n) && AfterWrites(g, n) && Unchanged(g.At(n).operands, changed) && NoneWrites(g, changed)
    requires n !in changed
    ensures LoadHolds(g, s', n)
  {
    assert Shown(true);
    if IsLoad(g, n) && n !in queued {
      assert LoadHolds(g, s, n);
      var pointer := g.At(n).operands[0];
      assert pointer in g.At(n).operands;
      assert s'.Pts(pointer) == s.Pts(pointer) && s'.Pts(n) == s.Pts(n);
    }
  }

  lemma ReachedAreIn(g: PointerGraph, start: seq<Node>, nodes: seq<Node>)
    requires g.Valid() && Distinct(nodes) && forall n :: n in nodes <==> ReachedFrom(g, start, n)
    ensures AllIn(g, nodes)
  {
    FlowEdges(g);
  }

  lemma NothingSettled(g: PointerGraph, s: PState, queued: seq<Node>)
    requires forall n :: n in queued <==> ReachedFrom(g, [g.root], n)
    ensures Settled(g, s, queued) && SettledMemory(g, s, queued)
  {
  }

  /** Memory, functions and constants keep their points-to sets, as do stores and copies. */
  ghost predicate KeepsFixed(g: PointerGraph, s: PState, s': PState) {
    forall n {:trigger s'.Pts(n)} :: g.Has(n) && !Computes(g.At(n).kind) ==> s'.Pts(n) == s.Pts(n)
  }

  lemma KeepsFixedTwice(g: PointerGraph, s: PState, s': PState, s'': PState)
    requires KeepsFixed(g, s, s') && KeepsFixed(g, s', s'')
    ensures KeepsFixed(g, s, s'')
  {
    forall n | g.Has(n) && !Computes(g.At(n).kind)
      ensures s''.Pts(n) == s.Pts(n)
    {
      assert s'.Pts(n) == s.Pts(n);
    }
  }

  lemma PassedKeepsFixed(g: PointerGraph, nodes: seq<Node>, s: PState, s': PState, changed: seq<Node>)
    requires Passed(g, nodes, s, s', changed)
    ensures KeepsFixed(g, s, s')
  {
    assert Shown(true);
  }

  lemma PassedOnlyReached(g: PointerGraph, nodes: seq<Node>, s: PState, s': PState, changed: seq<Node>, any: bool)
    requires Settled(g, s, nodes) && Passed(g, nodes, s, s', changed) && Step(g, s, s', any)
    ensures OnlyReached(g, s, s')
  {
    StepKeepsFacts(g, s, s', any);
    assert Shown(true);
  }

  lemma RoundShrinks(g: PointerGraph, s: PState, s': PState)
    ensures Step(g, s, s', true) ==> |Missing(g, s')| < |Missing(g, s)|
    ensures Step(g, s, s', false) ==> |Missing(g, s')| == |Missing(g, s)|
  {
    if Step(g, s, s', true) {
      StepShrinksMissing(g, s, s');
    }
    if Step(g, s, s', false) {
      assert Shown(true);
      assert Missing(g, s') == Missing(g, s);
    }
  }

  lemma {:induction false} RoundSettles(g: PointerGraph, s: PState, s': PState, queued: seq<Node>, changed: seq<Node>,
      next: seq<Node>)
    requires g.Valid() && Settled(g, s, queued) && Passed(g, queued, s, s', changed) && AllIn(g, changed)
    requires forall n :: n in next <==> ReachedFrom(g, changed, n)
    ensures Settled(g, s', next)
  {
    assert Shown(true);
    forall n | n in next
      ensures ReachedFrom(g, [g.root], n)
    {
      var c :| c in changed && Reach(g.Flow(), c, n);
      var r :| r in [g.root] && Reach(g.Flow(), r, c);
      ReachChain(g.Flow(), r, c, n);
    }
    forall n, m | ReachedFrom(g, [g.root], n) && n !in next && (ReachedFrom(g, [g.root], m) ==> Reach(g.Flow(), m, n))
      ensures Absorbed(g, s', n, m)
    {
      OperandUnchanged(g, changed, next, n, m);
      if n !in queued {
        assert Absorbed(g, s, n, m);
        assert s'.Pts(n) == s.Pts(n) && s'.Pts(m) == s.Pts(m);
      }
    }
  }

  /** A node that is not reached from a changed one has not changed, and neither have its operands. */
  lemma {:induction false} OperandUnchanged(g: PointerGraph, changed: seq<Node>, next: seq<Node>, n: Node, m: Node)
    requires g.Valid() && (forall x :: x in next <==> ReachedFrom(g, changed, x)) && n !in next && AllIn(g, changed)
    requires forall x :: x in changed ==> ReachedFrom(g, [g.root], x)
    requires ReachedFrom(g, [g.root], m) ==> Reach(g.Flow(), m, n)
    ensures n !in changed && m !in changed
  {
    FlowEdges(g);
    assert n in changed ==> Reach(g.Flow(), n, n) && ReachedFrom(g, changed, n);
    assert m in changed ==> Reach(g.Flow(), m, n) && ReachedFrom(g, changed, n);
  }

  /** Distinct nodes of the graph. */
  ghost predicate AllIn(g: PointerGraph, nodes: seq<Node>) {
    Distinct(nodes) && forall n :: n in nodes ==> g.Has(n)
  }

  /** After a pass over some nodes, those that changed are known; the others are as before, and each node
      that combines its operands has absorbed the ones that did not change. */
  ghost predicate Passed(g: PointerGraph, nodes: seq<Node>, s: PState, s': PState, changed: seq<Node>) {
    forall k {:trigger Shown(k)} :: Shown(k) ==>
      && (forall n :: n in changed ==> n in nodes) && Distinct(changed)
      && (forall n {:trigger s'.Pts(n)} {:trigger s.Pts(n)} ::
           n !in changed || !g.Has(n) || !Computes(g.At(n).kind) ==> s'.Pts(n) == s.Pts(n))
      && (forall n, m {:trigger Absorbed(g, s', n, m)} :: n in nodes && m !in changed ==> Absorbed(g, s', n, m))
  }

  /** If the node combines its operands and m is one of them, the node has what it makes of it. */
  ghost predicate Absorbed(g: PointerGraph, s: PState, n: Node, m: Node) {
    g.Has(n) && Combines(g.At(n).kind) && m in g.At(n).operands ==> Absorbs(g, n, s.Pts(n), s.Pts(m))
  }

  lemma PassStarts(g: PointerGraph, s: PState)
    ensures Passed(g, [], s, s, [])
  {
  }

  lemma PassedAreIn(g: PointerGraph, nodes: seq<Node>, s: PState, s': PState, changed: seq<Node>)
    requires AllIn(g, nodes) && Passed(g, nodes, s, s', changed)
    ensures AllIn(g, changed) && forall n :: n in changed ==> n in nodes
  {
    assert Shown(true);
  }

  /** What processing one node does. */
  ghost predicate Processed(g: PointerGraph, n: Node, s: PState, s': PState, enq: bool) {
    && g.Has(n) && Step(g, s, s', enq)
    && (forall m {:trigger s'.Pts(m)} :: m != n || !Computes(g.At(n).kind) ==> s'.Pts(m) == s.Pts(m))
    && (Combines(g.At(n).kind) ==>
          forall m {:trigger m in g.At(n).operands} :: m in g.At(n).operands ==> Absorbs(g, n, s'.Pts(n), s.Pts(m)))
  }

  lemma {:induction false} PassNext(g: PointerGraph, nodes: seq<Node>, k: nat, s0: PState, s: PState, s': PState,
      changed: seq<Node>, enq: bool)
    requires AllIn(g, nodes) && k < |nodes| && Passed(g, nodes[..k], s0, s, changed)
    requires Processed(g, nodes[k], s, s', enq)
    ensures Passed(g, nodes[..k + 1], s0, s', if enq then changed + [nodes[k]] else changed)
  {
    assert Shown(true);
    var n, changed' := nodes[k], if enq then changed + [nodes[k]] else changed;
    assert nodes[..k + 1] == nodes[..k] + [n];
    assert n !in nodes[..k];
    assert !enq ==> Same(s, s');
    forall x {:trigger s'.Pts(x)} | x !in changed' || !g.Has(x) || !Computes(g.At(x).kind)
      ensures s'.Pts(x) == s0.Pts(x)
    {
      assert s.Pts(x) == s0.Pts(x);
    }
    forall x, m | x in nodes[..k + 1] && m !in changed'
      ensures Absorbed(g, s', x, m)
    {
      AbsorbedNext(g, nodes, k, s, s', changed, enq, x, m);
    }
  }

  lemma {:induction false} AbsorbedNext(g: PointerGraph, nodes: seq<Node>, k: nat, s: PState, s': PState,
      changed: seq<Node>, enq: bool, x: Node, m: Node)
    requires AllIn(g, nodes) && k < |nodes| && Processed(g, nodes[k], s, s', enq) && x in nodes[..k + 1]
    requires m !in changed
    requires enq ==> m != nodes[k]
    requires x in nodes[..k] ==> x != nodes[k] && Absorbed(g, s, x, m)
    ensures Absorbed(g, s', x, m)
  {
    assert Shown(true);
    assert s'.Pts(m) == s.Pts(m);
    assert nodes[..k + 1] == nodes[..k] + [nodes[k]];
  }
}
