/** Flow-insensitive pointer analysis: what processing one node does. */
module PointerTransfer {
  import opened Graphs
  import opened Guards
  import opened Offsets
  import opened PointsToSets
  import opened PointerGraphs
  import opened PointerStates

  // ---------------------------------------------------------------------------
  // Transfer of one pointer

  /** The pointer is to allocated memory. */
  ghost predicate ToMemory(g: PointerGraph, p: Pointer) {
    g.Has(p.target) && g.At(p.target).kind == Alloc
  }

  /** Just those pointers are followed. */
  lemma DereferencedIsMemory(g: PointerGraph, p: Pointer)
    requires g.Valid() && OkPointer(g, p)
    ensures CanBeDereferenced(g, p) <==> ToMemory(g, p)
  {
  }

  predicate CanBeDereferenced(g: PointerGraph, p: Pointer)
    requires g.Has(p.target)
  {
    p.target != g.nullptr && p.target != g.unknown && g.At(p.target).kind != Function
  }

  /** The sum of the offsets wraps around; unless it is zero it must be below the size. */
  function GepPointer(g: PointerGraph, gep: Offset, p: Pointer): Pointer
    requires g.Has(p.target)
  {
    var new' := if p.offset == UNKNOWN || gep == UNKNOWN then UNKNOWN else (p.offset + gep) % (UNKNOWN + 1);
    if (new' == 0 || new' < g.At(p.target).size) && new' < g.fieldSensitivity then Pointer(p.target, new')
        else Anywhere(p.target)
  }

  lemma GepPointerIsOk(g: PointerGraph, gep: Offset, p: Pointer)
    requires OkPointer(g, p)
    ensures OkPointer(g, GepPointer(g, gep, p))
  {
  }

  /** May a pointer to the target have this offset? */
  ghost predicate Allowed(g: PointerGraph, target: Node, offset: int)
    requires g.Has(target)
  {
    0 <= offset < g.fieldSensitivity && (offset == 0 || offset < g.At(target).size)
  }

  /** A pointer shifted by the offset of a GEP is in the set: at the sum of the offsets, which wraps around, if it is
      allowed, and at the unknown offset if it is not or an offset is unknown. */
  ghost predicate ShiftedIn(g: PointerGraph, gep: Offset, p: Pointer, s: PointsTo)
    requires g.Has(p.target)
  {
    var sum := p.offset + gep;
    && (p.offset == UNKNOWN || gep == UNKNOWN ==> Anywhere(p.target) in s)
    && (p.offset < UNKNOWN && gep < UNKNOWN ==>
          && (sum <= UNKNOWN && Allowed(g, p.target, sum) ==> Covers(s, Pointer(p.target, sum)))
          && (sum <= UNKNOWN && !Allowed(g, p.target, sum) ==> Anywhere(p.target) in s)
          && (sum > UNKNOWN && Allowed(g, p.target, sum - UNKNOWN - 1) ==>
                Covers(s, Pointer(p.target, sum - UNKNOWN - 1)))
          && (sum > UNKNOWN && !Allowed(g, p.target, sum - UNKNOWN - 1) ==> Anywhere(p.target) in s))
  }

  /** The pointer q is p shifted in this way. */
  ghost predicate IsShifted(g: PointerGraph, gep: Offset, p: Pointer, q: Pointer)
    requires g.Has(p.target)
  {
    && q.target == p.target
    && (q.offset < UNKNOWN ==>
          && p.offset < UNKNOWN && gep < UNKNOWN && Allowed(g, p.target, q.offset)
          && (p.offset + gep == q.offset || p.offset + gep == q.offset + UNKNOWN + 1))
    && (q.offset == UNKNOWN && p.offset < UNKNOWN && gep < UNKNOWN ==>
          !Allowed(g, p.target, if p.offset + gep <= UNKNOWN then p.offset + gep else p.offset + gep - UNKNOWN - 1))
  }

  /** All pointers of the first set are in s, shifted, and so is whatever is new there. */
  ghost predicate Shifted(g: PointerGraph, gep: Offset, from: PointsTo, old': PointsTo, s: PointsTo) {
    && (forall p :: p in from ==> g.Has(p.target) && ShiftedIn(g, gep, p, s))
    && forall q :: q in s && q !in old' ==> exists p :: p in from && IsShifted(g, gep, p, q)
  }

  lemma {:induction false} GepPointerIs(g: PointerGraph, gep: Offset, p: Pointer)
    requires g.Has(p.target)
    ensures IsShifted(g, gep, p, GepPointer(g, gep, p))
    ensures forall s {:trigger ShiftedIn(g, gep, p, s)} :: Covers(s, GepPointer(g, gep, p)) ==> ShiftedIn(g, gep, p, s)
  {
    var sum := p.offset + gep;
    if p.offset < UNKNOWN && gep < UNKNOWN {
      assert sum % (UNKNOWN + 1) == if sum <= UNKNOWN then sum else sum - UNKNOWN - 1;
    }
  }

  lemma {:induction false} GepShifts(g: PointerGraph, gep: Offset, from: PointsTo, old': PointsTo, s: PointsTo)
    requires OkSet(g, from) && Fed(old', GepSet(g, gep, from), s)
    ensures Shifted(g, gep, from, old', s)
  {
    FedMeans(old', GepSet(g, gep, from), s);
    forall p | p in from
      ensures g.Has(p.target) && ShiftedIn(g, gep, p, s)
    {
      GepPointerIs(g, gep, p);
      assert GepPointer(g, gep, p) in GepSet(g, gep, from);
    }
    forall q | q in s && q !in old'
      ensures exists p :: p in from && IsShifted(g, gep, p, q)
    {
      var p :| p in from && q == GepPointer(g, gep, p);
      GepPointerIs(g, gep, p);
    }
  }

  /** From the set `from`, everything has come into s, which nothing else has. */
  ghost predicate Fed(old': PointsTo, from: PointsTo, s: PointsTo) {
    forall k {:trigger Shown(k)} :: Shown(k) ==> CoversAll(s, from) && s <= old' + from
  }

  lemma FedNothing(old': PointsTo)
    ensures Fed(old', {}, old')
  {
  }

  lemma FedMeans(old': PointsTo, from: PointsTo, s: PointsTo)
    ensures Fed(old', from, s) <==> CoversAll(s, from) && s <= old' + from
  {
    assert Shown(true);
  }

  lemma FedMore(old': PointsTo, from: PointsTo, s: PointsTo, p: Pointer)
    requires Fed(old', from, s)
    ensures Fed(old', from + {p}, AddPointer(s, p))
  {
    assert Shown(true);
    AddPointerCovers(s, p);
  }

  lemma FedUnion(old': PointsTo, from: PointsTo, s: PointsTo, more: PointsTo)
    requires Fed(old', from, s)
    ensures Fed(old', from + more, s + more)
  {
    assert Shown(true);
    forall p | p in from
      ensures Covers(s + more, p)
    {
      assert Covers(s, p);
    }
  }

  /** Nothing but the points-to set of n differs. */
  ghost predicate OnlyPts(s: PState, s': PState, n: Node) {
    s'.mem == s.mem && s'.zero == s.zero && forall m {:trigger s'.Pts(m)} :: m != n ==> s'.Pts(m) == s.Pts(m)
  }

  ghost predicate OnlyMem(s: PState, s': PState) {
    s'.pts == s.pts
  }

  function Initial(g: PointerGraph, n: Node): PointsTo
    requires g.Valid() && g.Has(n)
  {
    match g.At(n).kind
    case Alloc => {Pointer(n, 0)}
    case Function => {Pointer(n, 0)}
    case NullAddr => {Pointer(n, 0)}
    case UnknownMem => {Anywhere(n)}
    case Constant => assert g.ValidNode(n); {Pointer(g.At(n).operands[0], g.At(n).offset)}
    case _ => {}
  }

  lemma {:induction false} InitialIsOk(g: PointerGraph, s: PState)
    requires g.Valid() && s.mem == map[] && s.pts.Keys == g.Nodes()
    requires forall n :: g.Has(n) ==> s.pts[n] == Initial(g, n)
    ensures OkState(g, s)
  {
    forall n, p | p in s.Pts(n)
      ensures OkPointer(g, p)
    {
      assert g.Has(n) && g.ValidNode(n);
      if g.At(n).kind == Constant {
        assert IsConstant(g, p);
      }
    }
  }

  /** Memory and functions point to themselves, a constant to its operand at its offset, unknown memory anywhere in
      itself; all other nodes point nowhere yet. */
  ghost predicate StartsWell(g: PointerGraph, s: PState) {
    forall n, p {:trigger p in s.Pts(n)} :: g.Has(n) ==>
      (p in s.Pts(n) <==>
        var node := g.At(n);
        || ((node.kind == Alloc || node.kind == Function || node.kind == NullAddr) && p == Pointer(n, 0))
        || (node.kind == UnknownMem && p == Pointer(n, UNKNOWN))
        || (node.kind == Constant && p.offset == node.offset && node.operands == [p.target]))
  }

  lemma StartIsWell(g: PointerGraph, s: PState)
    requires g.Valid() && forall n :: g.Has(n) ==> s.Pts(n) == Initial(g, n)
    ensures StartsWell(g, s)
  {
    forall n, p {:trigger p in s.Pts(n)} | g.Has(n)
      ensures g.At(n).kind == Constant ==>
        (p in s.Pts(n) <==> p.offset == g.At(n).offset && g.At(n).operands == [p.target])
    {
      assert g.ValidNode(n);
    }
  }

  class Analysis {
    const g: PointerGraph
    var pts: map<Node, PointsTo>
    var mem: map<Cell, PointsTo>
    var zero: set<Node>

    ghost function Value(): PState
      reads this
    {
      PState(pts, mem, zero)
    }

    /** Memory points to itself and constants to what they say; nothing is stored yet. */
    constructor (g: PointerGraph, zero: set<Node>)
      requires g.Valid()
      ensures this.g == g && Valid() && fresh(this)
      ensures mem == map[] && forall n :: g.Has(n) ==> Pts(n) == Initial(g, n)
      ensures StartsWell(g, Value())
    {
      this.g := g;
      this.zero := zero;
      pts := map i: nat | i < |g.nodes| :: Node(i) := Initial(g, Node(i));
      mem := map[];
      new;
      InitialIsOk(g, Value());
      StartIsWell(g, Value());
    }

    ghost predicate Valid()
      reads this
    {
      g.Valid() && OkState(g, Value())
    }

    function Pts(n: Node): PointsTo
      reads this
      ensures Pts(n) == Value().Pts(n)
    {
      if n in pts then pts[n] else {}
    }

    function Content(c: Cell): PointsTo
      reads this
      ensures Content(c) == Value().Content(c)
    {
      if c in mem then mem[c] else {}
    }

    // -------------------------------------------------------------------------
    // Adding pointers

    method AddPointsTo(n: Node, p: Pointer) returns (changed: bool)
      requires Valid() && g.Has(n) && OkPointer(g, p)
      modifies `pts
      ensures Valid() && OnlyPts(old(Value()), Value(), n) && Step(g, old(Value()), Value(), changed)
      ensures Pts(n) == AddPointer(old(Pts(n)), p)
    {
      PtsOk(g, Value(), n);
      AddPointerGrows(Pts(n), p);
      AddPointerCovers(Pts(n), p);
      PtsStep(g, Value(), n, AddPointer(Pts(n), p));
      changed := AddPointer(Pts(n), p) != Pts(n);
      pts := pts[n := AddPointer(Pts(n), p)];
    }

    method AddAllPointsTo(n: Node, from: PointsTo) returns (changed: bool)
      requires Valid() && g.Has(n) && OkSet(g, from)
      modifies `pts
      ensures Valid() && OnlyPts(old(Value()), Value(), n) && Step(g, old(Value()), Value(), changed)
      ensures Pts(n) == old(Pts(n)) + from
    {
      UnionGrows(Pts(n), from);
      PtsOk(g, Value(), n);
      PtsStep(g, Value(), n, Pts(n) + from);
      changed := Pts(n) + from != Pts(n);
      pts := pts[n := Pts(n) + from];
    }

    /** Nothing is stored for an empty set. */
    method AddToCell(c: Cell, from: PointsTo) returns (changed: bool)
      requires Valid() && OkCell(g, c) && OkSet(g, from)
      modifies `mem
      ensures Valid() && Step(g, old(Value()), Value(), changed)
      ensures forall x {:trigger Value().Content(x)} ::
        Value().Content(x) == if x == c then old(Value()).Content(c) + from else old(Value()).Content(x)
      ensures mem.Keys == old(mem).Keys + if from == {} then {} else {c}
    {
      if from == {} {
        NoStep(g, Value());
        return false;
      }
      UnionGrows(Content(c), from);
      ContentOk(g, Value(), c);
      CellStep(g, Value(), c, Content(c) + from);
      changed := Content(c) + from != Content(c);
      mem := mem[c := Content(c) + from];
    }

    method AddPointerToCell(c: Cell, p: Pointer) returns (changed: bool)
      requires Valid() && OkCell(g, c) && OkPointer(g, p)
      modifies `mem
      ensures Valid() && Step(g, old(Value()), Value(), changed)
      ensures forall x {:trigger Value().Content(x)} ::
        Value().Content(x) == if x == c then AddPointer(old(Value()).Content(c), p) else old(Value()).Content(x)
      ensures mem.Keys == old(mem).Keys + {c}
    {
      AddPointerGrows(Content(c), p);
      AddPointerCovers(Content(c), p);
      ContentOk(g, Value(), c);
      CellStep(g, Value(), c, AddPointer(Content(c), p));
      changed := AddPointer(Content(c), p) != Content(c);
      mem := mem[c := AddPointer(Content(c), p)];
    }

    // -------------------------------------------------------------------------
    // Nodes that combine the sets of their operands

    method ProcessGep(n: Node) returns (changed: bool)
      requires Valid() && g.Has(n) && g.At(n).kind == Gep
      modifies `pts
      ensures Valid() && OnlyPts(old(Value()), Value(), n) && Step(g, old(Value()), Value(), changed)
      ensures OkSet(g, old(Pts(g.At(n).operands[0])))
      ensures Fed(old(Pts(n)), GepSet(g, g.At(n).offset, old(Pts(g.At(n).operands[0]))), Pts(n))
      ensures Shifted(g, g.At(n).offset, old(Pts(g.At(n).operands[0])), old(Pts(n)), Pts(n))
    {
      changed := false;
      NoStep(g, Value());
      FedNothing(Pts(n));
      var source := Pts(g.At(n).operands[0]);
      PtsOk(g, Value(), g.At(n).operands[0]);
      var left := source;
      assert GepSet(g, g.At(n).offset, source - left) == {};
      while left != {}
        invariant OkState(g, Value()) && OnlyPts(old(Value()), Value(), n) && Step(g, old(Value()), Value(), changed)
        invariant left <= source
        invariant Fed(old(Pts(n)), GepSet(g, g.At(n).offset, source - left), Pts(n))
        decreases |left|
      {
        var p :| p in left;
        changed := GepOne(n, p, changed, old(Value()), source - left);
        GepSetMore(g, g.At(n).offset, source - left, p);
        Peel(source, left, p);
        left := left - {p};
      }
      assert source - left == source;
      GepShifts(g, g.At(n).offset, source, old(Pts(n)), Pts(n));
    }

    method GepOne(n: Node, p: Pointer, before: bool, ghost s0: PState, ghost done: PointsTo) returns (changed: bool)
      requires Valid() && g.Has(n) && g.At(n).kind == Gep && OkPointer(g, p) && OkSet(g, done)
      requires OnlyPts(s0, Value(), n) && Step(g, s0, Value(), before)
      requires Fed(s0.Pts(n), GepSet(g, g.At(n).offset, done), Pts(n))
      modifies `pts
      ensures Valid() && OnlyPts(s0, Value(), n) && Step(g, s0, Value(), changed)
      ensures Fed(s0.Pts(n), GepSet(g, g.At(n).offset, done) + {GepPointer(g, g.At(n).offset, p)}, Pts(n))
    {
      ghost var s := Value();
      GepPointerIsOk(g, g.At(n).offset, p);
      var differs := AddPointsTo(n, GepPointer(g, g.At(n).offset, p));
      changed := before || differs;
      StepTwice(g, s0, s, Value(), before, differs);
      FedMore(s0.Pts(n), GepSet(g, g.At(n).offset, done), s.Pts(n), GepPointer(g, g.At(n).offset, p));
    }

    /** Also for returns and the places that are returned to. */
    method ProcessPhi(n: Node) returns (changed: bool)
      requires Valid() && g.Has(n)
      modifies `pts
      ensures Valid() && OnlyPts(old(Value()), Value(), n) && Step(g, old(Value()), Value(), changed)
      ensures Pts(n) == PhiSet(old(Value()), n, g.At(n).operands)
    {
      changed := false;
      NoStep(g, Value());
      var operands := g.At(n).operands;
      for k := 0 to |operands|
        invariant OkState(g, Value()) && OnlyPts(old(Value()), Value(), n) && Step(g, old(Value()), Value(), changed)
        invariant Pts(n) == PhiSet(old(Value()), n, operands[..k])
      {
        ghost var s, c := Value(), changed;
        PtsOk(g, Value(), operands[k]);
        PhiSetMore(old(Value()), n, operands, k);
        var differs := AddAllPointsTo(n, Pts(operands[k]));
        changed := changed || differs;
        StepTwice(g, old(Value()), s, Value(), c, differs);
      }
      assert operands[..|operands|] == operands;
    }

    // -------------------------------------------------------------------------
    // Loads

    method ProcessLoad(n: Node) returns (changed: bool)
      requires Valid() && g.Has(n) && g.At(n).kind == Load
      modifies `pts
      ensures Valid() && OnlyPts(old(Value()), Value(), n) && Step(g, old(Value()), Value(), changed)
      ensures OkSet(g, old(Pts(g.At(n).operands[0])))
      ensures Fed(old(Pts(n)), LoadSet(g, old(Value()), old(Pts(g.At(n).operands[0]))), Pts(n))
      ensures Read(g, old(Value()), old(Pts(g.At(n).operands[0])), old(Pts(n)), Pts(n))
    {
      changed := false;
      NoStep(g, Value());
      FedNothing(Pts(n));
      var pointers := Pts(g.At(n).operands[0]);
      PtsOk(g, Value(), g.At(n).operands[0]);
      var left := pointers;
      assert LoadSet(g, Value(), pointers - left) == {};
      while left != {}
        invariant OkState(g, Value()) && OnlyPts(old(Value()), Value(), n) && Step(g, old(Value()), Value(), changed)
        invariant left <= pointers
        invariant Fed(old(Pts(n)), LoadSet(g, old(Value()), pointers - left), Pts(n))
        decreases |left|
      {
        var p :| p in left;
        changed := LoadOne(n, p, changed, old(Value()), LoadSet(g, old(Value()), pointers - left));
        LoadSetMore(g, old(Value()), pointers - left, p);
        Peel(pointers, left, p);
        left := left - {p};
      }
      assert pointers - left == pointers;
      LoadReads(g, old(Value()), pointers, old(Pts(n)), Pts(n));
    }

    /** What one pointer leads to. */
    method LoadOne(n: Node, p: Pointer, before: bool, ghost s0: PState, ghost done: PointsTo) returns (changed: bool)
      requires Valid() && g.Has(n) && OkPointer(g, p)
      requires OnlyPts(s0, Value(), n) && Step(g, s0, Value(), before) && Fed(s0.Pts(n), done, Pts(n))
      modifies `pts
      ensures Valid() && OnlyPts(s0, Value(), n) && Step(g, s0, Value(), changed)
      ensures Fed(s0.Pts(n), done + Loaded(g, s0, p), Pts(n))
    {
      changed := before;
      assert done + {} == done;
      if p.target == g.unknown {
        changed := LoadPointer(n, Anywhere(g.unknown), before, s0, done);
      } else if CanBeDereferenced(g, p) {
        if p.offset == UNKNOWN {
          changed := LoadObject(n, p.target, before, s0, done);
        } else {
          changed := LoadCell(n, Cell(p.target, p.offset), before, s0, done);
        }
      }
    }

    method LoadPointer(n: Node, p: Pointer, before: bool, ghost s0: PState, ghost done: PointsTo)
        returns (changed: bool)
      requires Valid() && g.Has(n) && OkPointer(g, p)
      requires OnlyPts(s0, Value(), n) && Step(g, s0, Value(), before) && Fed(s0.Pts(n), done, Pts(n))
      modifies `pts
      ensures Valid() && OnlyPts(s0, Value(), n) && Step(g, s0, Value(), changed) && Fed(s0.Pts(n), done + {p}, Pts(n))
    {
      ghost var s := Value();
      FedMore(s0.Pts(n), done, Pts(n), p);
      var differs := AddPointsTo(n, p);
      changed := before || differs;
      StepTwice(g, s0, s, Value(), before, differs);
    }

    method LoadAll(n: Node, from: PointsTo, before: bool, ghost s0: PState, ghost done: PointsTo)
        returns (changed: bool)
      requires Valid() && g.Has(n) && OkSet(g, from)
      requires OnlyPts(s0, Value(), n) && Step(g, s0, Value(), before) && Fed(s0.Pts(n), done, Pts(n))
      modifies `pts
      ensures Valid() && OnlyPts(s0, Value(), n) && Step(g, s0, Value(), changed) && Fed(s0.Pts(n), done + from, Pts(n))
    {
      ghost var s := Value();
      FedUnion(s0.Pts(n), done, Pts(n), from);
      var differs := AddAllPointsTo(n, from);
      changed := before || differs;
      StepTwice(g, s0, s, Value(), before, differs);
    }

    /** The cell or, if nothing has been stored there, perhaps null; and what is stored at unknown offset. */
    method LoadCell(n: Node, c: Cell, before: bool, ghost s0: PState, ghost done: PointsTo) returns (changed: bool)
      requires Valid() && g.Has(n)
      requires OnlyPts(s0, Value(), n) && Step(g, s0, Value(), before) && Fed(s0.Pts(n), done, Pts(n))
      modifies `pts
      ensures Valid() && OnlyPts(s0, Value(), n) && Step(g, s0, Value(), changed)
      ensures Fed(s0.Pts(n), done + LoadedFromCell(g, s0, c), Pts(n))
    {
      changed := before;
      ghost var first: PointsTo := {};
      assert done + {} == done;
      if c in mem {
        ContentOk(g, Value(), c);
        first := mem[c];
        changed := LoadAll(n, mem[c], before, s0, done);
      } else if c.base in zero {
        first := {Pointer(g.nullptr, 0)};
        changed := LoadPointer(n, Pointer(g.nullptr, 0), before, s0, done);
      }
      var other := Cell(c.base, UNKNOWN);
      assert done + LoadedFromCell(g, s0, c) == done + first + s0.Content(other);
      if other in mem {
        ContentOk(g, Value(), other);
        changed := LoadAll(n, mem[other], changed, s0, done + first);
      }
    }

    /** All cells of an object or, if there are none, perhaps null. */
    method LoadObject(n: Node, target: Node, before: bool, ghost s0: PState, ghost done: PointsTo)
        returns (changed: bool)
      requires Valid() && g.Has(n)
      requires OnlyPts(s0, Value(), n) && Step(g, s0, Value(), before) && Fed(s0.Pts(n), done, Pts(n))
      modifies `pts
      ensures Valid() && OnlyPts(s0, Value(), n) && Step(g, s0, Value(), changed)
      ensures Fed(s0.Pts(n), done + LoadedFromObject(g, s0, target), Pts(n))
    {
      var cells := CellsOf(mem, target);
      if cells == {} {
        changed := before;
        assert Contents(s0, cells) == {} && done + {} == done;
        if target in zero {
          changed := LoadPointer(n, Pointer(g.nullptr, 0), before, s0, done);
        }
      } else {
        changed := LoadCells(n, cells, before, s0, done);
      }
    }

    method LoadCells(n: Node, cells: set<Cell>, before: bool, ghost s0: PState, ghost done: PointsTo)
        returns (changed: bool)
      requires Valid() && g.Has(n) && cells <= mem.Keys
      requires OnlyPts(s0, Value(), n) && Step(g, s0, Value(), before) && Fed(s0.Pts(n), done, Pts(n))
      modifies `pts
      ensures Valid() && OnlyPts(s0, Value(), n) && Step(g, s0, Value(), changed)
      ensures Fed(s0.Pts(n), done + Contents(s0, cells), Pts(n))
    {
      changed := before;
      var left := cells;
      ghost var seen: set<Cell> := {};
      assert done + Contents(s0, seen) == done;
      while left != {}
        invariant OkState(g, Value()) && OnlyPts(s0, Value(), n) && Step(g, s0, Value(), changed) && mem == s0.mem
        invariant left <= cells && left + seen == cells && Fed(s0.Pts(n), done + Contents(s0, seen), Pts(n))
        decreases |left|
      {
        var c :| c in left;
        changed := LoadOneCell(n, c, changed, s0, done, seen);
        left := left - {c};
        seen := seen + {c};
      }
    }

    method LoadOneCell(n: Node, c: Cell, before: bool, ghost s0: PState, ghost done: PointsTo, ghost seen: set<Cell>)
        returns (changed: bool)
      requires Valid() && g.Has(n) && c in mem
      requires OnlyPts(s0, Value(), n) && Step(g, s0, Value(), before)
      requires Fed(s0.Pts(n), done + Contents(s0, seen), Pts(n))
      modifies `pts
      ensures Valid() && OnlyPts(s0, Value(), n) && Step(g, s0, Value(), changed)
      ensures Fed(s0.Pts(n), done + Contents(s0, seen + {c}), Pts(n))
    {
      ContentOk(g, Value(), c);
      changed := LoadAll(n, mem[c], before, s0, done + Contents(s0, seen));
      ContentsMore(s0, seen, c);
      assert done + Contents(s0, seen) + s0.Content(c) == done + (Contents(s0, seen) + s0.Content(c));
    }

    // -------------------------------------------------------------------------
    // Stores and copies

    /** The set of the first operand goes to every cell that the second one points to. */
    method ProcessStore(n: Node) returns (changed: bool)
      requires Valid() && g.Has(n) && g.At(n).kind == Store
      modifies `mem
      ensures Valid() && Step(g, old(Value()), Value(), changed)
      ensures OkSet(g, old(Pts(g.At(n).operands[1])))
      ensures StoredTo(g, old(Value()), Value(), old(Pts(g.At(n).operands[0])), old(Pts(g.At(n).operands[1])))
      ensures StoredInMemory(g, old(Value()), Value(), old(Pts(g.At(n).operands[0])), old(Pts(g.At(n).operands[1])))
    {
      changed := false;
      NoStep(g, Value());
      var values, pointers := Pts(g.At(n).operands[0]), Pts(g.At(n).operands[1]);
      PtsOk(g, Value(), g.At(n).operands[0]);
      PtsOk(g, Value(), g.At(n).operands[1]);
      var left := pointers;
      StoredNowhere(g, Value(), values, pointers - left);
      while left != {}
        invariant OkState(g, Value()) && Step(g, old(Value()), Value(), changed) && left <= pointers
        invariant StoredTo(g, old(Value()), Value(), values, pointers - left)
        decreases |left|
      {
        var p :| p in left;
        ghost var s, c := Value(), changed;
        var differs := StoreOne(values, p);
        changed := changed || differs;
        StepTwice(g, old(Value()), s, Value(), c, differs);
        StoredMore(g, old(Value()), s, Value(), values, pointers - left, p);
        Peel(pointers, left, p);
        left := left - {p};
      }
      assert pointers - left == pointers;
      StoreIsInMemory(g, old(Value()), Value(), values, pointers);
    }

    method StoreOne(values: PointsTo, p: Pointer) returns (changed: bool)
      requires Valid() && OkPointer(g, p) && OkSet(g, values)
      modifies `mem
      ensures Valid() && Step(g, old(Value()), Value(), changed) && StoredTo(g, old(Value()), Value(), values, {p})
    {
      changed := false;
      NoStep(g, Value());
      if CanBeDereferenced(g, p) {
        changed := AddToCell(Cell(p.target, p.offset), values);
      }
    }

    /** Whatever the source points to is copied to whatever the destination points to. */
    method ProcessMemcpy(n: Node) returns (changed: bool)
      requires Valid() && g.Has(n) && g.At(n).kind == Memcpy
      modifies `mem, `zero
      ensures Valid() && Step(g, old(Value()), Value(), changed)
      ensures OkSet(g, old(Pts(g.At(n).operands[0]))) && OkSet(g, old(Pts(g.At(n).operands[1])))
      ensures PairsCopied(g, old(Value()), Value(),
        Pairs(g, old(Pts(g.At(n).operands[0])), old(Pts(g.At(n).operands[1]))), g.At(n).len)
      ensures BytesCopied(g, old(Value()), Value(), old(Pts(g.At(n).operands[0])), old(Pts(g.At(n).operands[1])),
        g.At(n).len)
    {
      changed := false;
      NoStep(g, Value());
      var sources, destinations, len := Pts(g.At(n).operands[0]), Pts(g.At(n).operands[1]), g.At(n).len;
      PtsOk(g, Value(), g.At(n).operands[0]);
      PtsOk(g, Value(), g.At(n).operands[1]);
      var left := sources;
      NothingCopied(g, Value(), Pairs(g, sources - left, destinations), len);
      while left != {}
        invariant OkState(g, Value()) && Step(g, old(Value()), Value(), changed) && left <= sources
        invariant PairsCopied(g, old(Value()), Value(), Pairs(g, sources - left, destinations), len)
        decreases |left|
      {
        var p :| p in left;
        Peel(sources, left, p);
        changed := CopyNext(p, destinations, len, changed, old(Value()), sources - left);
        left := left - {p};
      }
      assert sources - left == sources;
      CopiesBytes(g, old(Value()), Value(), sources, destinations, len);
    }

    /** One more pointer of the source. */
    method CopyNext(p: Pointer, destinations: PointsTo, len: Offset, before: bool, ghost s0: PState,
        ghost done: PointsTo)
        returns (changed: bool)
      requires Valid() && OkPointer(g, p) && OkSet(g, destinations) && OkSet(g, done) && Step(g, s0, Value(), before)
      requires PairsCopied(g, s0, Value(), Pairs(g, done, destinations), len)
      modifies `mem, `zero
      ensures Valid() && Step(g, s0, Value(), changed) && OkSet(g, done + {p})
      ensures PairsCopied(g, s0, Value(), Pairs(g, done + {p}, destinations), len)
    {
      PairsMore(g, done, destinations, p);
      changed := before;
      if CanBeDereferenced(g, p) {
        ghost var s := Value();
        var differs := CopyFrom(p, destinations, len);
        changed := before || differs;
        StepTwice(g, s0, s, Value(), before, differs);
        CopiedTwice(g, s0, s, Value(), Pairs(g, done, destinations), Pairs(g, {p}, destinations), len);
      } else {
        assert Pairs(g, done, destinations) + {} == Pairs(g, done, destinations);
      }
    }

    method CopyFrom(p: Pointer, destinations: PointsTo, len: Offset) returns (changed: bool)
      requires Valid() && OkPointer(g, p) && CanBeDereferenced(g, p) && OkSet(g, destinations)
      modifies `mem, `zero
      ensures Valid() && Step(g, old(Value()), Value(), changed)
      ensures PairsCopied(g, old(Value()), Value(), Pairs(g, {p}, destinations), len)
    {
      changed := false;
      NoStep(g, Value());
      var left := destinations;
      NothingCopied(g, Value(), Pairs(g, {p}, destinations - left), len);
      while left != {}
        invariant OkState(g, Value()) && Step(g, old(Value()), Value(), changed) && left <= destinations
        invariant PairsCopied(g, old(Value()), Value(), Pairs(g, {p}, destinations - left), len)
        decreases |left|
      {
        var q :| q in left;
        Peel(destinations, left, q);
        PairsMoreDestinations(g, p, destinations - left, q);
        ghost var done := Pairs(g, {p}, destinations - left);
        if CanBeDereferenced(g, q) {
          ghost var s, c := Value(), changed;
          var differs := CopyObject(p, q, len);
          changed := changed || differs;
          StepTwice(g, old(Value()), s, Value(), c, differs);
          CopiedTwice(g, old(Value()), s, Value(), done, {Pair(p, q)}, len);
        }
        left := left - {q};
      }
      assert destinations - left == destinations;
    }

    /** One object is copied to another, or to itself. Zero bytes make all of the destination zero, or
        else may be null somewhere in it. */
    method CopyObject(p: Pointer, q: Pointer, len: Offset) returns (changed: bool)
      requires Valid() && OkPointer(g, p) && OkPointer(g, q) && CanBeDereferenced(g, p) && CanBeDereferenced(g, q)
      modifies `mem, `zero
      ensures Valid() && Step(g, old(Value()), Value(), changed)
      ensures PairsCopied(g, old(Value()), Value(), {Pair(p, q)}, len)
    {
      changed := false;
      NoStep(g, Value());
      ghost var s0 := Value();
      var containsNull := false;
      if p.target in zero {
        if g.At(p.target).size != UNKNOWN && g.At(p.target).size == g.At(q.target).size &&
            len == g.At(p.target).size && p.offset == 0 {
          zero := zero + {q.target};
          ZeroIsFree(g, s0, Value());
        } else {
          containsNull := true;
        }
      }
      ghost var s1 := Value();
      if containsNull {
        changed := AddPointerToCell(Cell(q.target, UNKNOWN), Pointer(g.nullptr, 0));
        StepTwice(g, s0, s1, Value(), false, changed);
      }
      CopyStarts(g, s0, Value(), p, q, len);
      ghost var s2, c := Value(), changed;
      var differs := CopyCells(p, q, len, s0);
      changed := changed || differs;
      StepTwice(g, s0, s2, Value(), c, differs);
    }

    /** The cells are visited in the order of their offsets, also those that the copy itself creates further on. */
    method CopyCells(p: Pointer, q: Pointer, len: Offset, ghost s0: PState) returns (changed: bool)
      requires Valid() && OkPointer(g, p) && OkPointer(g, q) && CanBeDereferenced(g, p) && CanBeDereferenced(g, q)
      requires CopiedUpTo(g, s0, Value(), p, q, len, -1)
      modifies `mem
      ensures Valid() && Step(g, old(Value()), Value(), changed)
      ensures PairsCopied(g, s0, Value(), {Pair(p, q)}, len)
    {
      changed := false;
      NoStep(g, Value());
      var last := -1;
      var todo := CellsAfter(mem, p.target, last);
      while todo != {}
        invariant OkState(g, Value()) && Step(g, old(Value()), Value(), changed) && -1 <= last <= UNKNOWN
        invariant CopiedUpTo(g, s0, Value(), p, q, len, last) && todo == CellsAfter(mem, p.target, last)
        decreases UNKNOWN - last
      {
        var c := LeastCell(todo);
        ghost var s, before := Value(), changed;
        var differs := CopyCell(p, q, len, c, s0, last);
        changed := changed || differs;
        StepTwice(g, old(Value()), s, Value(), before, differs);
        last := c.offset;
        todo := CellsAfter(mem, p.target, last);
      }
      CopyEnds(g, s0, Value(), p, q, len, last);
    }

    method CopyCell(p: Pointer, q: Pointer, len: Offset, c: Cell, ghost s0: PState, ghost last: int)
        returns (changed: bool)
      requires Valid() && OkPointer(g, p) && OkPointer(g, q) && CanBeDereferenced(g, p) && CanBeDereferenced(g, q)
      requires CopiedUpTo(g, s0, Value(), p, q, len, last)
      requires c in CellsAfter(mem, p.target, last)
      requires forall x :: x in CellsAfter(mem, p.target, last) ==> c.offset <= x.offset
      modifies `mem
      ensures Valid() && Step(g, old(Value()), Value(), changed)
      ensures CopiedUpTo(g, s0, Value(), p, q, len, c.offset)
    {
      changed := false;
      NoStep(g, Value());
      ghost var s := Value();
      ContentOk(g, s, c);
      if InCopy(p.offset, len, c.offset) {
        changed := AddToCell(Cell(q.target, CopyOffset(g, p.offset, q, c.offset)), mem[c]);
      }
      CopyGoesOn(g, s0, s, Value(), p, q, len, c, last);
    }

    // -------------------------------------------------------------------------
    // Any node

    /** Calls through pointers, forks and joins change the graph and are not modelled. */
    method ProcessNode(n: Node) returns (changed: bool)
      requires Valid() && g.Has(n)
      modifies `pts, `mem, `zero
      ensures Valid() && Step(g, old(Value()), Value(), changed)
      ensures NodeProcessed(g, old(Value()), Value(), n)
    {
      var operands := g.At(n).operands;
      changed := false;
      match g.At(n).kind
      case Load =>
        changed := ProcessLoad(n);
      case Store =>
        changed := ProcessStore(n);
      case Gep =>
        changed := ProcessGep(n);
      case Cast =>
        PtsOk(g, Value(), operands[0]);
        changed := AddAllPointsTo(n, Pts(operands[0]));
      case CallReturn | Return | Phi =>
        changed := ProcessPhi(n);
      case Memcpy =>
        changed := ProcessMemcpy(n);
      case _ =>
        NoStep(g, Value());
    }
  }

  /** What processing a node of each kind does. */
  ghost predicate NodeProcessed(g: PointerGraph, s: PState, s': PState, n: Node)
    requires g.Has(n)
  {
    var operands, node := g.At(n).operands, g.At(n);
    match node.kind
    case Load => OnlyPts(s, s', n) && |operands| == 1 && OkSet(g, s.Pts(operands[0])) &&
        Fed(s.Pts(n), LoadSet(g, s, s.Pts(operands[0])), s'.Pts(n))
    case Gep => OnlyPts(s, s', n) && |operands| == 1 && OkSet(g, s.Pts(operands[0])) &&
        Fed(s.Pts(n), GepSet(g, node.offset, s.Pts(operands[0])), s'.Pts(n))
    case Cast => OnlyPts(s, s', n) && |operands| == 1 && s'.Pts(n) == s.Pts(n) + s.Pts(operands[0])
    case Phi => OnlyPts(s, s', n) && s'.Pts(n) == PhiSet(s, n, operands)
    case Return => OnlyPts(s, s', n) && s'.Pts(n) == PhiSet(s, n, operands)
    case CallReturn => OnlyPts(s, s', n) && s'.Pts(n) == PhiSet(s, n, operands)
    case Store => |operands| == 2 && OkSet(g, s.Pts(operands[1])) &&
        StoredTo(g, s, s', s.Pts(operands[0]), s.Pts(operands[1]))
    case Memcpy => |operands| == 2 && OkSet(g, s.Pts(operands[0])) && OkSet(g, s.Pts(operands[1]))
      && PairsCopied(g, s, s', Pairs(g, s.Pts(operands[0]), s.Pts(operands[1])), node.len)
    case _ => s' == s
  }

  /** Nodes whose points-to sets are computed. */
  predicate Computes(kind: Kind) {
    kind == Load || Combines(kind)
  }

  /** Nodes whose points-to sets are computed from those of their operands alone. */
  predicate Combines(kind: Kind) {
    kind == Gep || kind == Cast || kind == Phi || kind == Return || kind == CallReturn
  }

  function Transfer(g: PointerGraph, n: Node, p: Pointer): Pointer
    requires g.Has(n) && g.Has(p.target)
  {
    if g.At(n).kind == Gep then GepPointer(g, g.At(n).offset, p) else p
  }

  /** The set s has what the node makes of the pointers in t. */
  ghost predicate Absorbs(g: PointerGraph, n: Node, s: PointsTo, t: PointsTo)
    requires g.Has(n)
  {
    forall p :: p in t && g.Has(p.target) ==> Covers(s, Transfer(g, n, p))
  }

  /** Only the node's own set can differ, and it has absorbed its operands. */
  lemma {:induction false} NodeProcessedMeans(g: PointerGraph, s: PState, s': PState, n: Node)
    requires g.Valid() && g.Has(n) && NodeProcessed(g, s, s', n)
    ensures forall m {:trigger s'.Pts(m)} :: m != n || !Computes(g.At(n).kind) ==> s'.Pts(m) == s.Pts(m)
    ensures Combines(g.At(n).kind) ==>
      forall m {:trigger m in g.At(n).operands} :: m in g.At(n).operands ==> Absorbs(g, n, s'.Pts(n), s.Pts(m))
  {
    match g.At(n).kind
    case Gep => GepAbsorbs(g, n, s, s');
    case Phi => PhiAbsorbs(g, n, s, s');
    case Return => PhiAbsorbs(g, n, s, s');
    case CallReturn => PhiAbsorbs(g, n, s, s');
    case Store => assert Shown(true);
    case Memcpy => assert Shown(true);
    case _ =>
  }

  lemma {:induction false} GepAbsorbs(g: PointerGraph, n: Node, s: PState, s': PState)
    requires g.Valid() && g.Has(n) && g.At(n).kind == Gep && OkSet(g, s.Pts(g.At(n).operands[0]))
    requires Fed(s.Pts(n), GepSet(g, g.At(n).offset, s.Pts(g.At(n).operands[0])), s'.Pts(n))
    ensures forall m :: m in g.At(n).operands ==> Absorbs(g, n, s'.Pts(n), s.Pts(m))
  {
    FedMeans(s.Pts(n), GepSet(g, g.At(n).offset, s.Pts(g.At(n).operands[0])), s'.Pts(n));
    forall m, p | m in g.At(n).operands && p in s.Pts(m) && g.Has(p.target)
      ensures Covers(s'.Pts(n), Transfer(g, n, p))
    {
      assert m == g.At(n).operands[0];
      assert GepPointer(g, g.At(n).offset, p) in GepSet(g, g.At(n).offset, s.Pts(m));
    }
  }

  lemma {:induction false} PhiAbsorbs(g: PointerGraph, n: Node, s: PState, s': PState)
    requires g.Has(n) && g.At(n).kind != Gep && s'.Pts(n) == PhiSet(s, n, g.At(n).operands)
    ensures forall m :: m in g.At(n).operands ==> Absorbs(g, n, s'.Pts(n), s.Pts(m))
  {
    forall m, p | m in g.At(n).operands && p in s.Pts(m)
      ensures p in s'.Pts(n)
    {
      PhiSetHas(s, n, g.At(n).operands, p);
    }
  }

  // ---------------------------------------------------------------------------
  // Copying

  function CellsAfter(mem: map<Cell, PointsTo>, base: Node, last: int): set<Cell> {
    set c | c in mem && c.base == base && c.offset > last
  }

  method LeastCell(cells: set<Cell>) returns (least: Cell)
    requires cells != {}
    ensures least in cells && forall c :: c in cells ==> least.offset <= c.offset
  {
    least :| least in cells;
    var left := cells - {least};
    while left != {}
      invariant least in cells && left <= cells && forall c :: c in cells - left ==> least.offset <= c.offset
      decreases |left|
    {
      var c :| c in left;
      left := left - {c};
      if c.offset < least.offset {
        least := c;
      }
    }
  }

  /** Is the offset within the bytes that are copied? Unknown offsets can be. */
  predicate InCopy(from: Offset, len: Offset, offset: Offset) {
    offset == UNKNOWN || from == UNKNOWN || (from <= offset && (len == UNKNOWN || offset - from < len))
  }

  /** Where an offset is copied to; unknown if it would be past the end of the destination. */
  function CopyOffset(g: PointerGraph, from: Offset, to: Pointer, offset: Offset): Offset
    requires g.Has(to.target) && (offset != UNKNOWN && from != UNKNOWN ==> from <= offset)
  {
    if offset == UNKNOWN || from == UNKNOWN || to.offset == UNKNOWN then UNKNOWN
    else if UNKNOWN - to.offset <= offset - from then UNKNOWN
    else
      var new' := offset - from + to.offset;
      if new' >= g.At(to.target).size || new' >= g.fieldSensitivity then UNKNOWN else new'
  }

  /** Memory only gets more. */
  ghost predicate MemGrows(s: PState, s': PState) {
    && OnlyMem(s, s') && s.zero <= s'.zero && s.mem.Keys <= s'.mem.Keys
    && forall c {:trigger s.Content(c)} {:trigger s'.Content(c)} :: s.Content(c) <= s'.Content(c)
  }

  /** A pointer to what is copied, and one to where it is copied. */
  datatype Pair = Pair(from: Pointer, to: Pointer)

  ghost predicate OkPair(g: PointerGraph, pair: Pair) {
    && g.Has(pair.from.target) && g.Has(pair.to.target)
    && CanBeDereferenced(g, pair.from) && CanBeDereferenced(g, pair.to)
  }

  ghost function Pairs(g: PointerGraph, from: PointsTo, to: PointsTo): set<Pair>
    requires OkSet(g, from) && OkSet(g, to)
  {
    set p, q | p in from && q in to && CanBeDereferenced(g, p) && CanBeDereferenced(g, q) :: Pair(p, q)
  }

  lemma PairsMore(g: PointerGraph, from: PointsTo, to: PointsTo, p: Pointer)
    requires OkSet(g, from) && OkSet(g, to) && OkPointer(g, p)
    ensures Pairs(g, from + {p}, to) == Pairs(g, from, to) + Pairs(g, {p}, to)
    ensures !CanBeDereferenced(g, p) ==> Pairs(g, {p}, to) == {}
  {
  }

  lemma PairsMoreDestinations(g: PointerGraph, p: Pointer, to: PointsTo, q: Pointer)
    requires OkPointer(g, p) && CanBeDereferenced(g, p) && OkSet(g, to) && OkPointer(g, q)
    ensures Pairs(g, {p}, to + {q}) == Pairs(g, {p}, to) + if CanBeDereferenced(g, q) then {Pair(p, q)} else {}
  {
  }

  /** What was in the cells up to some offset has come to where it is copied to. */
  ghost predicate Copied(g: PointerGraph, s: PState, s': PState, pair: Pair, len: Offset, upto: int)
    requires OkPair(g, pair)
  {
    forall c {:trigger s.Content(c)} ::
        c in s.mem && c.base == pair.from.target && c.offset <= upto && InCopy(pair.from.offset, len, c.offset) ==>
      s.Content(c) <= s'.Content(Cell(pair.to.target, CopyOffset(g, pair.from.offset, pair.to, c.offset)))
  }

  /** The pointer x in a cell comes from a cell that is copied there, or is null and stands for zero
      bytes of the source. */
  ghost predicate CopiedFrom(g: PointerGraph, s: PState, pair: Pair, len: Offset, c: Cell, x: Pointer) {
    && OkPair(g, pair) && c.base == pair.to.target
    && ((x == Pointer(g.nullptr, 0) && pair.from.target in s.zero && c.offset == UNKNOWN)
        || exists o: Offset :: ComesFrom(g, s, pair, len, c, x, o))
  }

  ghost predicate ComesFrom(g: PointerGraph, s: PState, pair: Pair, len: Offset, c: Cell, x: Pointer, o: Offset)
    requires OkPair(g, pair)
  {
    InCopy(pair.from.offset, len, o) && c.offset == CopyOffset(g, pair.from.offset, pair.to, o) &&
        x in s.Content(Cell(pair.from.target, o))
  }

  /** What is new in a cell has been copied there. */
  ghost predicate OnlyCopies(g: PointerGraph, s: PState, s': PState, pairs: set<Pair>, len: Offset) {
    forall c, x {:trigger x in s'.Content(c)} :: x in s'.Content(c) && x !in s.Content(c) ==>
      exists pair :: pair in pairs && CopiedFrom(g, s', pair, len, c, x)
  }

  /** The copy is of a whole object to one of the same size. */
  ghost predicate Whole(g: PointerGraph, pair: Pair, len: Offset)
    requires OkPair(g, pair)
  {
    var size := g.At(pair.from.target).size;
    size != UNKNOWN && size == g.At(pair.to.target).size && len == size && pair.from.offset == 0
  }

  /** Zero bytes of the source make the whole destination zero, or else may be null somewhere in it. */
  ghost predicate ZeroArrives(g: PointerGraph, s: PState, s': PState, pair: Pair, len: Offset)
    requires OkPair(g, pair)
  {
    pair.from.target in s.zero ==>
      if Whole(g, pair, len) then pair.to.target in s'.zero
      else Covers(s'.Content(Cell(pair.to.target, UNKNOWN)), Pointer(g.nullptr, 0))
  }

  /** Only such copies make an object zero. */
  ghost predicate OnlyZeroed(g: PointerGraph, s: PState, s': PState, pairs: set<Pair>, len: Offset) {
    forall x {:trigger x in s'.zero} :: x in s'.zero && x !in s.zero ==>
      exists pair :: pair in pairs && OkPair(g, pair) && Whole(g, pair, len) && pair.from.target in s'.zero &&
          pair.to.target == x
  }

  ghost predicate PairsCopied(g: PointerGraph, s: PState, s': PState, pairs: set<Pair>, len: Offset) {
    forall k {:trigger Shown(k)} :: Shown(k) ==>
      && MemGrows(s, s') && OnlyCopies(g, s, s', pairs, len) && OnlyZeroed(g, s, s', pairs, len)
      && forall pair :: pair in pairs ==>
           OkPair(g, pair) && Copied(g, s, s', pair, len, UNKNOWN) && ZeroArrives(g, s, s', pair, len)
  }

  ghost predicate CopiedUpTo(g: PointerGraph, s: PState, s': PState, p: Pointer, q: Pointer, len: Offset, upto: int) {
    forall k {:trigger Shown(k)} :: Shown(k) ==>
      && MemGrows(s, s') && OnlyCopies(g, s, s', {Pair(p, q)}, len) && OnlyZeroed(g, s, s', {Pair(p, q)}, len)
      && OkPair(g, Pair(p, q)) && Copied(g, s, s', Pair(p, q), len, upto) && ZeroArrives(g, s, s', Pair(p, q), len)
  }

  // The same, told by the fields of pointers and cells.

  /** Can what is d bytes behind the start of the destination be told apart? */
  ghost predicate FitsBehind(g: PointerGraph, q: Pointer, d: nat)
    requires g.Has(q.target)
  {
    q.offset < UNKNOWN && q.offset + d < g.At(q.target).size && q.offset + d < g.fieldSensitivity
  }

  ghost predicate Within(d: int, len: Offset) {
    0 <= d && (len == UNKNOWN || d < len)
  }

  /** What was d bytes behind p is d bytes behind q, or somewhere in that object if that place cannot be told apart;
      what was at an unknown place, or is copied from or to one, is somewhere in it. */
  ghost predicate BytesArrive(g: PointerGraph, s: PState, s': PState, p: Pointer, q: Pointer, len: Offset)
    requires g.Has(q.target)
  {
    && s.Content(Cell(p.target, UNKNOWN)) <= s'.Content(Cell(q.target, UNKNOWN))
    && (p.offset == UNKNOWN ==>
          forall o: Offset :: s.Content(Cell(p.target, o)) <= s'.Content(Cell(q.target, UNKNOWN)))
    && (p.offset < UNKNOWN ==>
          forall o: Offset {:trigger s.Content(Cell(p.target, o))} :: o < UNKNOWN && Within(o - p.offset, len) ==>
            var d := o - p.offset;
            && (FitsBehind(g, q, d) ==> s.Content(Cell(p.target, o)) <= s'.Content(Cell(q.target, q.offset + d)))
            && (!FitsBehind(g, q, d) ==> s.Content(Cell(p.target, o)) <= s'.Content(Cell(q.target, UNKNOWN))))
  }

  /** The pointer x in the cell c of the destination was as far behind p as c is behind q. If c is somewhere in the
      object, x was in a byte of the source whose place in the destination cannot be told apart, or it
      is null and the source was zero memory. */
  ghost predicate ByteComesFrom(g: PointerGraph, s: PState, p: Pointer, q: Pointer, len: Offset, c: Cell, x: Pointer)
    requires g.Has(q.target)
  {
    && c.base == q.target
    && (c.offset < UNKNOWN ==>
          var d := c.offset - q.offset;
          && p.offset < UNKNOWN && q.offset < UNKNOWN && Within(d, len) && FitsBehind(g, q, d)
          && p.offset + d < UNKNOWN && x in s.Content(Cell(p.target, p.offset + d)))
    && (c.offset == UNKNOWN ==>
          || (x == Pointer(g.nullptr, 0) && p.target in s.zero)
          || exists o: Offset :: x in s.Content(Cell(p.target, o)) && FromSomewhere(g, p, q, len, o))
  }

  ghost predicate FromSomewhere(g: PointerGraph, p: Pointer, q: Pointer, len: Offset, o: Offset)
    requires g.Has(q.target)
  {
    p.offset == UNKNOWN || o == UNKNOWN || (Within(o - p.offset, len) && !FitsBehind(g, q, o - p.offset))
  }

  /** All this for each pointer to memory of the source and each of the destination. */
  ghost predicate BytesCopied(g: PointerGraph, s: PState, s': PState, from: PointsTo, to: PointsTo, len: Offset) {
    && s'.pts == s.pts
    && (forall p, q {:trigger p in from, q in to} :: p in from && q in to && ToMemory(g, p) && ToMemory(g, q) ==>
          BytesArrive(g, s, s', p, q, len))
    && (forall c, x {:trigger x in s'.Content(c)} :: x in s'.Content(c) && x !in s.Content(c) ==>
          exists p, q :: p in from && q in to && ToMemory(g, p) && ToMemory(g, q) &&
              ByteComesFrom(g, s', p, q, len, c, x))
  }

  lemma {:induction false} CopyArrives(g: PointerGraph, s: PState, s': PState, p: Pointer, q: Pointer, len: Offset)
    requires OkPair(g, Pair(p, q)) && Copied(g, s, s', Pair(p, q), len, UNKNOWN)
    ensures BytesArrive(g, s, s', p, q, len)
  {
    forall o: Offset {:trigger s.Content(Cell(p.target, o))} | InCopy(p.offset, len, o)
      ensures s.Content(Cell(p.target, o)) <= s'.Content(Cell(q.target, CopyOffset(g, p.offset, q, o)))
    {
      var c := Cell(p.target, o);
      assert c !in s.mem ==> s.Content(c) == {};
    }
  }

  lemma {:induction false} CopyComesFrom(g: PointerGraph, s: PState, pair: Pair, len: Offset, c: Cell, x: Pointer)
    requires CopiedFrom(g, s, pair, len, c, x)
    ensures ByteComesFrom(g, s, pair.from, pair.to, len, c, x)
  {
    var p, q := pair.from, pair.to;
    if o: Offset :| ComesFrom(g, s, pair, len, c, x, o) {
      if c.offset == UNKNOWN {
        assert FromSomewhere(g, p, q, len, o);
      }
    }
  }

  lemma {:induction false} CopiesBytes(g: PointerGraph, s: PState, s': PState, from: PointsTo, to: PointsTo,
      len: Offset)
    requires g.Valid() && OkSet(g, from) && OkSet(g, to) && PairsCopied(g, s, s', Pairs(g, from, to), len)
    ensures BytesCopied(g, s, s', from, to, len)
  {
    assert Shown(true);
    forall p, q | p in from && q in to && ToMemory(g, p) && ToMemory(g, q)
      ensures BytesArrive(g, s, s', p, q, len)
    {
      DereferencedIsMemory(g, p);
      DereferencedIsMemory(g, q);
      assert Pair(p, q) in Pairs(g, from, to);
      CopyArrives(g, s, s', p, q, len);
    }
    forall c, x | x in s'.Content(c) && x !in s.Content(c)
      ensures exists p, q ::
        p in from && q in to && ToMemory(g, p) && ToMemory(g, q) && ByteComesFrom(g, s', p, q, len, c, x)
    {
      var pair :| pair in Pairs(g, from, to) && CopiedFrom(g, s', pair, len, c, x);
      DereferencedIsMemory(g, pair.from);
      DereferencedIsMemory(g, pair.to);
      CopyComesFrom(g, s', pair, len, c, x);
    }
  }

  lemma NothingCopied(g: PointerGraph, s: PState, pairs: set<Pair>, len: Offset)
    requires pairs == {}
    ensures PairsCopied(g, s, s, pairs, len)
  {
  }

  lemma ZeroIsFree(g: PointerGraph, s: PState, s': PState)
    requires OkState(g, s) && s' == s.(zero := s'.zero)
    ensures OkState(g, s') && Step(g, s, s', false)
  {
    assert Shown(true);
    assert forall n :: s'.Pts(n) == s.Pts(n);
    assert forall c :: s'.Content(c) == s.Content(c);
  }

  lemma {:induction false} CopiedFromLater(g: PointerGraph, s: PState, s': PState, pair: Pair, len: Offset, c: Cell,
      x: Pointer)
    requires MemGrows(s, s') && CopiedFrom(g, s, pair, len, c, x)
    ensures CopiedFrom(g, s', pair, len, c, x)
  {
    if o: Offset :| ComesFrom(g, s, pair, len, c, x, o) {
      assert ComesFrom(g, s', pair, len, c, x, o);
    }
  }

  lemma {:induction false} OnlyCopiesTwice(g: PointerGraph, s: PState, s': PState, s'': PState, pairs: set<Pair>,
      more: set<Pair>, len: Offset)
    requires MemGrows(s', s'') && OnlyCopies(g, s, s', pairs, len) && OnlyCopies(g, s', s'', more, len)
    ensures OnlyCopies(g, s, s'', pairs + more, len)
  {
    forall c, x | x in s''.Content(c) && x !in s.Content(c)
      ensures exists pair :: pair in pairs + more && CopiedFrom(g, s'', pair, len, c, x)
    {
      if x in s'.Content(c) {
        var pair :| pair in pairs && CopiedFrom(g, s', pair, len, c, x);
        CopiedFromLater(g, s', s'', pair, len, c, x);
      }
    }
  }

  lemma {:induction false} CopiedTwice(g: PointerGraph, s: PState, s': PState, s'': PState, pairs: set<Pair>,
      more: set<Pair>, len: Offset)
    requires PairsCopied(g, s, s', pairs, len) && PairsCopied(g, s', s'', more, len)
    ensures PairsCopied(g, s, s'', pairs + more, len)
  {
    assert Shown(true);
    OnlyCopiesTwice(g, s, s', s'', pairs, more, len);
    forall pair | pair in pairs + more
      ensures OkPair(g, pair) && Copied(g, s, s'', pair, len, UNKNOWN) && ZeroArrives(g, s, s'', pair, len)
    {
      assert pair in pairs ==> Copied(g, s, s', pair, len, UNKNOWN) && ZeroArrives(g, s, s', pair, len);
    }
    OnlyZeroedTwice(g, s, s', s'', pairs, more, len);
  }

  lemma {:induction false} OnlyZeroedTwice(g: PointerGraph, s: PState, s': PState, s'': PState, pairs: set<Pair>,
      more: set<Pair>, len: Offset)
    requires MemGrows(s', s'') && OnlyZeroed(g, s, s', pairs, len) && OnlyZeroed(g, s', s'', more, len)
    ensures OnlyZeroed(g, s, s'', pairs + more, len)
  {
    forall x | x in s''.zero && x !in s.zero
      ensures exists pair ::
        pair in pairs + more && OkPair(g, pair) && Whole(g, pair, len) && pair.from.target in s''.zero &&
        pair.to.target == x
    {
      if x in s'.zero {
        var pair :| pair in pairs && OkPair(g, pair) && Whole(g, pair, len) && pair.from.target in s'.zero &&
            pair.to.target == x;
        assert pair in pairs + more;
      } else {
        var pair :| pair in more && OkPair(g, pair) && Whole(g, pair, len) && pair.from.target in s''.zero &&
            pair.to.target == x;
        assert pair in pairs + more;
      }
    }
  }

  lemma {:induction false} CopyStarts(g: PointerGraph, s: PState, s': PState, p: Pointer, q: Pointer, len: Offset)
    requires OkPair(g, Pair(p, q)) && MemGrows(s, s') && (s'.mem == s.mem || p.target in s.zero)
    requires forall c {:trigger s'.Content(c)} ::
      s'.Content(c) == s.Content(c) ||
      (c == Cell(q.target, UNKNOWN) && s'.Content(c) == AddPointer(s.Content(c), Pointer(g.nullptr, 0)))
    requires s'.zero == s.zero + if p.target in s.zero && Whole(g, Pair(p, q), len) then {q.target} else {}
    requires p.target in s.zero && !Whole(g, Pair(p, q), len) ==>
      s'.Content(Cell(q.target, UNKNOWN)) == AddPointer(s.Content(Cell(q.target, UNKNOWN)), Pointer(g.nullptr, 0))
    ensures CopiedUpTo(g, s, s', p, q, len, -1)
  {
    AddPointerCovers(s.Content(Cell(q.target, UNKNOWN)), Pointer(g.nullptr, 0));
    assert Pair(p, q) in {Pair(p, q)};
    forall c, x | x in s'.Content(c) && x !in s.Content(c)
      ensures exists pair :: pair in {Pair(p, q)} && CopiedFrom(g, s', pair, len, c, x)
    {
      AddPointerCovers(s.Content(c), Pointer(g.nullptr, 0));
      assert CopiedFrom(g, s', Pair(p, q), len, c, x);
    }
  }

  lemma {:induction false} CopyGoesOn(g: PointerGraph, s: PState, s': PState, s'': PState, p: Pointer, q: Pointer,
      len: Offset, c: Cell, last: int)
    requires CopiedUpTo(g, s, s', p, q, len, last) && OkPair(g, Pair(p, q))
    requires c in CellsAfter(s'.mem, p.target, last)
    requires forall x :: x in CellsAfter(s'.mem, p.target, last) ==> c.offset <= x.offset
    requires MemGrows(s', s'') && s''.zero == s'.zero
    requires if InCopy(p.offset, len, c.offset) then
        forall x {:trigger s''.Content(x)} ::
          s''.Content(x) == if x == Cell(q.target, CopyOffset(g, p.offset, q, c.offset))
              then s'.Content(x) + s'.Content(c) else s'.Content(x)
      else s'' == s'
    ensures CopiedUpTo(g, s, s'', p, q, len, c.offset)
  {
    assert Shown(true);
    forall d, x | x in s''.Content(d) && x !in s'.Content(d)
      ensures exists pair :: pair in {Pair(p, q)} && CopiedFrom(g, s'', pair, len, d, x)
    {
      assert ComesFrom(g, s'', Pair(p, q), len, d, x, c.offset);
      assert CopiedFrom(g, s'', Pair(p, q), len, d, x);
    }
    OnlyCopiesTwice(g, s, s', s'', {Pair(p, q)}, {Pair(p, q)}, len);
    assert {Pair(p, q)} + {Pair(p, q)} == {Pair(p, q)};
    forall x | x in s.mem && x.base == p.target && x.offset <= c.offset && InCopy(p.offset, len, x.offset)
      ensures s.Content(x) <= s''.Content(Cell(q.target, CopyOffset(g, p.offset, q, x.offset)))
    {
      if x.offset > last {
        assert x in CellsAfter(s'.mem, p.target, last);
        assert x == c;
      }
    }
  }

  lemma {:induction false} CopyEnds(g: PointerGraph, s: PState, s': PState, p: Pointer, q: Pointer, len: Offset,
      last: int)
    requires CopiedUpTo(g, s, s', p, q, len, last) && CellsAfter(s'.mem, p.target, last) == {}
    ensures PairsCopied(g, s, s', {Pair(p, q)}, len)
  {
    assert Shown(true);
    forall x | x in s.mem && x.base == p.target
      ensures x.offset <= last
    {
      assert x in s'.mem;
      assert x !in CellsAfter(s'.mem, p.target, last);
    }
  }

  /** A cell gets the values just if some pointer that can be dereferenced points to it. */
  ghost predicate StoredTo(g: PointerGraph, s: PState, s': PState, values: PointsTo, pointers: PointsTo)
    requires OkSet(g, pointers)
  {
    forall k {:trigger Shown(k)} :: Shown(k) ==>
      && OnlyMem(s, s') && s'.zero == s.zero
      && forall c {:trigger s'.Content(c)} :: s'.Content(c) == s.Content(c) + if PointedTo(g, pointers, c) then values
           else {}
  }

  ghost predicate PointedTo(g: PointerGraph, pointers: PointsTo, c: Cell)
    requires OkSet(g, pointers)
  {
    Pointer(c.base, c.offset) in pointers && CanBeDereferenced(g, Pointer(c.base, c.offset))
  }

  /** The values have been added to the cells in allocated memory that are pointed to, and nothing else differs. */
  ghost predicate StoredInMemory(g: PointerGraph, s: PState, s': PState, values: PointsTo, pointers: PointsTo) {
    && s'.pts == s.pts && s'.zero == s.zero
    && forall c: Cell {:trigger s'.Content(c)} ::
         s'.Content(c) ==
           if Pointer(c.base, c.offset) in pointers && ToMemory(g, Pointer(c.base, c.offset)) then s.Content(c) + values
           else s.Content(c)
  }

  lemma {:induction false} StoreIsInMemory(g: PointerGraph, s: PState, s': PState, values: PointsTo, pointers: PointsTo)
    requires g.Valid() && OkSet(g, pointers) && StoredTo(g, s, s', values, pointers)
    ensures StoredInMemory(g, s, s', values, pointers)
  {
    assert Shown(true);
    forall c {:trigger s'.Content(c)}
      ensures PointedTo(g, pointers, c) <==>
        Pointer(c.base, c.offset) in pointers && ToMemory(g, Pointer(c.base, c.offset))
    {
      if Pointer(c.base, c.offset) in pointers {
        DereferencedIsMemory(g, Pointer(c.base, c.offset));
      }
    }
  }

  lemma StoredNowhere(g: PointerGraph, s: PState, values: PointsTo, pointers: PointsTo)
    requires pointers == {}
    ensures StoredTo(g, s, s, values, pointers)
  {
  }

  lemma StoredMore(g: PointerGraph, s: PState, s': PState, s'': PState, values: PointsTo, pointers: PointsTo,
      p: Pointer)
    requires OkSet(g, pointers) && OkPointer(g, p) && StoredTo(g, s, s', values, pointers)
    requires StoredTo(g, s', s'', values, {p})
    ensures StoredTo(g, s, s'', values, pointers + {p})
  {
    assert Shown(true);
    forall c
      ensures s''.Content(c) == s.Content(c) + if PointedTo(g, pointers + {p}, c) then values else {}
    {
      assert s''.Content(c) == s'.Content(c) + if PointedTo(g, {p}, c) then values else {};
    }
  }

  function CellsOf(mem: map<Cell, PointsTo>, target: Node): set<Cell> {
    set c | c in mem && c.base == target
  }

  ghost function Contents(s: PState, cells: set<Cell>): PointsTo {
    set c, p | c in cells && p in s.Content(c) :: p
  }

  lemma ContentsMore(s: PState, cells: set<Cell>, c: Cell)
    ensures Contents(s, cells + {c}) == Contents(s, cells) + s.Content(c)
  {
  }

  ghost function LoadedFromCell(g: PointerGraph, s: PState, c: Cell): PointsTo {
    (if c in s.mem then s.mem[c] else if c.base in s.zero then {Pointer(g.nullptr, 0)} else {}) +
        s.Content(Cell(c.base, UNKNOWN))
  }

  ghost function LoadedFromObject(g: PointerGraph, s: PState, target: Node): PointsTo {
    if CellsOf(s.mem, target) == {} && target in s.zero then {Pointer(g.nullptr, 0)}
        else Contents(s, CellsOf(s.mem, target))
  }

  /** What is loaded through a pointer: at an unknown offset it can be anything in the object. */
  ghost function Loaded(g: PointerGraph, s: PState, p: Pointer): PointsTo
    requires g.Has(p.target)
  {
    if p.target == g.unknown then {Anywhere(g.unknown)}
    else if !CanBeDereferenced(g, p) then {}
    else if p.offset == UNKNOWN then LoadedFromObject(g, s, p.target)
    else LoadedFromCell(g, s, Cell(p.target, p.offset))
  }

  ghost function LoadSet(g: PointerGraph, s: PState, pointers: PointsTo): PointsTo
    requires OkSet(g, pointers)
  {
    set p, q | p in pointers && q in Loaded(g, s, p) :: q
  }

  lemma LoadSetMore(g: PointerGraph, s: PState, pointers: PointsTo, p: Pointer)
    requires OkSet(g, pointers) && OkPointer(g, p)
    ensures LoadSet(g, s, pointers + {p}) == LoadSet(g, s, pointers) + Loaded(g, s, p)
  {
  }

  /** A load through the pointer can read the cell. */
  predicate Reads(q: Pointer, c: Cell) {
    c.base == q.target && (q.offset == UNKNOWN || c.offset == q.offset || c.offset == UNKNOWN)
  }

  /** Memory starts out as zero, and nothing has been stored where the pointer points to. */
  ghost predicate ReadsZero(s: PState, q: Pointer) {
    && q.target in s.zero
    && (q.offset == UNKNOWN ==> forall c :: c in s.mem ==> c.base != q.target)
    && (q.offset < UNKNOWN ==> Cell(q.target, q.offset) !in s.mem)
  }

  /** The pointer x can come out of memory where q points to. */
  ghost predicate ComesOut(g: PointerGraph, s: PState, q: Pointer, x: Pointer) {
    || (q.target == g.unknown && x == Anywhere(g.unknown))
    || (ToMemory(g, q) && ReadsZero(s, q) && x == Pointer(g.nullptr, 0))
    || (ToMemory(g, q) && exists c :: Reads(q, c) && x in s.Content(c))
  }

  /** Whatever can come out of memory is in the set, and so is nothing else that is new there. */
  ghost predicate Read(g: PointerGraph, s: PState, pointers: PointsTo, old': PointsTo, set': PointsTo) {
    && (forall q, x {:trigger ComesOut(g, s, q, x)} :: q in pointers && ComesOut(g, s, q, x) ==> Covers(set', x))
    && forall x :: x in set' && x !in old' ==> exists q :: q in pointers && ComesOut(g, s, q, x)
  }

  lemma {:induction false} ComesOutIsLoaded(g: PointerGraph, s: PState, q: Pointer, x: Pointer)
    requires g.Valid() && OkPointer(g, q)
    ensures ComesOut(g, s, q, x) <==> x in Loaded(g, s, q)
  {
    DereferencedIsMemory(g, q);
    assert g.At(g.unknown).kind == UnknownMem;
    if ToMemory(g, q) {
      if q.offset == UNKNOWN {
        ComesOutOfObject(g, s, q, x);
      } else {
        ComesOutOfCell(g, s, q, x);
      }
    }
  }

  lemma {:induction false} ComesOutOfObject(g: PointerGraph, s: PState, q: Pointer, x: Pointer)
    requires q.offset == UNKNOWN
    ensures x in LoadedFromObject(g, s, q.target) <==>
      (ReadsZero(s, q) && x == Pointer(g.nullptr, 0)) || exists c :: Reads(q, c) && x in s.Content(c)
  {
    var cells := CellsOf(s.mem, q.target);
    if c :| Reads(q, c) && x in s.Content(c) {
      assert c in cells;
    }
    if c :| c in cells && x in s.Content(c) {
      assert Reads(q, c);
    }
    assert cells == {} <==> forall c :: c in s.mem ==> c.base != q.target by {
      if c :| c in s.mem && c.base == q.target {
        assert c in cells;
      }
    }
  }

  lemma {:induction false} ComesOutOfCell(g: PointerGraph, s: PState, q: Pointer, x: Pointer)
    requires q.offset < UNKNOWN
    ensures x in LoadedFromCell(g, s, Cell(q.target, q.offset)) <==>
      (ReadsZero(s, q) && x == Pointer(g.nullptr, 0)) || exists c :: Reads(q, c) && x in s.Content(c)
  {
    var here, anywhere := Cell(q.target, q.offset), Cell(q.target, UNKNOWN);
    assert Reads(q, here) && Reads(q, anywhere);
    assert (exists c :: Reads(q, c) && x in s.Content(c)) <==> x in s.Content(here) || x in s.Content(anywhere);
  }

  lemma {:induction false} LoadReads(g: PointerGraph, s: PState, pointers: PointsTo, old': PointsTo, set': PointsTo)
    requires g.Valid() && OkSet(g, pointers) && Fed(old', LoadSet(g, s, pointers), set')
    ensures Read(g, s, pointers, old', set')
  {
    FedMeans(old', LoadSet(g, s, pointers), set');
    forall q, x {:trigger ComesOut(g, s, q, x)} | q in pointers && ComesOut(g, s, q, x)
      ensures Covers(set', x)
    {
      ComesOutIsLoaded(g, s, q, x);
      assert x in LoadSet(g, s, pointers);
    }
    forall x | x in set' && x !in old'
      ensures exists q :: q in pointers && ComesOut(g, s, q, x)
    {
      var q :| q in pointers && x in Loaded(g, s, q);
      ComesOutIsLoaded(g, s, q, x);
    }
  }

  ghost function GepSet(g: PointerGraph, gep: Offset, s: PointsTo): PointsTo
    requires OkSet(g, s)
  {
    set p | p in s :: GepPointer(g, gep, p)
  }

  lemma GepSetMore(g: PointerGraph, gep: Offset, s: PointsTo, p: Pointer)
    requires OkSet(g, s) && OkPointer(g, p)
    ensures GepSet(g, gep, s + {p}) == GepSet(g, gep, s) + {GepPointer(g, gep, p)}
  {
  }

  /** What a node has after it has taken in the sets of the operands. */
  ghost function PhiSet(s: PState, n: Node, operands: seq<Node>): PointsTo {
    if operands == [] then s.Pts(n) else PhiSet(s, n, operands[..|operands| - 1]) + s.Pts(operands[|operands| - 1])
  }

  lemma {:induction false} PhiSetMore(s: PState, n: Node, operands: seq<Node>, k: nat)
    requires k < |operands|
    ensures PhiSet(s, n, operands[..k + 1]) == PhiSet(s, n, operands[..k]) + s.Pts(operands[k])
    ensures s.Pts(n) <= PhiSet(s, n, operands[..k])
  {
    assert operands[..k + 1][..k] == operands[..k];
    if k > 0 {
      PhiSetMore(s, n, operands, k - 1);
    }
  }

  lemma {:induction false} PhiSetHas(s: PState, n: Node, operands: seq<Node>, p: Pointer)
    ensures p in PhiSet(s, n, operands) <==> p in s.Pts(n) || exists m :: m in operands && p in s.Pts(m)
  {
    if operands != [] {
      var front := operands[..|operands| - 1];
      PhiSetHas(s, n, front, p);
      assert operands == front + [operands[|operands| - 1]];
    }
  }
}
