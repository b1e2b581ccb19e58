/** What the pointer analysis computes, and in which sense it only grows. */
module PointerStates {
  import opened Graphs
  import opened Guards
  import opened Offsets
  import opened PointsToSets
  import opened PointerGraphs

  /** A place in a memory object, which is named by the node that allocates it. */
  datatype Cell = Cell(base: Node, offset: Offset)

  /** The points-to sets of the nodes, the contents of memory, and which memory starts out as zero. */
  datatype PState = PState(pts: map<Node, PointsTo>, mem: map<Cell, PointsTo>, zero: set<Node>) {

    function Pts(n: Node): PointsTo {
      if n in pts then pts[n] else {}
    }

    function Content(c: Cell): PointsTo {
      if c in mem then mem[c] else {}
    }
  }

  // ---------------------------------------------------------------------------
  // Offsets

  ghost predicate IsConstant(g: PointerGraph, p: Pointer) {
    exists c :: g.Has(c) && g.At(c).kind == Constant && |g.At(c).operands| == 1 &&
        p == Pointer(g.At(c).operands[0], g.At(c).offset)
  }

  /** A pointer to memory whose offset is unknown, zero, below the size, or that of a constant. */
  ghost predicate OkPointer(g: PointerGraph, p: Pointer) {
    && g.Has(p.target) && g.At(p.target).IsTarget()
    && (p.offset == UNKNOWN || p.offset == 0 || p.offset < g.At(p.target).size || IsConstant(g, p))
  }

  ghost predicate OkSet(g: PointerGraph, s: PointsTo) {
    forall p :: p in s ==> OkPointer(g, p)
  }

  /** So are the offsets of cells, which are in allocated memory. */
  ghost predicate OkCell(g: PointerGraph, c: Cell) {
    OkPointer(g, Pointer(c.base, c.offset)) && g.At(c.base).kind == Alloc
  }

  ghost predicate OkState(g: PointerGraph, s: PState) {
    forall k {:trigger Shown(k)} :: Shown(k) ==>
      && (forall n {:trigger s.Pts(n)} :: OkSet(g, s.Pts(n)))
      && (forall c {:trigger c in s.mem} :: c in s.mem ==> OkCell(g, c))
      && (forall c {:trigger s.Content(c)} :: OkSet(g, s.Content(c)))
  }

  lemma PtsOk(g: PointerGraph, s: PState, n: Node)
    requires OkState(g, s)
    ensures OkSet(g, s.Pts(n))
  {
    assert Shown(true);
  }

  lemma ContentOk(g: PointerGraph, s: PState, c: Cell)
    requires OkState(g, s)
    ensures OkSet(g, s.Content(c)) && (c in s.mem ==> OkCell(g, c))
  {
    assert Shown(true);
  }

  // ---------------------------------------------------------------------------
  // Growth

  datatype Fact = InNode(node: Node, mark: Mark) | InCell(cell: Cell, mark: Mark)

  ghost predicate HasFact(s: PState, f: Fact) {
    match f
    case InNode(n, m) => HasMark(s.Pts(n), m)
    case InCell(c, m) => HasMark(s.Content(c), m)
  }

  /** There are finitely many facts about the nodes of the graph. */
  ghost predicate InUniverse(g: PointerGraph, f: Fact) {
    && g.Has(f.mark.pointer.target)
    && match f
       case InNode(n, _) => g.Has(n)
       case InCell(c, _) => g.Has(c.base)
  }

  ghost function Pointers(g: PointerGraph): (all: set<Pointer>)
    ensures forall p :: p in all <==> g.Has(p.target)
  {
    set t, o | t in g.Nodes() && 0 <= o <= UNKNOWN :: Pointer(t, o)
  }

  ghost function Marks(g: PointerGraph): (all: set<Mark>)
    ensures forall m :: m in all <==> g.Has(m.pointer.target)
  {
    (set p | p in Pointers(g) :: Covered(p)) + (set p | p in Pointers(g) :: Kept(p))
  }

  ghost function Cells(g: PointerGraph): (all: set<Cell>)
    ensures forall c :: c in all <==> g.Has(c.base)
  {
    set t, o | t in g.Nodes() && 0 <= o <= UNKNOWN :: Cell(t, o)
  }

  ghost function Universe(g: PointerGraph): (all: set<Fact>)
    ensures forall f :: f in all <==> InUniverse(g, f)
  {
    (set n, m | n in g.Nodes() && m in Marks(g) :: InNode(n, m)) +
        (set c, m | c in Cells(g) && m in Marks(g) :: InCell(c, m))
  }

  ghost function Missing(g: PointerGraph, s: PState): set<Fact> {
    set f | f in Universe(g) && !HasFact(s, f)
  }

  ghost predicate Same(s: PState, s': PState) {
    && (forall n {:trigger s.Pts(n)} {:trigger s'.Pts(n)} :: s'.Pts(n) == s.Pts(n))
    && (forall c {:trigger s.Content(c)} {:trigger s'.Content(c)} :: s'.Content(c) == s.Content(c))
  }

  /** A step keeps all facts; if it reports a change there is a new one, and if not nothing differs. */
  ghost predicate Step(g: PointerGraph, s: PState, s': PState, changed: bool) {
    forall k {:trigger Shown(k)} :: Shown(k) ==>
      && (forall f :: HasFact(s, f) ==> HasFact(s', f))
      && (if changed then exists f :: InUniverse(g, f) && HasFact(s', f) && !HasFact(s, f) else Same(s, s'))
  }

  lemma StepTwice(g: PointerGraph, s: PState, s': PState, s'': PState, changed: bool, changed': bool)
    requires Step(g, s, s', changed) && Step(g, s', s'', changed')
    ensures Step(g, s, s'', changed || changed')
  {
    assert Shown(true);
    if changed' {
      var f :| InUniverse(g, f) && HasFact(s'', f) && !HasFact(s', f);
      assert !HasFact(s, f);
    }
  }

  lemma NoStep(g: PointerGraph, s: PState)
    ensures Step(g, s, s, false)
  {
  }

  lemma StepShrinksMissing(g: PointerGraph, s: PState, s': PState)
    requires Step(g, s, s', true)
    ensures |Missing(g, s')| < |Missing(g, s)|
  {
    assert Shown(true);
    var f :| InUniverse(g, f) && HasFact(s', f) && !HasFact(s, f);
    assert f in Missing(g, s) && f !in Missing(g, s');
    StrictSubset(Missing(g, s'), Missing(g, s));
  }

  lemma {:induction false} PtsStep(g: PointerGraph, s: PState, n: Node, t: PointsTo)
    requires g.Valid() && OkState(g, s) && g.Has(n) && Grown(s.Pts(n), t) && OkSet(g, t)
    ensures Step(g, s, s.(pts := s.pts[n := t]), t != s.Pts(n)) && OkState(g, s.(pts := s.pts[n := t]))
  {
    assert Shown(true);
    var s' := s.(pts := s.pts[n := t]);
    WithPts(s, s', n, t);
    if t != s.Pts(n) {
      var m :| HasMark(t, m) && !HasMark(s.Pts(n), m) && m.pointer in t;
      assert HasFact(s', InNode(n, m)) && !HasFact(s, InNode(n, m)) && InUniverse(g, InNode(n, m));
    }
  }

  lemma WithPts(s: PState, s': PState, n: Node, t: PointsTo)
    requires s' == s.(pts := s.pts[n := t])
    ensures forall x {:trigger s'.Pts(x)} :: s'.Pts(x) == if x == n then t else s.Pts(x)
    ensures forall c {:trigger s'.Content(c)} :: s'.Content(c) == s.Content(c)
  {
  }

  lemma WithContent(s: PState, s': PState, c: Cell, t: PointsTo)
    requires s' == s.(mem := s.mem[c := t])
    ensures forall x {:trigger s'.Pts(x)} :: s'.Pts(x) == s.Pts(x)
    ensures forall x {:trigger s'.Content(x)} :: s'.Content(x) == if x == c then t else s.Content(x)
  {
  }

  lemma {:induction false} CellStep(g: PointerGraph, s: PState, c: Cell, t: PointsTo)
    requires g.Valid() && OkState(g, s) && OkCell(g, c) && Grown(s.Content(c), t) && OkSet(g, t)
    ensures Step(g, s, s.(mem := s.mem[c := t]), t != s.Content(c)) && OkState(g, s.(mem := s.mem[c := t]))
  {
    CellGrows(g, s, c, t);
    CellStaysOk(g, s, c, t);
  }

  lemma {:induction false} CellStaysOk(g: PointerGraph, s: PState, c: Cell, t: PointsTo)
    requires OkState(g, s) && OkCell(g, c) && OkSet(g, t)
    ensures OkState(g, s.(mem := s.mem[c := t]))
  {
    assert Shown(true);
    WithContent(s, s.(mem := s.mem[c := t]), c, t);
  }

  lemma {:induction false} CellGrows(g: PointerGraph, s: PState, c: Cell, t: PointsTo)
    requires OkCell(g, c) && Grown(s.Content(c), t) && OkSet(g, t)
    ensures Step(g, s, s.(mem := s.mem[c := t]), t != s.Content(c))
  {
    var s' := s.(mem := s.mem[c := t]);
    WithContent(s, s', c, t);
    if t != s.Content(c) {
      var m :| HasMark(t, m) && !HasMark(s.Content(c), m) && m.pointer in t;
      assert HasFact(s', InCell(c, m)) && !HasFact(s, InCell(c, m)) && InUniverse(g, InCell(c, m));
    }
  }
}
