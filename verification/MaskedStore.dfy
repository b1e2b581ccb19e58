/** A load that misses what a store has put into memory, although control can go from the store to the load. */
module MaskedStores {
  import opened Graphs
  import opened Guards
  import opened Offsets
  import opened PointsToSets
  import opened PointerGraphs
  import opened PointerStates
  import opened PointerTransfer
  import opened StoredValues
  import opened StrongComponents

  function Plain(kind: Kind, operands: seq<Node>, successors: seq<Node>): PSNode {
    PSNode(kind, operands, successors, [], [], 0, 0, 8, false)
  }

  function MaskNode(i: nat): PSNode {
    match i
    case 0 => Plain(Alloc, [], [Node(1)])
    case 1 => Plain(Alloc, [], [Node(2)])
    case 2 => Plain(Load, [Node(0)], [Node(3), Node(4)])
    case 3 => Plain(Store, [Node(1), Node(0)], [])
    case 4 => Plain(Store, [Node(1), Node(0)], [Node(2)])
    case 5 => Plain(NullAddr, [], [])
    case _ => Plain(UnknownMem, [], [])
  }

  /** Memory 0 and 1, a load from 0, and two stores of a pointer to 1 into 0. Control goes on from the load to
      either store, and only from the second one back to the load. */
  function Mask(): PointerGraph {
    PointerGraph(seq(7, i requires 0 <= i < 7 => MaskNode(i)), Node(0), Node(5), Node(6), UNKNOWN)
  }

  lemma MaskHas()
    ensures forall n {:trigger Mask().At(n)} :: Mask().Has(n) ==> Mask().At(n) == MaskNode(n.pos)
    ensures forall n :: Mask().Has(n) <==> n.pos < 7
  {
  }

  function Start(i: nat): PointsTo {
    if i == 0 || i == 1 || i == 5 then {Pointer(Node(i), 0)} else if i == 6 then {Anywhere(Node(6))} else {}
  }

  function Before(): PState {
    PState(map i: nat | i < 7 :: Node(i) := Start(i), map[], {})
  }

  function After(): PState {
    Before().(mem := map[Cell(Node(0), 0) := {Pointer(Node(1), 0)}])
  }

  lemma NodeIsValid(n: Node)
    requires Mask().Has(n)
    ensures Mask().ValidNode(n)
  {
    MaskHas();
    assert Mask().At(n) == MaskNode(n.pos) && Mask().At(n).Next() == MaskNode(n.pos).successors;
    assert Mask().Has(Node(0)) && Mask().Has(Node(1)) && Mask().Has(Node(2)) && Mask().Has(Node(3)) &&
        Mask().Has(Node(4));
  }

  lemma MaskIsValid()
    ensures Mask().Valid()
  {
    MaskHas();
    forall n | Mask().Has(n)
      ensures Mask().ValidNode(n)
    {
      NodeIsValid(n);
    }
    NodesAreValid(Mask());
  }

  lemma NodesAreValid(g: PointerGraph)
    requires g.Has(g.root) && g.Has(g.nullptr) && g.Has(g.unknown)
    requires g.At(g.nullptr).kind == NullAddr && g.At(g.unknown).kind == UnknownMem
    requires forall n :: g.Has(n) ==> g.ValidNode(n)
    ensures g.Valid()
  {
  }

  /** The analysis starts with these points-to sets and nothing in memory. */
  lemma BeforeIsInitial(n: Node)
    requires Mask().Has(n)
    ensures Mask().Valid() && Before().Pts(n) == Initial(Mask(), n) && Before().mem == map[]
  {
    MaskIsValid();
    MaskHas();
    assert Before().Pts(n) == Start(n.pos);
  }

  lemma Operands()
    ensures Before().Pts(Node(0)) == After().Pts(Node(0)) == {Pointer(Node(0), 0)}
    ensures Before().Pts(Node(1)) == After().Pts(Node(1)) == {Pointer(Node(1), 0)}
    ensures Before().Pts(Node(2)) == After().Pts(Node(2)) == {}
    ensures OkSet(Mask(), {Pointer(Node(0), 0)})
    ensures forall c {:trigger PointedTo(Mask(), {Pointer(Node(0), 0)}, c)} ::
      PointedTo(Mask(), {Pointer(Node(0), 0)}, c) <==> c == Cell(Node(0), 0)
  {
    MaskHas();
  }

  lemma Contents()
    ensures forall c :: Before().Content(c) == {}
    ensures forall c :: After().Content(c) == if c == Cell(Node(0), 0) then {Pointer(Node(1), 0)} else {}
  {
  }

  lemma StoresOnce(s: PState)
    requires s == Before() || s == After()
    ensures StoredTo(Mask(), s, After(), {Pointer(Node(1), 0)}, {Pointer(Node(0), 0)})
  {
    Operands();
    Contents();
  }

  lemma LoadsNothing()
    ensures LoadSet(Mask(), Before(), {Pointer(Node(0), 0)}) == {}
    ensures Fed({}, {}, {})
  {
    Operands();
    Contents();
  }

  /** The first round processes the nodes in the order 0, 1, 2, 3, 4; only node 3 reports a change. */
  lemma FirstRound()
    ensures NodeProcessed(Mask(), Before(), Before(), Node(0)) && NodeProcessed(Mask(), Before(), Before(), Node(1))
    ensures NodeProcessed(Mask(), Before(), Before(), Node(2))
    ensures NodeProcessed(Mask(), Before(), After(), Node(3)) && !Same(Before(), After())
    ensures NodeProcessed(Mask(), After(), After(), Node(4))
  {
    MaskHas();
    Operands();
    LoadsNothing();
    StoresOnce(Before());
    StoresOnce(After());
    Contents();
    assert Before().Content(Cell(Node(0), 0)) != After().Content(Cell(Node(0), 0));
  }

  lemma OnlyThree(n: Node)
    ensures ReachedFrom(Mask(), [Node(3)], n) <==> n == Node(3)
  {
    MaskHas();
    MaskIsValid();
    FlowEdges(Mask());
    assert EdgeClosed(Mask().Flow(), {Node(3)});
    assert Node(3) in [Node(3)];
  }

  lemma ComesBack()
    ensures Reach(Mask().Flow(), Node(4), Node(2))
  {
    MaskHas();
    MaskIsValid();
    FlowEdges(Mask());
    ReachEdge(Mask().Flow(), Node(4), Node(2));
  }

  lemma LoadMisses()
    ensures IsLoad(Mask(), Node(2)) && !LoadHolds(Mask(), After(), Node(2))
  {
    MaskHas();
    Operands();
    Contents();
    var pointer, cell := Pointer(Node(0), 0), Cell(Node(0), 0);
    assert Reads(pointer, cell) && Pointer(Node(1), 0) in After().Content(cell) && ToMemory(Mask(), pointer);
  }

  lemma SecondStoreHolds()
    ensures IsStore(Mask(), Node(4)) && StoreHolds(Mask(), After(), Node(4))
  {
    MaskHas();
    Operands();
    MaskIsValid();
    StoresOnce(After());
    StoredHolds(Mask(), After(), After(), {Pointer(Node(1), 0)}, {Pointer(Node(0), 0)});
  }

  /** The second round processes what is reached from node 3, which is node 3 alone, and changes nothing. In the end
      the second store holds, the load can come after it, and what has been stored does not come out of the load. */
  lemma StoreIsMasked()
    ensures forall n :: ReachedFrom(Mask(), [Node(3)], n) <==> n == Node(3)
    ensures Mask().Has(Node(3)) && NodeProcessed(Mask(), After(), After(), Node(3))
    ensures IsStore(Mask(), Node(4)) && StoreHolds(Mask(), After(), Node(4)) && Reach(Mask().Flow(), Node(4), Node(2))
    ensures IsLoad(Mask(), Node(2)) && !LoadHolds(Mask(), After(), Node(2))
  {
    forall n
      ensures ReachedFrom(Mask(), [Node(3)], n) <==> n == Node(3)
    {
      OnlyThree(n);
    }
    MaskHas();
    Operands();
    StoresOnce(After());
    ComesBack();
    LoadMisses();
    SecondStoreHolds();
  }
}
