/** The symbol algorithm of Ranganath et al. in its fixpoint mode: node n collects, for each
    predicate p, a symbol for every successor of p all of whose maximal paths contain n. */
module SymbolNTSCD {
  import opened Graphs
  import opened Relations
  import opened FrontierNTSCD
  import opened Order

  datatype Symbol = Symbol(pred: Node, succ: Node)
  datatype Cell = Cell(node: Node, pred: Node)

  type Symbols = map<Cell, set<Symbol>>

  function At(s: Symbols, n: Node, p: Node): set<Symbol> {
    if Cell(n, p) in s then s[Cell(n, p)] else {}
  }

  ghost predicate Has(s: Symbols, n: Node, p: Node, r: Node) {
    Symbol(p, r) in At(s, n, p)
  }

  // ---------------------------------------------------------------------------
  // What the symbols mean

  ghost predicate Sound(g: Graph, s: Symbols) {
    forall n, p, t :: t in At(s, n, p) ==>
      p in g.predicates && t.pred == p && g.Edge(p, t.succ) && g.Has(n) && OnAllPaths(g, t.succ, n)
  }

  ghost predicate Initialized(g: Graph, s: Symbols) {
    forall p, r :: p in g.predicates && g.Edge(p, r) ==> Has(s, r, p, r)
  }

  ghost predicate Within(s: Symbols, s': Symbols) {
    forall n, p, t :: t in At(s, n, p) ==> t in At(s', n, p)
  }

  /** The rule for node n has nothing left to do. */
  ghost predicate Settled(g: Graph, s: Symbols, n: Node)
    requires g.Has(n)
  {
    && (|g.Succs(n)| == 1 && g.Succs(n)[0] != n ==>
          forall p :: p in g.predicates ==> At(s, n, p) <= At(s, g.Succs(n)[0], p))
    && (|g.Succs(n)| > 1 ==>
          forall m, p :: g.Has(m) && |At(s, m, n)| == |g.Succs(n)| && p in g.predicates && p != n ==>
            At(s, n, p) <= At(s, m, p))
  }

  ghost predicate AllSettled(g: Graph, s: Symbols) {
    forall m {:trigger Settled(g, s, m)} :: g.Has(m) ==> Settled(g, s, m)
  }

  ghost function SymbolsOf(p: Node, succs: seq<Node>): set<Symbol> {
    set r | r in succs :: Symbol(p, r)
  }

  lemma {:induction false} SymbolsOfSize(p: Node, succs: seq<Node>)
    requires Distinct(succs)
    ensures |SymbolsOf(p, succs)| == |succs|
  {
    if succs != [] {
      var rest := succs[..|succs| - 1];
      assert succs == rest + [succs[|succs| - 1]];
      SymbolsOfSize(p, rest);
      assert SymbolsOf(p, succs) == SymbolsOf(p, rest) + {Symbol(p, succs[|succs| - 1])};
    }
  }

  /** The symbols of p are complete at n exactly if no successor of p can miss n. */
  lemma {:induction false} FullCell(g: Graph, s: Symbols, n: Node, p: Node)
    requires g.Valid() && Sound(g, s) && p in g.predicates
    ensures At(s, n, p) <= SymbolsOf(p, g.Succs(p))
    ensures |At(s, n, p)| <= |g.Succs(p)|
    ensures |At(s, n, p)| == |g.Succs(p)| <==> forall r :: g.Edge(p, r) ==> Has(s, n, p, r)
  {
    SymbolsOfSize(p, g.Succs(p));
    forall t | t in At(s, n, p)
      ensures t in SymbolsOf(p, g.Succs(p))
    {
      assert t == Symbol(p, t.succ) && t.succ in g.Succs(p);
    }
    SubsetSize(At(s, n, p), SymbolsOf(p, g.Succs(p)));
    if |At(s, n, p)| == |g.Succs(p)| {
      EqualBySize(At(s, n, p), SymbolsOf(p, g.Succs(p)));
      assert forall r :: g.Edge(p, r) ==> Symbol(p, r) in SymbolsOf(p, g.Succs(p));
    }
    if forall r :: g.Edge(p, r) ==> Has(s, n, p, r) {
      forall t | t in SymbolsOf(p, g.Succs(p))
        ensures t in At(s, n, p)
      {
        assert g.Edge(p, t.succ) && Has(s, n, p, t.succ);
      }
      assert At(s, n, p) == SymbolsOf(p, g.Succs(p));
    }
  }

  lemma {:induction false} SoundStep(g: Graph, s: Symbols, n: Node, m: Node, r: Node)
    requires g.Valid() && g.Has(n) && g.Has(m) && OnAllPaths(g, r, n)
    requires (|g.Succs(n)| == 1 && g.Succs(n)[0] == m) ||
             (n in g.predicates && Sound(g, s) && |At(s, m, n)| == |g.Succs(n)|)
    ensures OnAllPaths(g, r, m)
  {
    if |g.Succs(n)| == 1 && g.Succs(n)[0] == m {
      HitLocal(g, m, {m}, {});
    } else {
      FullCell(g, s, m, n);
    }
    HitLocal(g, n, {m}, {});
    OnAllPathsChain(g, r, n, m);
  }

  /** With nothing left to do, a symbol that is at x is at every node that cannot be missed
      from x. */
  lemma {:induction false} SymbolsTravel(g: Graph, s: Symbols, x: Node, n: Node, p: Node, r: Node)
    requires g.Valid() && Sound(g, s) && Initialized(g, s)
    requires AllSettled(g, s)
    requires p in g.predicates && Has(s, x, p, r) && OnAllPaths(g, x, n)
    ensures Has(s, n, p, r)
    decreases Rank(g, {n}, {}, x)
  {
    if x != n {
      assert Settled(g, s, x);
      HitLocal(g, x, {n}, {});
      if |g.Succs(x)| == 1 {
        var y := g.Succs(x)[0];
        assert g.Edge(x, y);
        RankDrops(g, {n}, {}, x, y);
        SymbolsTravel(g, s, y, n, p, r);
      } else {
        forall q | g.Edge(x, q)
          ensures Has(s, n, x, q)
        {
          RankDrops(g, {n}, {}, x, q);
          SymbolsTravel(g, s, q, n, x, q);
        }
        FullCell(g, s, n, x);
        HitLocal(g, n, {n}, {});
      }
    }
  }

  /** At the fixpoint the symbols say which successors cannot miss n. */
  lemma {:induction false} FixpointIsExact(g: Graph, s: Symbols, n: Node, p: Node, r: Node)
    requires g.Valid() && Sound(g, s) && Initialized(g, s) && p in g.predicates
    requires AllSettled(g, s)
    ensures Has(s, n, p, r) <==> g.Edge(p, r) && OnAllPaths(g, r, n)
  {
    if Has(s, n, p, r) {
      assert Symbol(p, r) in At(s, n, p);
    } else if g.Edge(p, r) && OnAllPaths(g, r, n) {
      SymbolsTravel(g, s, r, n, p, r);
      assert false;
    }
  }

  lemma {:induction false} DecidesBySize(g: Graph, s: Symbols, n: Node, p: Node)
    requires g.Valid() && Sound(g, s) && Initialized(g, s) && p in g.predicates
    requires AllSettled(g, s)
    ensures 0 < |At(s, n, p)| < |g.Succs(p)| <==> Decides(g, p, n)
  {
    FullCell(g, s, n, p);
    forall r
      ensures Has(s, n, p, r) <==> g.Edge(p, r) && OnAllPaths(g, r, n)
    {
      FixpointIsExact(g, s, n, p, r);
    }
    if At(s, n, p) != {} {
      var t :| t in At(s, n, p);
      assert Has(s, n, p, t.succ);
    }
  }

  /** The symbols that are not there yet. */
  ghost function Missing(g: Graph, s: Symbols): set<(Node, Node, Node)> {
    set n, p, r | n in g.Nodes() && p in g.Nodes() && r in g.Nodes() && !Has(s, n, p, r) :: (n, p, r)
  }

  lemma {:induction false} MissingDrops(g: Graph, s: Symbols, s': Symbols)
    requires g.Valid() && Sound(g, s') && Within(s, s') && !Within(s', s)
    ensures Missing(g, s') < Missing(g, s)
  {
    var n, p, t :| t in At(s', n, p) && t !in At(s, n, p);
    assert t == Symbol(p, t.succ) && g.Has(p) && g.Has(t.succ);
    assert Has(s', n, p, t.succ) && !Has(s, n, p, t.succ);
    assert (n, p, t.succ) in Missing(g, s) && (n, p, t.succ) !in Missing(g, s');
  }

  lemma {:induction false} SameCells(g: Graph, s: Symbols, s': Symbols)
    requires Within(s, s') && Within(s', s)
    ensures forall n, p :: At(s, n, p) == At(s', n, p)
    ensures forall n {:trigger Settled(g, s', n)} :: g.Has(n) && Settled(g, s, n) ==> Settled(g, s', n)
    ensures Missing(g, s) == Missing(g, s')
  {
    forall n, p
      ensures At(s, n, p) == At(s', n, p)
    {
      assert forall t :: t in At(s, n, p) <==> t in At(s', n, p);
    }
  }

  // ---------------------------------------------------------------------------
  // The algorithm

  /** A successor of p is met at once. */
  lemma {:induction false} FirstSymbol(g: Graph, s: Symbols, p: Node, n: Node)
    requires g.Valid() && p in g.predicates && g.Edge(p, n) && Sound(g, s)
    ensures var s' := s[Cell(n, p) := At(s, n, p) + {Symbol(p, n)}];
            Sound(g, s') && Within(s, s') && Has(s', n, p, n)
  {
    var s' := s[Cell(n, p) := At(s, n, p) + {Symbol(p, n)}];
    HitLocal(g, n, {n}, {});
    assert forall k, q :: At(s', k, q) == At(s, k, q) + if k == n && q == p then {Symbol(p, n)} else {};
  }

  class NTSCDRanganath {
    var s: Symbols

    constructor ()
      ensures s == map[]
    {
      s := map[];
    }

    /** Copies the symbols of one cell into another one and says whether that changed it. */
    method InsertAll(from: Cell, to: Cell) returns (changed: bool)
      requires from.pred == to.pred
      modifies this
      ensures forall n, p :: Cell(n, p) != to ==> At(s, n, p) == old(At(s, n, p))
      ensures At(s, to.node, to.pred) == old(At(s, to.node, to.pred)) + old(At(s, from.node, from.pred))
      ensures changed <==> !(old(At(s, from.node, from.pred)) <= old(At(s, to.node, to.pred)))
    {
      var target := At(s, to.node, to.pred);
      var merged := target + At(s, from.node, from.pred);
      changed := merged != target;
      s := s[to := merged];
    }

    method ProcessNode(g: Graph, n: Node) returns (changed: bool)
      requires g.Valid() && g.Has(n) && Sound(g, s)
      modifies this
      ensures Sound(g, s) && Within(old(s), s)
      ensures changed <==> !Within(s, old(s))
      ensures !changed ==> Settled(g, s, n)
    {
      changed := false;
      if |g.Succs(n)| == 1 && g.Succs(n)[0] != n {
        assert g.Edge(n, g.Succs(n)[0]);
        changed := Spread(g, n, g.Succs(n)[0]);
      } else if |g.Succs(n)| > 1 {
        for i := 0 to |g.succs|
          invariant Sound(g, s) && Within(old(s), s)
          invariant changed <==> !Within(s, old(s))
          invariant !changed ==> forall m: Node :: m.pos < i && |At(s, m, n)| == |g.Succs(n)| ==> Covered(g, s, n, m)
        {
          if |At(s, Node(i), n)| == |g.Succs(n)| {
            ghost var before := s;
            var c := Spread(g, n, Node(i));
            if !c {
              SameCells(g, before, s);
            }
            changed := changed || c;
          }
        }
      }
    }

    /** The symbols at n that have to be copied to m are there. */
    ghost predicate Covered(g: Graph, s: Symbols, n: Node, m: Node)
      requires g.Has(n)
    {
      forall p :: p in g.predicates && (p != n || |g.Succs(n)| == 1) ==> At(s, n, p) <= At(s, m, p)
    }

    /** The loop over the predicates, shared by the two rules. */
    method Spread(g: Graph, n: Node, m: Node) returns (changed: bool)
      requires g.Valid() && g.Has(n) && g.Has(m) && Sound(g, s)
      requires (|g.Succs(n)| == 1 && g.Succs(n)[0] == m && m != n) ||
               (|g.Succs(n)| > 1 && |At(s, m, n)| == |g.Succs(n)|)
      modifies this
      ensures Sound(g, s) && Within(old(s), s) && Covered(g, s, n, m)
      ensures changed <==> !Within(s, old(s))
    {
      changed := false;
      var todo := g.predicates;
      while todo != {}
        invariant todo <= g.predicates
        invariant Sound(g, s) && Within(old(s), s)
        invariant changed <==> !Within(s, old(s))
        invariant |g.Succs(n)| == 1 || |At(s, m, n)| == |g.Succs(n)|
        invariant forall p :: p in g.predicates - todo && (p != n || |g.Succs(n)| == 1) ==> At(s, n, p) <= At(s, m, p)
      {
        var p;
        p, todo := Take(todo);
        if p == n && |g.Succs(n)| > 1 {
          continue;
        }
        var c := SpreadOne(g, n, m, p);
        changed := changed || c;
      }
    }

    method SpreadOne(g: Graph, n: Node, m: Node, p: Node) returns (changed: bool)
      requires g.Valid() && g.Has(n) && g.Has(m) && Sound(g, s) && p in g.predicates
      requires (|g.Succs(n)| == 1 && g.Succs(n)[0] == m && m != n) ||
               (|g.Succs(n)| > 1 && |At(s, m, n)| == |g.Succs(n)| && p != n)
      modifies this
      ensures Sound(g, s) && Within(old(s), s)
      ensures changed <==> !Within(s, old(s))
      ensures forall k, q :: q != p ==> At(s, k, q) == old(At(s, k, q))
      ensures At(s, n, p) <= At(s, m, p)
    {
      forall t | t in At(s, n, p)
        ensures OnAllPaths(g, t.succ, m)
      {
        SoundStep(g, s, n, m, t.succ);
      }
      changed := InsertAll(Cell(n, p), Cell(m, p));
      assert forall t :: t in At(s, m, p) ==> t in old(At(s, m, p)) || t in old(At(s, n, p));
    }

    method Initialize(g: Graph)
      requires g.Valid() && s == map[]
      modifies this
      ensures Sound(g, s) && Initialized(g, s)
    {
      var todo := g.predicates;
      while todo != {}
        invariant todo <= g.predicates
        invariant Sound(g, s)
        invariant forall p, r :: p in g.predicates - todo && g.Edge(p, r) ==> Has(s, r, p, r)
      {
        var p;
        p, todo := Take(todo);
        InitializePredicate(g, p);
      }
    }

    method InitializePredicate(g: Graph, p: Node)
      requires g.Valid() && p in g.predicates && Sound(g, s)
      modifies this
      ensures Sound(g, s) && Within(old(s), s)
      ensures forall r :: g.Edge(p, r) ==> Has(s, r, p, r)
    {
      for i := 0 to |g.Succs(p)|
        invariant Sound(g, s) && Within(old(s), s)
        invariant forall j :: 0 <= j < i ==> Has(s, g.Succs(p)[j], p, g.Succs(p)[j])
      {
        var n := g.Succs(p)[i];
        assert g.Edge(p, n);
        FirstSymbol(g, s, p, n);
        s := s[Cell(n, p) := At(s, n, p) + {Symbol(p, n)}];
      }
    }

    method Fixpoint(g: Graph)
      requires g.Valid() && Sound(g, s) && Initialized(g, s)
      modifies this
      ensures Sound(g, s) && Initialized(g, s)
      ensures AllSettled(g, s)
    {
      var changed := true;
      while changed
        invariant Sound(g, s) && Initialized(g, s)
        invariant !changed ==> AllSettled(g, s)
        decreases Missing(g, s), changed
      {
        changed := Round(g);
      }
    }

    method Round(g: Graph) returns (changed: bool)
      requires g.Valid() && Sound(g, s) && Initialized(g, s)
      modifies this
      ensures Sound(g, s) && Initialized(g, s)
      ensures !changed ==> Missing(g, s) == old(Missing(g, s)) && AllSettled(g, s)
      ensures changed ==> Missing(g, s) < old(Missing(g, s))
    {
      changed := false;
      for i := 0 to |g.succs|
        invariant Sound(g, s) && Within(old(s), s)
        invariant changed <==> !Within(s, old(s))
        invariant !changed ==> forall m: Node {:trigger Settled(g, s, m)} :: m.pos < i && g.Has(m) ==> Settled(g, s, m)
      {
        ghost var before := s;
        var c := ProcessNode(g, Node(i));
        if !c {
          SameCells(g, before, s);
        }
        changed := changed || c;
      }
      if changed {
        MissingDrops(g, old(s), s);
      } else {
        SameCells(g, old(s), s);
      }
    }

    method Compute(g: Graph) returns (CD: Relation, revCD: Relation)
      requires g.Valid() && s == map[]
      modifies this
      ensures forall n, p :: Holds(CD, n, p) <==> g.Has(n) && Decides(g, p, n)
      ensures Converse(CD, revCD)
    {
      Initialize(g);
      Fixpoint(g);
      CD, revCD := map[], map[];
      for i := 0 to |g.succs|
        invariant Sound(g, s) && Initialized(g, s)
        invariant AllSettled(g, s)
        invariant forall n, p :: Holds(CD, n, p) <==> n.pos < i && Decides(g, p, n)
        invariant Converse(CD, revCD)
      {
        CD, revCD := Record(g, Node(i), CD, revCD);
      }
    }

    method Record(g: Graph, n: Node, CD: Relation, revCD: Relation) returns (CD': Relation, revCD': Relation)
      requires g.Valid() && Sound(g, s) && Initialized(g, s) && Converse(CD, revCD)
      requires AllSettled(g, s)
      ensures forall k, p :: Holds(CD', k, p) <==> Holds(CD, k, p) || (k == n && Decides(g, p, n))
      ensures Converse(CD', revCD')
    {
      ghost var deciding := set p | p in g.predicates && Decides(g, p, n);
      CD', revCD' := CD, revCD;
      var todo := g.predicates;
      while todo != {}
        invariant todo <= g.predicates
        invariant forall k, p :: Holds(CD', k, p) <==> Holds(CD, k, p) || (k == n && p !in todo && p in deciding)
        invariant Converse(CD', revCD')
      {
        var p;
        p, todo := Take(todo);
        var decides := InSomeButNotAll(g, n, p);
        if decides {
          CD' := Insert(CD', n, p);
          revCD' := Insert(revCD', p, n);
        }
      }
    }

    method InSomeButNotAll(g: Graph, n: Node, p: Node) returns (yes: bool)
      requires g.Valid() && Sound(g, s) && Initialized(g, s) && p in g.predicates
      requires AllSettled(g, s)
      ensures yes <==> Decides(g, p, n)
    {
      DecidesBySize(g, s, n, p);
      yes := At(s, n, p) != {} && |At(s, n, p)| < |g.Succs(p)|;
    }
  }
}
