/** Non-termination sensitive control dependence by colouring backwards from a target,
    one frontier of nodes after the other. */
module FrontierNTSCD {
  import opened Graphs
  import opened Relations

  /** n depends on p: from one successor of p node n cannot be missed, from another it can. */
  ghost predicate Decides(g: Graph, p: Node, n: Node) {
    && p in g.predicates
    && (exists s :: g.Edge(p, s) && OnAllPaths(g, s, n))
    && (exists s :: g.Edge(p, s) && !OnAllPaths(g, s, n))
  }

  /** The identifier of a node is its position plus one, so 0 is no node's colour. */
  function ID(n: Node): int {
    n.pos + 1
  }

  class NTSCD {
    var data: map<Node, int>

    function Color(n: Node): int
      reads this
    {
      if n in data then data[n] else 0
    }

    ghost predicate Colored(n: Node, target: Node)
      reads this
    {
      Color(n) == ID(target)
    }

    ghost function ColoredSet(g: Graph, target: Node): set<Node>
      reads this
    {
      set n | n in g.Nodes() && Colored(n, target)
    }

    constructor ()
      ensures data == map[]
    {
      data := map[];
    }

    /** What the colours mean while the frontier is processed. */
    ghost predicate Coloring(g: Graph, target: Node)
      reads this
    {
      && Colored(target, target)
      && (forall n :: g.Has(n) && Colored(n, target) ==> OnAllPaths(g, n, target))
      && (forall n :: g.Has(n) && Colored(n, target) && n != target ==> AllSuccessorsColored(g, n, target))
    }

    ghost predicate AllSuccessorsColored(g: Graph, n: Node, target: Node)
      requires g.Has(n)
      reads this
    {
      !g.Sink(n) && forall s :: g.Edge(n, s) ==> Colored(s, target)
    }

    /** Every node that still may have to be coloured is waiting. */
    ghost predicate Waiting(g: Graph, target: Node, waiting: set<Node>)
      reads this
    {
      && (forall n :: n in waiting ==> g.Has(n) && n != target && !g.Sink(n))
      && (forall n, s :: g.Edge(n, s) && Colored(s, target) && !Colored(n, target) ==> n in waiting)
    }

    lemma FinalColors(g: Graph, target: Node, frontier: set<Node>)
      requires g.Valid() && g.Has(target) && Coloring(g, target) && Waiting(g, target, frontier)
      requires forall n :: n in frontier ==> !AllSuccessorsColored(g, n, target)
      ensures forall n :: g.Has(n) ==> (Colored(n, target) <==> OnAllPaths(g, n, target))
      ensures forall p :: p in g.predicates && p != target && Decides(g, p, target) ==> p in frontier
    {
      var k := ColoredSet(g, target);
      forall u | Joins(g, {}, k, u)
        ensures u in k
      {
        assert g.Edge(u, g.Succs(u)[0]);
      }
      HitLeast(g, k, {target}, {});
      assert forall n :: g.Has(n) && OnAllPaths(g, n, target) ==> n in HitSet(g, {target}, {});
    }

    /** Colours the nodes that cannot miss the target and records the predicates that decide it. */
    method ComputeTarget(g: Graph, target: Node, CD: Relation, revCD: Relation)
      returns (CD': Relation, revCD': Relation)
      requires g.Valid() && g.Has(target)
      requires forall n :: !Colored(n, target)
      modifies this
      ensures forall n :: g.Has(n) ==> (Colored(n, target) <==> OnAllPaths(g, n, target))
      ensures forall n :: Colored(n, target) || Color(n) == old(Color(n))
      ensures forall n, p :: Holds(CD', n, p) <==>
                Holds(CD, n, p) || (n == target && p != target && Decides(g, p, target))
      ensures forall n, p :: Holds(revCD', p, n) <==>
                Holds(revCD, p, n) || (n == target && p != target && Decides(g, p, target))
    {
      var frontier := Start(g, target);
      var progress := true;
      while progress
        invariant Coloring(g, target) && Waiting(g, target, frontier)
        invariant forall n :: Colored(n, target) || Color(n) == old(Color(n))
        invariant !progress ==> forall n :: n in frontier ==> !AllSuccessorsColored(g, n, target)
        decreases g.Nodes() - ColoredSet(g, target), frontier * ColoredSet(g, target), progress
      {
        progress, frontier := ProcessFrontier(g, target, frontier);
      }

      FinalColors(g, target, frontier);
      CD', revCD' := Record(g, target, frontier, CD, revCD);
    }

    method Start(g: Graph, target: Node) returns (frontier: set<Node>)
      requires g.Valid() && g.Has(target)
      requires forall n :: !Colored(n, target)
      modifies this
      ensures Coloring(g, target) && Waiting(g, target, frontier)
      ensures forall n :: Colored(n, target) || Color(n) == old(Color(n))
    {
      assert forall n :: n in data ==> !Colored(n, target) && data[n] != ID(target);
      data := data[target := ID(target)];
      HitLocal(g, target, {target}, {});
      assert forall n :: Colored(n, target) ==> n == target;
      frontier := {};
      for i := 0 to |g.Preds(target)|
        invariant data == old(data)[target := ID(target)]
        invariant forall n :: n in frontier ==> g.Edge(n, target) && n != target
        invariant forall n :: n in g.Preds(target)[..i] && !Colored(n, target) ==> n in frontier
      {
        var pred := g.Preds(target)[i];
        if Color(pred) != ID(target) {
          frontier := frontier + {pred};
        }
      }
      assert g.Preds(target)[..|g.Preds(target)|] == g.Preds(target);
    }

    /** Only predicates in the last frontier can have successors of both kinds. */
    method Record(g: Graph, target: Node, frontier: set<Node>, CD: Relation, revCD: Relation)
      returns (CD': Relation, revCD': Relation)
      requires g.Valid() && g.Has(target)
      requires forall n :: n in frontier ==> g.Has(n) && n != target
      requires forall n :: g.Has(n) ==> (Colored(n, target) <==> OnAllPaths(g, n, target))
      requires forall p :: p in g.predicates && p != target && Decides(g, p, target) ==> p in frontier
      ensures forall n, p :: Holds(CD', n, p) <==>
                Holds(CD, n, p) || (n == target && p != target && Decides(g, p, target))
      ensures forall n, p :: Holds(revCD', p, n) <==>
                Holds(revCD, p, n) || (n == target && p != target && Decides(g, p, target))
    {
      CD', revCD' := CD, revCD;
      var todo := frontier;
      while todo != {}
        invariant todo <= frontier
        invariant forall n, p :: Holds(CD', n, p) <==>
                    Holds(CD, n, p) || (n == target && p in frontier - todo && Decides(g, p, target))
        invariant forall n, p :: Holds(revCD', p, n) <==>
                    Holds(revCD, p, n) || (n == target && p in frontier - todo && Decides(g, p, target))
      {
        var pr;
        pr, todo := Take(todo);
        if pr in g.predicates {
          var hasColored, hasUncolored := SuccessorColors(g, pr, target);
          if hasColored && hasUncolored {
            CD' := Insert(CD', target, pr);
            revCD' := Insert(revCD', pr, target);
          }
        }
      }
    }

    /** One round: colour the waiting nodes whose successors are all coloured. */
    method ProcessFrontier(g: Graph, target: Node, frontier: set<Node>) returns (progress: bool, newFrontier: set<Node>)
      requires g.Valid() && g.Has(target) && Coloring(g, target) && Waiting(g, target, frontier)
      modifies this
      ensures Coloring(g, target) && Waiting(g, target, newFrontier)
      ensures forall n :: Colored(n, target) || Color(n) == old(Color(n))
      ensures old(ColoredSet(g, target)) <= ColoredSet(g, target)
      ensures progress && ColoredSet(g, target) == old(ColoredSet(g, target)) ==>
                newFrontier * ColoredSet(g, target) == {} && frontier * ColoredSet(g, target) != {}
      ensures !progress ==> ColoredSet(g, target) == old(ColoredSet(g, target)) && newFrontier == frontier &&
                            forall n :: n in frontier ==> !AllSuccessorsColored(g, n, target)
    {
      progress, newFrontier := false, {};
      var todo := frontier;
      ghost var before, grew := ColoredSet(g, target), false;
      while todo != {}
        invariant todo <= frontier
        invariant Coloring(g, target) && Waiting(g, target, todo + newFrontier)
        invariant forall n :: Colored(n, target) || Color(n) == old(Color(n))
        invariant before <= ColoredSet(g, target)
        invariant grew <==> before != ColoredSet(g, target)
        invariant !grew ==> newFrontier !! before
        invariant progress && !grew ==> exists n :: n in frontier && n in before
        invariant !progress ==> !grew && newFrontier == frontier - todo
        invariant !progress ==> forall n :: n in newFrontier ==> !AllSuccessorsColored(g, n, target)
      {
        var nd;
        nd, todo := Take(todo);
        ghost var now := ColoredSet(g, target);
        var colored;
        colored, newFrontier := ProcessNode(g, nd, target, todo, newFrontier);
        progress := progress || colored;
        grew := grew || now != ColoredSet(g, target);
      }
    }

    method ProcessNode(g: Graph, nd: Node, target: Node, ghost todo: set<Node>, newFrontier: set<Node>)
      returns (colorit: bool, newFrontier': set<Node>)
      requires g.Valid() && g.Has(nd) && g.Has(target) && nd != target && !g.Sink(nd) && nd !in todo
      requires Coloring(g, target) && Waiting(g, target, {nd} + todo + newFrontier)
      modifies this
      ensures Coloring(g, target) && Waiting(g, target, todo + newFrontier')
      ensures forall n :: Colored(n, target) || Color(n) == old(Color(n))
      ensures colorit ==> ColoredSet(g, target) == old(ColoredSet(g, target)) + {nd}
      ensures colorit ==> forall n :: n in newFrontier' ==> n in newFrontier || !Colored(n, target)
      ensures !colorit ==> data == old(data) && newFrontier' == newFrontier + {nd}
      ensures !colorit ==> !AllSuccessorsColored(g, nd, target) && !Colored(nd, target)
    {
      colorit := AllColored(g, nd, target);
      if colorit {
        newFrontier' := ColorAndEnqueue(g, nd, target, todo, newFrontier);
      } else {
        newFrontier' := newFrontier + {nd};
      }
    }

    method AllColored(g: Graph, nd: Node, target: Node) returns (colorit: bool)
      requires g.Valid() && g.Has(nd)
      ensures colorit <==> forall s :: g.Edge(nd, s) ==> Colored(s, target)
    {
      colorit := true;
      for i := 0 to |g.Succs(nd)|
        invariant colorit
        invariant forall s :: s in g.Succs(nd)[..i] ==> Colored(s, target)
      {
        if Color(g.Succs(nd)[i]) != ID(target) {
          colorit := false;
          assert g.Edge(nd, g.Succs(nd)[i]);
          break;
        }
      }
    }

    method ColorAndEnqueue(g: Graph, nd: Node, target: Node, ghost todo: set<Node>, newFrontier: set<Node>)
      returns (newFrontier': set<Node>)
      requires g.Valid() && g.Has(nd) && g.Has(target) && nd != target && nd !in todo
      requires Coloring(g, target) && Waiting(g, target, {nd} + todo + newFrontier)
      requires AllSuccessorsColored(g, nd, target)
      modifies this
      ensures data == old(data)[nd := ID(target)]
      ensures Coloring(g, target) && Waiting(g, target, todo + newFrontier')
      ensures forall n :: n in newFrontier' ==> n in newFrontier || !Colored(n, target)
    {
      HitLocal(g, nd, {target}, {});
      data := data[nd := ID(target)];
      newFrontier' := newFrontier;
      for i := 0 to |g.Preds(nd)|
        invariant data == old(data)[nd := ID(target)]
        invariant forall n :: n in newFrontier' ==> n in newFrontier || (g.Edge(n, nd) && !Colored(n, target))
        invariant newFrontier <= newFrontier'
        invariant forall n :: n in g.Preds(nd)[..i] && !Colored(n, target) ==> n in newFrontier'
      {
        var pred := g.Preds(nd)[i];
        if Color(pred) != ID(target) {
          newFrontier' := newFrontier' + {pred};
        }
      }
    }

    method SuccessorColors(g: Graph, p: Node, target: Node) returns (hasColored: bool, hasUncolored: bool)
      requires g.Valid() && g.Has(p)
      ensures hasColored <==> exists s :: g.Edge(p, s) && Colored(s, target)
      ensures hasUncolored <==> exists s :: g.Edge(p, s) && !Colored(s, target)
    {
      hasColored, hasUncolored := false, false;
      for i := 0 to |g.Succs(p)|
        invariant hasColored ==> exists s :: g.Edge(p, s) && Colored(s, target)
        invariant hasUncolored ==> exists s :: g.Edge(p, s) && !Colored(s, target)
        invariant forall s :: s in g.Succs(p)[..i] ==> if Colored(s, target) then hasColored else hasUncolored
      {
        assert g.Edge(p, g.Succs(p)[i]);
        if Color(g.Succs(p)[i]) == ID(target) {
          hasColored := true;
        }
        if Color(g.Succs(p)[i]) != ID(target) {
          hasUncolored := true;
        }
      }
    }

    /** On a fresh object: exactly the deciding predicates, never a node itself. */
    method Compute(g: Graph) returns (CD: Relation, revCD: Relation)
      requires g.Valid() && data == map[]
      modifies this
      ensures forall n, p :: Holds(CD, n, p) <==> g.Has(n) && p != n && Decides(g, p, n)
      ensures Converse(CD, revCD)
    {
      CD, revCD := map[], map[];
      for i := 0 to |g.succs|
        invariant forall n :: 0 <= Color(n) <= i
        invariant forall n, p :: Holds(CD, n, p) <==> n.pos < i && p != n && Decides(g, p, n)
        invariant Converse(CD, revCD)
      {
        CD, revCD := ComputeTarget(g, Node(i), CD, revCD);
      }
    }
  }
}
