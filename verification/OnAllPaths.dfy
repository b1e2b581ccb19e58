/** The depth-first test whether a node lies on all maximal paths. Branches share their
    visited nodes, and any node found on the stack ends the search with a negative answer. */
module DepthFirstCheck {
  import opened Graphs

  /** The nodes from the start of the search to the current one. */
  ghost predicate IsStack(g: Graph, stack: seq<Node>, onstack: set<Node>) {
    && stack != []
    && (forall x :: x in onstack <==> x in stack)
    && (forall i :: 0 <= i < |stack| ==> g.Has(stack[i]))
    && (forall i :: 0 <= i < |stack| - 1 ==> g.Edge(stack[i], stack[i + 1]))
  }

  /** A stack without the target whose last node is a sink or leads back onto the stack. */
  lemma {:induction false} StackAvoids(g: Graph, stack: seq<Node>, onstack: set<Node>, target: Node)
    requires IsStack(g, stack, onstack) && target !in stack
    requires g.Sink(stack[|stack| - 1]) || exists s :: g.Edge(stack[|stack| - 1], s) && s in onstack
    ensures !OnAllPaths(g, stack[0], target)
  {
    var a := set i | 0 <= i < |stack| :: stack[i];
    forall u | u in a
      ensures CanStay(g, a, {}, u)
    {
      var i :| 0 <= i < |stack| && stack[i] == u;
      if i < |stack| - 1 {
        assert stack[i + 1] in a && g.Edge(u, stack[i + 1]);
      }
    }
    assert Avoiding(g, a, {target}, {}) && stack[0] in a;
  }

  class Search {
    var onstack: set<Node>
    var visited: set<Node>

    constructor ()
      ensures onstack == visited == {}
    {
      onstack, visited := {}, {};
    }

    /** A visited node that is not on the stack cannot miss the target. */
    ghost predicate Finished(g: Graph, target: Node, stacked: set<Node>)
      reads this
    {
      visited <= g.Nodes() && forall x :: x in visited && x !in stacked ==> OnAllPaths(g, x, target)
    }

    method Visit(g: Graph, node: Node, target: Node, ghost stack: seq<Node>) returns (r: bool)
      requires g.Valid() && g.Has(target)
      requires IsStack(g, stack, onstack) && stack[|stack| - 1] == node
      requires node !in stack[..|stack| - 1] && target !in stack[..|stack| - 1]
      requires node !in visited && Finished(g, target, onstack)
      modifies this
      ensures r ==> OnAllPaths(g, node, target) && onstack == old(onstack) && Finished(g, target, onstack - {node})
      ensures r ==> old(visited) <= visited
      ensures !r ==> !OnAllPaths(g, stack[0], target)
      decreases g.Nodes() - visited, 0
    {
      if node == target {
        HitLocal(g, node, {target}, {});
        return true;
      }
      visited := visited + {node};
      if g.Sink(node) {
        StackAvoids(g, stack, onstack, target);
        return false;
      }
      for i := 0 to |g.Succs(node)|
        invariant onstack == old(onstack) && node in visited && old(visited) <= visited
        invariant Finished(g, target, onstack)
        invariant forall j :: 0 <= j < i ==> OnAllPaths(g, g.Succs(node)[j], target)
      {
        var all := VisitSuccessor(g, node, g.Succs(node)[i], target, stack);
        if !all {
          return false;
        }
      }
      HitLocal(g, node, {target}, {});
      r := true;
    }

    method VisitSuccessor(g: Graph, node: Node, s: Node, target: Node, ghost stack: seq<Node>) returns (r: bool)
      requires g.Valid() && g.Has(target) && g.Has(node) && s in g.Succs(node) && node in visited
      requires IsStack(g, stack, onstack) && stack[|stack| - 1] == node && target !in stack
      requires Finished(g, target, onstack)
      modifies this
      ensures r ==> OnAllPaths(g, s, target) && onstack == old(onstack) && Finished(g, target, onstack)
      ensures r ==> old(visited) <= visited
      ensures !r ==> !OnAllPaths(g, stack[0], target)
      decreases g.Nodes() - visited, 1
    {
      assert g.Edge(node, s);
      if s in onstack {
        StackAvoids(g, stack, onstack, target);
        return false;
      }
      r := true;
      if s !in visited {
        onstack := onstack + {s};
        assert (stack + [s])[..|stack|] == stack && (stack + [s])[0] == stack[0];
        r := Visit(g, s, target, stack + [s]);
        if r {
          onstack := onstack - {s};
        }
      }
    }

    /** `n` lies on every maximal path from `from`. */
    method Check(g: Graph, from: Node, n: Node) returns (r: bool)
      requires g.Valid() && g.Has(from) && g.Has(n) && onstack == visited == {}
      modifies this
      ensures r <==> OnAllPaths(g, from, n)
    {
      if from == n {
        HitLocal(g, from, {n}, {});
        return true;
      }
      onstack := onstack + {from};
      r := Visit(g, from, n, [from]);
    }
  }
}
