/** A LIFO queue in which each node can be queued only once. */
module SetQueues {
  import opened Graphs

  class SetQueue {
    var queued: set<Node>
    var queue: seq<Node>

    ghost predicate Valid()
      reads this
    {
      Distinct(queue) && forall x :: x in queue ==> x in queued
    }

    constructor ()
      ensures Valid() && queued == {} && queue == []
    {
      queued, queue := {}, [];
    }

    method Push(what: Node)
      requires Valid()
      modifies this
      ensures Valid() && queued == old(queued) + {what}
      ensures queue == if what in old(queued) then old(queue) else old(queue) + [what]
    {
      if what !in queued {
        queued := queued + {what};
        queue := queue + [what];
      }
    }

    method Pop() returns (what: Node)
      requires Valid() && queue != []
      modifies this
      ensures Valid() && queued == old(queued)
      ensures old(queue) == queue + [what] && what !in queue
    {
      what := queue[|queue| - 1];
      queue := queue[..|queue| - 1];
    }

    /** Queues the successors that have never been queued. */
    method PushSuccessors(g: Graph, u: Node)
      requires Valid() && g.Valid() && g.Has(u)
      modifies this
      ensures Valid() && old(queued) <= queued
      ensures forall x :: x in queued <==> x in old(queued) || g.Edge(u, x)
      ensures forall x :: x in queue <==> x in old(queue) || (x in queued && x !in old(queued))
      ensures queued == old(queued) ==> queue == old(queue)
    {
      for i := 0 to |g.Succs(u)|
        invariant Valid() && old(queued) <= queued
        invariant forall x :: x in queued ==> x in old(queued) || g.Edge(u, x)
        invariant forall j :: 0 <= j < i ==> g.Succs(u)[j] in queued
        invariant forall x :: x in queue <==> x in old(queue) || (x in queued && x !in old(queued))
        invariant queued == old(queued) ==> queue == old(queue)
      {
        Push(g.Succs(u)[i]);
      }
    }
  }
}
