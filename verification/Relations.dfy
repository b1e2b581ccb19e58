/** Maps from a node to a set of nodes, as the analyses build them: a missing key stands
    for the empty set, and inserting creates the key. */
module Relations {
  import opened Graphs

  type Relation = map<Node, set<Node>>

  predicate Holds(r: Relation, n: Node, p: Node) {
    n in r && p in r[n]
  }

  function Insert(r: Relation, n: Node, p: Node): (r': Relation)
    ensures forall m, q :: Holds(r', m, q) <==> Holds(r, m, q) || (m == n && q == p)
  {
    r[n := (if n in r then r[n] else {}) + {p}]
  }

  /** The two results of an analysis mirror each other. */
  ghost predicate Converse(r: Relation, r': Relation) {
    forall n, p :: Holds(r, n, p) <==> Holds(r', p, n)
  }
}
