/** Local value numbering: folding the nodes of a block into its definitions. */
module LocalNumbering {
  import opened IntervalMaps
  import opened BlockDefinitions

  /** The definitions of a byte after a list of nodes. */
  ghost function LastWriters(list: seq<Access>, t: RWNode, b: int): set<RWNode> {
    if list == [] then {}
    else var last := list[|list| - 1]; After(last, last.node, LastWriters(list[..|list| - 1], t, b), t, b)
  }

  ghost predicate Killed(list: seq<Access>, t: RWNode, b: int) {
    exists k :: 0 <= k < |list| && Strong(list[k], t, b)
  }

  ghost predicate NotOverwritten(list: seq<Access>, k: nat, t: RWNode, b: int) {
    forall j :: k < j < |list| ==> !Strong(list[j], t, b)
  }

  /** The node at k leaves itself as a definition: it writes the byte, or it writes unknown memory when
      the byte has some definition already. */
  ghost predicate Leaves(list: seq<Access>, k: nat, t: RWNode, b: int)
    requires k < |list|
  {
    Writes(list[k], t, b) || (Wild(list[k]) && LastWriters(list[..k], t, b) != {})
  }

  /** A definition that lasts to the end of the list. */
  ghost predicate Lasts(list: seq<Access>, k: nat, t: RWNode, b: int) {
    k < |list| && Leaves(list, k, t, b) && NotOverwritten(list, k, t, b)
  }

  ghost predicate Tame(list: seq<Access>) {
    forall k :: 0 <= k < |list| ==> !Wild(list[k])
  }

  lemma {:induction false} LastsPrefix(list: seq<Access>, k: nat, t: RWNode, b: int)
    requires k + 1 < |list|
    ensures Lasts(list, k, t, b) <==> Lasts(list[..|list| - 1], k, t, b) && !Strong(list[|list| - 1], t, b)
  {
    var front := list[..|list| - 1];
    assert front[..k] == list[..k] && front[k] == list[k];
    assert forall j :: 0 <= j < |front| ==> front[j] == list[j];
  }

  /** The definitions of a byte are the last node that certainly wrote it and the nodes that wrote it later. */
  lemma {:induction false} LastWritersAre(list: seq<Access>, t: RWNode, b: int, n: RWNode)
    ensures n in LastWriters(list, t, b) <==> exists k: nat :: Lasts(list, k, t, b) && list[k].node == n
  {
    if list != [] {
      var front, last := list[..|list| - 1], |list| - 1;
      LastWritersAre(front, t, b, n);
      if n in LastWriters(list, t, b) {
        assert NotOverwritten(list, last, t, b);
        if n == list[last].node && Leaves(list, last, t, b) {
          assert Lasts(list, last, t, b);
        } else {
          assert !Strong(list[last], t, b) && n in LastWriters(front, t, b);
          var k: nat :| Lasts(front, k, t, b) && front[k].node == n;
          LastsPrefix(list, k, t, b);
        }
      }
      if k: nat :| Lasts(list, k, t, b) && list[k].node == n {
        if k == last {
          assert list[..k] == front;
        } else {
          LastsPrefix(list, k, t, b);
          assert Lasts(front, k, t, b) && front[k].node == n;
        }
      }
    }
  }

  /** Where unknown memory is not written, these are the writes that no later certain write hides. */
  lemma {:induction false} TameWritersAre(list: seq<Access>, t: RWNode, b: int, n: RWNode)
    requires Tame(list)
    ensures n in LastWriters(list, t, b) <==>
      exists k: nat :: k < |list| && Writes(list[k], t, b) && NotOverwritten(list, k, t, b) && list[k].node == n
  {
    LastWritersAre(list, t, b, n);
    if k: nat :| k < |list| && Writes(list[k], t, b) && NotOverwritten(list, k, t, b) && list[k].node == n {
      assert Lasts(list, k, t, b);
    }
  }

  /** What a query for one byte answers: the definitions or else all writes to unknown memory. */
  ghost predicate Found(list: seq<Access>, t: RWNode, b: int, n: RWNode) {
    if LastWriters(list, t, b) != {} then n in LastWriters(list, t, b)
    else exists k :: 0 <= k < |list| && Wild(list[k]) && list[k].node == n
  }

  /** A write to unknown memory may change any byte, but it is found for a byte just when the byte had
      a definition before it or has none after it either. */
  lemma {:induction false} UnknownWriteIsFound(list: seq<Access>, k: nat, t: RWNode, b: int)
    requires k < |list| && Wild(list[k]) && !Writes(list[k], t, b) && NotOverwritten(list, k, t, b)
    requires forall j :: 0 <= j < |list| && j != k ==> list[j].node != list[k].node
    ensures Found(list, t, b, list[k].node) <==> LastWriters(list[..k], t, b) != {} || LastWriters(list, t, b) == {}
  {
    LastWritersAre(list, t, b, list[k].node);
    assert Lasts(list, k, t, b) <==> LastWriters(list[..k], t, b) != {};
  }

  method PerformLvn(list: seq<Access>, D: Definitions)
    requires D.definitions == map[] && D.kills == map[] && D.unknownWrites == [] && !D.processed
    requires forall k :: 0 <= k < |list| ==> SaneAccess(list[k])
    modifies D
    ensures D.Valid() && D.processed
    ensures Numbered(list, D.definitions, D.kills)
    ensures forall n :: n in D.unknownWrites <==> exists k :: 0 <= k < |list| && Wild(list[k]) && list[k].node == n
  {
    NumberedNothing();
    for k := 0 to |list|
      invariant D.Valid() && Numbered(list[..k], D.definitions, D.kills)
      invariant forall n :: n in D.unknownWrites <==> exists j :: 0 <= j < k && Wild(list[j]) && list[j].node == n
    {
      ghost var definitions, kills := D.definitions, D.kills;
      D.Update(list[k], list[k].node);
      NumberedMore(list[..k], list[k], definitions, kills, D.definitions, D.kills);
      assert list[..k + 1] == list[..k] + [list[k]];
    }
    assert list[..|list|] == list;
    D.processed := true;
  }

  /** What is in the two maps after local value numbering. */
  ghost predicate Numbered(list: seq<Access>, definitions: Defs, kills: Defs) {
    && (forall t, b {:trigger DefsAt(definitions, t, b)} :: DefsAt(definitions, t, b) == LastWriters(list, t, b))
    && (forall t, b {:trigger DefsAt(kills, t, b)} :: DefsAt(kills, t, b) != {} <==> Killed(list, t, b))
  }

  lemma NumberedNothing()
    ensures Numbered([], map[], map[])
  {
  }

  lemma {:induction false} NumberedMore(list: seq<Access>, a: Access, definitions: Defs, kills: Defs,
      definitions': Defs, kills': Defs)
    requires Numbered(list, definitions, kills) && OverwritesDone(kills, kills', a.overwrites, a.node, false)
    requires forall t, b {:trigger DefsAt(definitions', t, b)} ::
      DefsAt(definitions', t, b) == After(a, a.node, DefsAt(definitions, t, b), t, b)
    ensures Numbered(list + [a], definitions', kills')
  {
    var all := list + [a];
    assert all[..|all| - 1] == list && all[|list|] == a;
    forall t, b
      ensures Killed(all, t, b) <==> Killed(list, t, b) || Strong(a, t, b)
    {
      if k :| 0 <= k < |list| && Strong(list[k], t, b) {
        assert all[k] == list[k];
      }
      if Strong(a, t, b) {
        assert Strong(all[|list|], t, b);
      }
    }
    forall t, b
      ensures DefsAt(kills', t, b) != {} <==> DefsAt(kills, t, b) != {} || Strong(a, t, b)
    {
      assert DefsAt(kills', t, b) == Written(DefsAt(kills, t, b), Strong(a, t, b), a.node, false);
    }
  }

  // ---------------------------------------------------------------------------
  // Lists put together

  lemma {:induction false} LastWritersOfEnd(front: seq<Access>, list: seq<Access>, t: RWNode, b: int)
    requires Tame(list)
    ensures LastWriters(list, t, b) <= LastWriters(front + list, t, b)
  {
    forall n | n in LastWriters(list, t, b)
      ensures n in LastWriters(front + list, t, b)
    {
      LastWritersAre(list, t, b, n);
      LastWritersAre(front + list, t, b, n);
      var k: nat :| Lasts(list, k, t, b) && list[k].node == n;
      assert forall j :: 0 <= j < |list| ==> (front + list)[|front| + j] == list[j];
      assert forall j :: |front| + k < j < |front + list| ==> (front + list)[j] == list[j - |front|];
      assert Lasts(front + list, |front| + k, t, b);
    }
  }

  lemma {:induction false} LastWritersOfFront(front: seq<Access>, list: seq<Access>, t: RWNode, b: int)
    requires !Killed(list, t, b)
    ensures LastWriters(front, t, b) <= LastWriters(front + list, t, b)
  {
    forall n | n in LastWriters(front, t, b)
      ensures n in LastWriters(front + list, t, b)
    {
      LastWritersAre(front, t, b, n);
      LastWritersAre(front + list, t, b, n);
      var k: nat :| Lasts(front, k, t, b) && front[k].node == n;
      assert (front + list)[..k] == front[..k] && (front + list)[k] == front[k];
      assert forall j :: k < j < |front + list| ==> (front + list)[j] == if j < |front| then front[j]
          else list[j - |front|];
      assert Lasts(front + list, k, t, b);
    }
  }

  /** Which part of two lists a lasting definition is made in. */
  lemma {:induction false} LastsInParts(front: seq<Access>, list: seq<Access>, k: nat, t: RWNode, b: int)
    requires Lasts(front + list, k, t, b)
    ensures k < |front| ==> (Writes(front[k], t, b) || Wild(front[k])) && !Killed(list, t, b)
    ensures k >= |front| ==>
      k - |front| < |list| && (Writes(list[k - |front|], t, b) || Wild(list[k - |front|])) &&
      NotOverwritten(list, k - |front|, t, b)
  {
    assert forall j :: 0 <= j < |list| ==> (front + list)[|front| + j] == list[j];
  }

  lemma {:induction false} KilledInParts(front: seq<Access>, list: seq<Access>, t: RWNode, b: int)
    ensures Killed(front + list, t, b) <==> Killed(front, t, b) || Killed(list, t, b)
  {
    if k :| 0 <= k < |front| && Strong(front[k], t, b) {
      assert (front + list)[k] == front[k];
    }
    if k :| 0 <= k < |list| && Strong(list[k], t, b) {
      assert (front + list)[|front| + k] == list[k];
    }
  }

  /** The last node that overwrites a byte is one of its definitions. */
  lemma {:induction false} LastKillerIsWriter(list: seq<Access>, t: RWNode, b: int) returns (k: nat)
    requires Killed(list, t, b)
    ensures k < |list| && Strong(list[k], t, b) && list[k].node in LastWriters(list, t, b)
  {
    var last := |list| - 1;
    if Strong(list[last], t, b) {
      k := last;
    } else {
      var j :| 0 <= j < |list| && Strong(list[j], t, b);
      assert list[..last][j] == list[j];
      k := LastKillerIsWriter(list[..last], t, b);
    }
  }
}
