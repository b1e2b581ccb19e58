/** Points-to sets, where a pointer with unknown offset stands for all pointers to its target. */
module PointsToSets {
  import opened Graphs
  import opened Offsets

  datatype Pointer = Pointer(target: Node, offset: Offset)

  type PointsTo = set<Pointer>

  function Anywhere(target: Node): Pointer {
    Pointer(target, UNKNOWN)
  }

  /** Adding one pointer: it is not needed if the unknown offset is there, and the unknown offset makes
      the others superfluous. Uniting two sets, in contrast, keeps all pointers. */
  function AddPointer(s: PointsTo, p: Pointer): PointsTo {
    if Anywhere(p.target) in s then s
    else if p.offset == UNKNOWN then (set x | x in s && x.target != p.target) + {p}
    else s + {p}
  }

  ghost predicate Covers(s: PointsTo, p: Pointer) {
    p in s || Anywhere(p.target) in s
  }

  ghost predicate CoversAll(s: PointsTo, t: PointsTo) {
    forall p :: p in t ==> Covers(s, p)
  }

  lemma AddPointerCovers(s: PointsTo, p: Pointer)
    ensures Covers(AddPointer(s, p), p) && AddPointer(s, p) <= s + {p}
    ensures forall q :: Covers(s, q) ==> Covers(AddPointer(s, p), q)
  {
  }

  /** No pointer to a target beside the one with the unknown offset. */
  ghost predicate Normal(s: PointsTo) {
    forall p, q {:trigger p in s, q in s} :: p in s && q in s && p.target == q.target && p.offset == UNKNOWN ==> q == p
  }

  /** Exactly the pointers that were covered and the new one are covered, or all to its target if its offset is
      unknown, and no pointer stays that is not needed. */
  lemma AddPointerIsExact(s: PointsTo, p: Pointer, q: Pointer)
    ensures Covers(AddPointer(s, p), q) <==>
      Covers(s, q) || q == p || (p.offset == UNKNOWN && q.target == p.target)
    ensures Normal(s) ==> Normal(AddPointer(s, p))
  {
  }

  // ---------------------------------------------------------------------------
  // How sets grow

  /** What can be true of a set and stays true: a pointer is covered, or it is kept beside the unknown offset. */
  datatype Mark = Covered(pointer: Pointer) | Kept(pointer: Pointer)

  ghost predicate HasMark(s: PointsTo, m: Mark) {
    match m
    case Covered(p) => Covers(s, p)
    case Kept(p) => p in s && Anywhere(p.target) in s
  }

  /** t has all marks of s and, if they are not the same set, one more, which is about a pointer of t. */
  ghost predicate Grown(s: PointsTo, t: PointsTo) {
    && (forall m :: HasMark(s, m) ==> HasMark(t, m))
    && (s != t ==> exists m :: HasMark(t, m) && !HasMark(s, m) && m.pointer in t)
  }

  lemma {:induction false} AddPointerGrows(s: PointsTo, p: Pointer)
    ensures Grown(s, AddPointer(s, p))
  {
    if Anywhere(p.target) !in s && p !in s {
      assert HasMark(AddPointer(s, p), Covered(p)) && !HasMark(s, Covered(p));
    }
  }

  lemma {:induction false} UnionGrows(s: PointsTo, t: PointsTo)
    ensures Grown(s, s + t)
  {
    if s != s + t {
      var x :| x in t && x !in s;
      if Anywhere(x.target) in s {
        assert HasMark(s + t, Kept(x)) && !HasMark(s, Kept(x));
      } else {
        assert HasMark(s + t, Covered(x)) && !HasMark(s, Covered(x));
      }
    }
  }

  lemma Peel<T>(all: set<T>, left: set<T>, x: T)
    requires x in left && left <= all
    ensures all - (left - {x}) == all - left + {x}
    ensures |left - {x}| < |left|
  {
  }
}
