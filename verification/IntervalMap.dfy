/** Maps from disjoint intervals of bytes to sets of values. The byte map that such a map
    stands for is what its operations are specified by. */
module IntervalMaps {
  import opened Offsets

  datatype Interval = Interval(start: Offset, end: Offset) {
    predicate Has(b: int) {
      start <= b <= end
    }

    /** As in the program: true also of an interval that ends before the other one starts. */
    predicate Overlaps(other: Interval) {
      (start <= other.start && end >= other.start) || other.end >= start
    }
  }

  datatype Entry<V> = Entry(key: Interval, values: set<V>)

  // ---------------------------------------------------------------------------
  // What a map stands for

  /** The keys are in order and disjoint, the values not empty. */
  ghost predicate Sorted<V>(m: seq<Entry<V>>) {
    && (forall i {:trigger m[i]} :: 0 <= i < |m| ==> m[i].key.start <= m[i].key.end && m[i].values != {})
    && (forall i, j {:trigger m[i], m[j]} :: 0 <= i < j < |m| ==> m[i].key.end < m[j].key.start)
  }

  ghost function At<V>(m: seq<Entry<V>>, b: int): set<V> {
    if m == [] then {} else if m[0].key.Has(b) then m[0].values else At(m[1..], b)
  }

  lemma {:induction false} AtIndex<V>(m: seq<Entry<V>>, i: nat, b: int)
    requires Sorted(m) && i < |m| && m[i].key.Has(b)
    ensures At(m, b) == m[i].values
  {
    if i > 0 {
      assert !m[0].key.Has(b);
      AtIndex(m[1..], i - 1, b);
    }
  }

  lemma {:induction false} AtNowhere<V>(m: seq<Entry<V>>, b: int)
    requires forall i :: 0 <= i < |m| ==> !m[i].key.Has(b)
    ensures At(m, b) == {}
  {
    if m != [] {
      AtNowhere(m[1..], b);
    }
  }

  lemma {:induction false} AtSomewhere<V>(m: seq<Entry<V>>, b: int) returns (i: nat)
    requires At(m, b) != {}
    ensures i < |m| && m[i].key.Has(b) && At(m, b) == m[i].values
  {
    if m[0].key.Has(b) {
      i := 0;
    } else {
      i := AtSomewhere(m[1..], b);
      i := i + 1;
    }
  }

  lemma {:induction false} AtConcat<V>(m: seq<Entry<V>>, n: seq<Entry<V>>, b: int)
    requires forall i :: 0 <= i < |m| ==> m[i].values != {}
    ensures At(m + n, b) == if At(m, b) != {} then At(m, b) else At(n, b)
  {
    if m == [] {
      assert m + n == n;
    } else {
      assert (m + n)[1..] == m[1..] + n;
      AtConcat(m[1..], n, b);
    }
  }

  /** Subtracting one from the unknown offset saturates. For a write, this must not be needed: neither to split an
      entry in front of the interval, nor to fill a gap in front of an entry. */
  ghost predicate Works<V>(m: seq<Entry<V>>, i: Interval) {
    && i.start <= i.end
    && (i.end == UNKNOWN ==> if i.start == UNKNOWN then Cut(m, UNKNOWN) else ReachesTop(m) ==> At(m, UNKNOWN - 1) != {})
  }

  /** Some entry begins at the unknown offset. */
  ghost predicate ReachesTop<V>(m: seq<Entry<V>>) {
    exists i :: 0 <= i < |m| && m[i].key.start == UNKNOWN
  }

  /** No key begins or ends between the last known offset and the unknown one. Maps of this kind work for all
      intervals of this kind, and stay so. */
  ghost predicate Clean<V>(m: seq<Entry<V>>) {
    forall i {:trigger m[i]} :: 0 <= i < |m| ==> m[i].key.start < UNKNOWN && m[i].key.end != UNKNOWN - 1
  }

  ghost predicate Fits(i: Interval) {
    i.start <= i.end && i.start < UNKNOWN && i.end != UNKNOWN - 1
  }

  ghost predicate SameBytes<V>(m: seq<Entry<V>>, n: seq<Entry<V>>) {
    forall b {:trigger At(m, b)} {:trigger At(n, b)} :: At(m, b) == At(n, b)
  }

  // ---------------------------------------------------------------------------
  // Splitting one entry

  function Halves<V>(e: Entry<V>, where: Offset): seq<Entry<V>>
    requires where < e.key.end
  {
    [Entry(Interval(e.key.start, where), e.values), Entry(Interval(Plus(where, 1), e.key.end), e.values)]
  }

  lemma {:induction false} HalvesAt<V>(e: Entry<V>, where: Offset, rest: seq<Entry<V>>, b: int)
    requires e.key.start <= where < e.key.end
    ensures At(Halves(e, where) + rest, b) == At([e] + rest, b)
  {
    var m := Halves(e, where) + rest;
    assert m[1..] == [m[1]] + rest && m[1..][1..] == rest;
    assert ([e] + rest)[1..] == rest;
  }

  lemma {:induction false} SplitKeepsBytes<V>(p: seq<Entry<V>>, e: Entry<V>, r: seq<Entry<V>>, where: Offset, b: int)
    requires e.key.start <= where < e.key.end && forall k :: 0 <= k < |p| ==> p[k].values != {}
    ensures At(p + Halves(e, where) + r, b) == At(p + [e] + r, b)
  {
    HalvesAt(e, where, r, b);
    AtConcat(p, Halves(e, where) + r, b);
    AtConcat(p, [e] + r, b);
    assert p + Halves(e, where) + r == p + (Halves(e, where) + r);
    assert p + [e] + r == p + ([e] + r);
  }

  /** The entry of the unsplit map that an entry comes from. */
  function Origin(i: nat, k: nat): nat {
    if k <= i then k else k - 1
  }

  lemma {:induction false} SplitEntries<V>(m: seq<Entry<V>>, n: seq<Entry<V>>, i: nat, where: Offset, k: nat)
    requires i < |m| && m[i].key.start <= where < m[i].key.end
    requires n == m[..i] + Halves(m[i], where) + m[i + 1..] && k < |n|
    ensures Origin(i, k) < |m| && n[k].values == m[Origin(i, k)].values
    ensures n[k].key.start == if k == i + 1 then where + 1 else m[Origin(i, k)].key.start
    ensures n[k].key.end == if k == i then where else m[Origin(i, k)].key.end
  {
  }

  lemma {:induction false} SplitKeepsOrder<V>(m: seq<Entry<V>>, n: seq<Entry<V>>, i: nat, where: Offset)
    requires Sorted(m) && i < |m| && m[i].key.start <= where < m[i].key.end
    requires n == m[..i] + Halves(m[i], where) + m[i + 1..]
    ensures Sorted(n) && (where != UNKNOWN - 1 ==> StaysClean(m, n))
  {
    forall k {:trigger n[k]} | 0 <= k < |n|
      ensures n[k].key.start <= n[k].key.end && n[k].values != {}
      ensures Clean(m) && where != UNKNOWN - 1 ==> n[k].key.start < UNKNOWN && n[k].key.end != UNKNOWN - 1
      ensures !ReachesTop(m) && where != UNKNOWN - 1 ==> n[k].key.start != UNKNOWN
    {
      SplitEntries(m, n, i, where, k);
    }
    forall j, k | 0 <= j < k < |n|
      ensures n[j].key.end < n[k].key.start
    {
      SplitEntries(m, n, i, where, j);
      SplitEntries(m, n, i, where, k);
      assert Origin(i, j) <= Origin(i, k);
    }
  }

  /** Nothing begins before and ends at or after the byte. */
  ghost predicate Cut<V>(m: seq<Entry<V>>, b: int) {
    forall i {:trigger m[i]} :: 0 <= i < |m| ==> !(m[i].key.start < b <= m[i].key.end)
  }

  /** Splitting never joins, and what is cut stays cut. */
  lemma {:induction false} SplitCuts<V>(m: seq<Entry<V>>, n: seq<Entry<V>>, i: nat, where: Offset, b: int)
    requires Sorted(m) && i < |m| && m[i].key.start <= where < m[i].key.end
    requires n == m[..i] + Halves(m[i], where) + m[i + 1..]
    ensures Cut(n, where + 1)
    ensures Cut(m, b) ==> Cut(n, b)
  {
    forall k {:trigger n[k]} | 0 <= k < |n|
      ensures !(n[k].key.start < where + 1 <= n[k].key.end)
      ensures Cut(m, b) ==> !(n[k].key.start < b <= n[k].key.end)
    {
      SplitEntries(m, n, i, where, k);
      assert m[Origin(i, k)].key.start <= m[Origin(i, k)].key.end;
    }
  }

  ghost predicate StaysClean<V>(m: seq<Entry<V>>, n: seq<Entry<V>>) {
    (Clean(m) ==> Clean(n)) && (ReachesTop(n) ==> ReachesTop(m))
  }

  /** A write can go on with the split map, and Clean is kept if the interval allows it. */
  ghost predicate GoesOn<V>(m: seq<Entry<V>>, n: seq<Entry<V>>, i: Interval) {
    (Works(m, i) ==> Works(n, i)) && (Clean(m) && Fits(i) ==> Clean(n))
  }

  lemma {:induction false} SplitGoesOn<V>(m: seq<Entry<V>>, n: seq<Entry<V>>, i: Interval, where: Offset)
    requires Refines(m, n) && (where != UNKNOWN - 1 ==> StaysClean(m, n))
    requires where == i.end < UNKNOWN || where + 1 == i.start < UNKNOWN
    ensures GoesOn(m, n, i)
  {
    assert At(m, UNKNOWN - 1) == At(n, UNKNOWN - 1);
  }

  /** Only splits have been made. */
  ghost predicate Refines<V>(m: seq<Entry<V>>, n: seq<Entry<V>>) {
    && Sorted(n) && SameBytes(m, n) && |m| <= |n| && (|m| == |n| ==> m == n)
    && forall b {:trigger Cut(n, b)} :: Cut(m, b) ==> Cut(n, b)
  }

  lemma {:induction false} SplitRefines<V>(m: seq<Entry<V>>, n: seq<Entry<V>>, i: nat, where: Offset)
    requires Sorted(m) && i < |m| && m[i].key.start <= where < m[i].key.end
    requires n == m[..i] + Halves(m[i], where) + m[i + 1..]
    ensures Refines(m, n) && Cut(n, where + 1) && (where != UNKNOWN - 1 ==> StaysClean(m, n))
  {
    assert m == m[..i] + [m[i]] + m[i + 1..];
    forall b
      ensures At(n, b) == At(m, b)
    {
      SplitKeepsBytes(m[..i], m[i], m[i + 1..], where, b);
    }
    SplitKeepsOrder(m, n, i, where);
    forall b {:trigger Cut(n, b)}
      ensures Cut(n, where + 1) && (Cut(m, b) ==> Cut(n, b))
    {
      SplitCuts(m, n, i, where, b);
    }
  }

  /** An entry that sticks out in front of the interval can be split there. */
  lemma StartIsKnown<V>(m: seq<Entry<V>>, i: Interval, k: nat)
    requires Works(m, i) && k < |m| && m[k].key.start < i.start <= m[k].key.end
    ensures 0 < i.start < UNKNOWN
  {
  }

  // What goes wrong otherwise, for one entry in front of the interval or behind a gap.

  /** The entry can be split in front of `start` just if that is a known offset. */
  lemma SplitNeedsKnown<V>(e: Entry<V>, start: Offset)
    requires e.key.start < start <= e.key.end
    ensures e.key.start <= Minus(start, 1) < e.key.end <==> start < UNKNOWN
  {
  }

  /** The entry for a gap is in order with the entry behind it just if that one begins at a known offset. If not,
      the entry behind is hidden: the values of its byte are lost. */
  lemma GapNeedsKnown<V>(from: Offset, e: Entry<V>, val: V)
    requires from < e.key.start <= e.key.end && e.values != {}
    ensures var m := [Entry(Interval(from, Minus(e.key.start, 1)), {val}), e];
            && (Sorted(m) <==> e.key.start < UNKNOWN)
            && (e.key.start == UNKNOWN ==> At(m, UNKNOWN) == {val})
  {
    var m := [Entry(Interval(from, Minus(e.key.start, 1)), {val}), e];
    assert m[0].key.end < m[1].key.start <==> e.key.start < UNKNOWN;
  }

  lemma RefinesTwice<V>(m: seq<Entry<V>>, n: seq<Entry<V>>, o: seq<Entry<V>>)
    requires Refines(m, n) && Refines(n, o)
    ensures Refines(m, o)
  {
    assert forall b {:trigger Cut(o, b)} :: Cut(m, b) ==> Cut(n, b) && Cut(o, b);
  }

  // ---------------------------------------------------------------------------
  // Writing to an interval

  /** What a byte maps to after val has been added to, or has replaced, the values of an interval. */
  function Written<V>(values: set<V>, inside: bool, val: V, update: bool): set<V> {
    if !inside then values else if update then {val} else values + {val}
  }

  ghost predicate WrittenTo<V>(m: seq<Entry<V>>, n: seq<Entry<V>>, i: Interval, val: V, update: bool) {
    forall b {:trigger At(n, b)} :: At(n, b) == Written(At(m, b), i.Has(b), val, update)
  }

  /** Halfway through a write to m: p is what the bytes below `upto` become, r are the entries that follow. */
  ghost predicate Filled<V>(m: seq<Entry<V>>, p: seq<Entry<V>>, r: seq<Entry<V>>, i: Interval, val: V, update: bool,
      upto: nat) {
    && Sorted(p) && Sorted(r) && i.start <= i.end && Cut(r, i.end + 1) && i.start <= upto <= i.end + 1
    && (Clean(m) && Fits(i) ==> Clean(p) && Clean(r))
    && (i.end == UNKNOWN && ReachesTop(r) ==> upto == UNKNOWN || At(m, UNKNOWN - 1) != {})
    && (forall k {:trigger p[k]} :: 0 <= k < |p| ==> p[k].key.end < upto)
    && (forall k {:trigger r[k]} :: 0 <= k < |r| ==> r[k].key.start >= upto)
    && (forall b {:trigger At(p, b)} :: b < upto ==> At(p, b) == Written(At(m, b), i.Has(b), val, update))
    && (forall b {:trigger At(r, b)} :: b >= upto ==> At(r, b) == At(m, b))
  }

  lemma {:induction false} PartsStay<V>(m: seq<Entry<V>>, p: seq<Entry<V>>, r: seq<Entry<V>>, end: int)
    requires m == p + r && Sorted(m) && Cut(m, end)
    ensures Sorted(p) && Sorted(r) && (Clean(m) ==> Clean(p) && Clean(r))
    ensures Cut(r, end) && (ReachesTop(r) ==> ReachesTop(m))
    ensures forall k {:trigger p[k]} :: 0 <= k < |p| ==> m[k] == p[k]
    ensures forall k {:trigger r[k]} :: 0 <= k < |r| ==> m[|p| + k] == r[k]
  {
    assert forall k {:trigger p[k]} :: 0 <= k < |p| ==> m[k] == p[k];
    assert forall k {:trigger r[k]} :: 0 <= k < |r| ==> m[|p| + k] == r[k];
  }

  lemma {:induction false} FillStart<V>(m: seq<Entry<V>>, p: seq<Entry<V>>, r: seq<Entry<V>>, i: Interval, val: V,
      update: bool)
    requires m == p + r && Sorted(m) && Works(m, i) && Cut(m, i.start) && Cut(m, i.end + 1)
    requires forall k {:trigger p[k]} :: 0 <= k < |p| ==> p[k].key.start < i.start
    requires forall k {:trigger r[k]} :: 0 <= k < |r| ==> r[k].key.start >= i.start
    ensures Filled(m, p, r, i, val, update, i.start)
  {
    PartsStay(m, p, r, i.end + 1);
    forall b
      ensures b < i.start ==> At(p, b) == At(m, b)
      ensures b >= i.start ==> At(r, b) == At(m, b)
    {
      AtConcat(p, r, b);
      if b < i.start {
        AtNowhere(r, b);
      } else {
        AtNowhere(p, b);
      }
    }
  }

  /** The gap in front of an entry ends at a known offset. */
  lemma {:induction false} NextIsKnown<V>(m: seq<Entry<V>>, p: seq<Entry<V>>, r: seq<Entry<V>>, i: Interval, val: V,
      update: bool, upto: nat)
    requires Filled(m, p, r, i, val, update, upto) && r != [] && upto < r[0].key.start <= i.end
    ensures r[0].key.start < UNKNOWN
  {
    assert At(r, UNKNOWN - 1) == At(m, UNKNOWN - 1);
    if r[0].key.start == UNKNOWN {
      assert forall k {:trigger r[k]} :: 0 <= k < |r| ==> r[0].key.start <= r[k].key.start;
      AtNowhere(r, UNKNOWN - 1);
    }
  }

  lemma {:induction false} FillOne<V>(m: seq<Entry<V>>, p: seq<Entry<V>>, r: seq<Entry<V>>, i: Interval, val: V,
      update: bool, upto: nat, e: Entry<V>, b: int)
    requires Filled(m, p, r, i, val, update, upto) && e.key.start == upto && b <= e.key.end
    requires e.key.Has(b) ==> e.values == Written(At(m, b), i.Has(b), val, update)
    ensures At(p + [e], b) == Written(At(m, b), i.Has(b), val, update)
  {
    AtConcat(p, [e], b);
    if upto <= b {
      AtNowhere(p, b);
    } else {
      AtNowhere([e], b);
    }
  }

  /** An entry inside the interval is written. */
  lemma {:induction false} FillEntry<V>(m: seq<Entry<V>>, p: seq<Entry<V>>, r: seq<Entry<V>>, i: Interval, val: V,
      update: bool, upto: nat)
    requires Filled(m, p, r, i, val, update, upto) && r != [] && upto == r[0].key.start <= i.end
    ensures var e := Entry(r[0].key, Written(r[0].values, true, val, update));
            Filled(m, p + [e], r[1..], i, val, update, e.key.end + 1)
    ensures r[0].key.end <= i.end
  {
    var e := Entry(r[0].key, Written(r[0].values, true, val, update));
    assert forall b {:trigger At(r[1..], b)} :: b > e.key.end ==> At(r[1..], b) == At(r, b);
    forall b | b <= e.key.end
      ensures At(p + [e], b) == Written(At(m, b), i.Has(b), val, update)
    {
      assert At(r, b) == if e.key.Has(b) then r[0].values else At(r[1..], b);
      FillOne(m, p, r, i, val, update, upto, e, b);
    }
  }

  /** An entry is put into a gap. */
  lemma {:induction false} FillGap<V>(m: seq<Entry<V>>, p: seq<Entry<V>>, r: seq<Entry<V>>, i: Interval, val: V,
      update: bool, upto: nat, e: Entry<V>)
    requires Filled(m, p, r, i, val, update, upto)
    requires e.values == {val} && e.key.start == upto <= e.key.end <= i.end && (Clean(m) && Fits(i) ==> Fits(e.key))
    requires r != [] ==> e.key.end < r[0].key.start
    ensures Filled(m, p + [e], r, i, val, update, e.key.end + 1)
  {
    assert forall k {:trigger r[k]} :: 0 <= k < |r| ==> r[0].key.start <= r[k].key.start;
    forall b | b <= e.key.end
      ensures At(p + [e], b) == Written(At(m, b), i.Has(b), val, update)
    {
      if e.key.Has(b) {
        AtNowhere(r, b);
      }
      FillOne(m, p, r, i, val, update, upto, e, b);
    }
  }

  lemma {:induction false} FillEnd<V>(m: seq<Entry<V>>, p: seq<Entry<V>>, r: seq<Entry<V>>, i: Interval, val: V,
      update: bool)
    requires Filled(m, p, r, i, val, update, i.end + 1)
    ensures Sorted(p + r) && (Clean(m) && Fits(i) ==> Clean(p + r)) && WrittenTo(m, p + r, i, val, update)
  {
    forall b
      ensures At(p + r, b) == Written(At(m, b), i.Has(b), val, update)
    {
      AtConcat(p, r, b);
      if b <= i.end {
        AtNowhere(r, b);
      } else {
        AtNowhere(p, b);
      }
    }
  }

  lemma MoveOne<V>(p: seq<Entry<V>>, q: seq<Entry<V>>, r: seq<Entry<V>>, e: Entry<V>)
    requires r != [] && |q| <= |p|
    ensures q + r == q + [r[0]] + r[1..]
    ensures p + [e] != q + [r[0]] <==> p != q || e != r[0]
  {
    if |p| == |q| && p + [e] == q + [r[0]] {
      assert p == (p + [e])[..|p|] && q == (q + [r[0]])[..|q|];
      assert e == (p + [e])[|p|] && r[0] == (q + [r[0]])[|q|];
    }
  }

  /** A write to m is under way: p has come in place of q, r is still to be looked at. */
  ghost predicate Writing<V>(m: seq<Entry<V>>, n: seq<Entry<V>>, p: seq<Entry<V>>, q: seq<Entry<V>>, r: seq<Entry<V>>,
      changed: bool) {
    |q| <= |p| && n == p + r && m == q + r && (changed <==> p != q)
  }

  ghost predicate IsWritten<V>(m: seq<Entry<V>>, n: seq<Entry<V>>, i: Interval, val: V, update: bool, changed: bool) {
    Sorted(n) && (Clean(m) && Fits(i) ==> Clean(n)) && |m| <= |n| && WrittenTo(m, n, i, val, update) &&
        (changed <==> n != m)
  }

  /** n is m written up to `start`; the entry at `it` is the next one inside the interval. */
  ghost predicate Underway<V(!new)>(m: seq<Entry<V>>, n: seq<Entry<V>>, i: Interval, val: V, update: bool, it: nat,
      start: nat, changed: bool) {
    exists p, q, r :: Parts(m, n, p, q, r, i, val, update, it, start, changed)
  }

  ghost predicate Parts<V>(m: seq<Entry<V>>, n: seq<Entry<V>>, p: seq<Entry<V>>, q: seq<Entry<V>>, r: seq<Entry<V>>,
                           i: Interval, val: V, update: bool, it: nat, start: nat, changed: bool) {
    |p| == it && r != [] && r[0].key.start <= i.end && Writing(m, n, p, q, r, changed) &&
        Filled(m, p, r, i, val, update, start)
  }

  lemma {:induction false} StartsUnderway<V(!new)>(m: seq<Entry<V>>, i: Interval, from: nat, val: V, update: bool)
    requires Sorted(m) && Works(m, i) && Cut(m, i.start) && Cut(m, i.end + 1)
    requires from < |m| && i.start <= m[from].key.start <= i.end
    requires forall k {:trigger m[k]} :: 0 <= k < from ==> m[k].key.start < i.start
    ensures Underway(m, m, i, val, update, from, i.start, false)
  {
    FillStart(m, m[..from], m[from..], i, val, update);
    assert Parts(m, m, m[..from], m[..from], m[from..], i, val, update, from, i.start, false);
  }

  lemma NextEntry<V(!new)>(m: seq<Entry<V>>, n: seq<Entry<V>>, i: Interval, val: V, update: bool, it: nat, start: nat,
      changed: bool)
    requires Underway(m, n, i, val, update, it, start, changed)
    ensures it < |n| && start <= n[it].key.start <= i.end
  {
  }

  lemma FillDone<V>(m: seq<Entry<V>>, n: seq<Entry<V>>, p: seq<Entry<V>>, q: seq<Entry<V>>, r: seq<Entry<V>>,
                    i: Interval, val: V, update: bool, changed: bool)
    requires Writing(m, n, p, q, r, changed) && Filled(m, p, r, i, val, update, i.end + 1)
    ensures IsWritten(m, n, i, val, update, changed)
  {
    FillEnd(m, p, r, i, val, update);
    if |p| == |q| && p + r == q + r {
      assert p == (p + r)[..|p|] && q == (q + r)[..|q|];
    }
  }

  lemma WrittenAfterSplit<V>(m: seq<Entry<V>>, n: seq<Entry<V>>, o: seq<Entry<V>>, i: Interval, val: V, update: bool)
    requires SameBytes(m, n) && WrittenTo(n, o, i, val, update)
    ensures WrittenTo(m, o, i, val, update)
  {
    forall b
      ensures At(o, b) == Written(At(m, b), i.Has(b), val, update)
    {
      assert At(m, b) == At(n, b);
    }
  }

  // ---------------------------------------------------------------------------
  // The map

  class DisjunctiveIntervalMap<V(==,!new)> {
    var mapping: seq<Entry<V>>

    constructor (m: seq<Entry<V>>)
      ensures mapping == m
    {
      mapping := m;
    }

    /** The first entry that starts at s or later. */
    function LowerBound(s: Offset, i: nat := 0): (k: nat)
      reads this
      requires i <= |mapping|
      ensures i <= k <= |mapping|
      ensures forall j :: i <= j < k ==> mapping[j].key.start < s
      ensures k < |mapping| ==> mapping[k].key.start >= s
      decreases |mapping| - i
    {
      if i < |mapping| && mapping[i].key.start < s then LowerBound(s, i + 1) else i
    }

    /** Puts the entry in its place unless some entry starts there already; the position is returned. */
    method Emplace(e: Entry<V>) returns (k: nat)
      modifies this
      ensures k <= |old(mapping)| && (forall j :: 0 <= j < k ==> old(mapping)[j].key.start < e.key.start)
      ensures k < |old(mapping)| ==> old(mapping)[k].key.start >= e.key.start
      ensures mapping == if k < |old(mapping)| && old(mapping)[k].key.start == e.key.start then old(mapping)
                         else old(mapping)[..k] + [e] + old(mapping)[k..]
    {
      k := LowerBound(e.key.start);
      if k == |mapping| || mapping[k].key.start != e.key.start {
        mapping := mapping[..k] + [e] + mapping[k..];
      }
    }

    method Erase(i: nat)
      requires i < |mapping|
      modifies this
      ensures |mapping| == |old(mapping)| - 1
      ensures forall k {:trigger mapping[k]} :: 0 <= k < i ==> mapping[k] == old(mapping)[k]
      ensures forall k {:trigger mapping[k]} :: i <= k < |mapping| ==> mapping[k] == old(mapping)[k + 1]
    {
      mapping := mapping[..i] + mapping[i + 1..];
    }

    /** Replaces [a, b] by [a, where] and [where + 1, b]. */
    method SplitInterval(i: nat, where: Offset)
      requires Sorted(mapping) && i < |mapping| && mapping[i].key.start <= where < mapping[i].key.end
      modifies this
      ensures mapping == old(mapping)[..i] + Halves(old(mapping)[i], where) + old(mapping)[i + 1..]
      ensures Refines(old(mapping), mapping) && |mapping| == |old(mapping)| + 1
      ensures where != UNKNOWN - 1 ==> StaysClean(old(mapping), mapping)
      ensures Cut(mapping, where + 1)
    {
      var e := mapping[i];
      ghost var m := mapping;
      Erase(i);
      InsertAt(i, Entry(Interval(e.key.start, where), e.values));
      InsertAt(i + 1, Entry(Interval(Plus(where, 1), e.key.end), e.values));
      assert mapping == m[..i] + Halves(m[i], where) + m[i + 1..];
      SplitRefines(m, mapping, i, where);
    }

    /** A split at an end of the interval that is to be written to. */
    method SplitAt(k: nat, where: Offset, ghost i: Interval)
      requires Sorted(mapping) && k < |mapping| && mapping[k].key.start <= where < mapping[k].key.end
      requires where == i.end < UNKNOWN || where + 1 == i.start < UNKNOWN
      modifies this
      ensures mapping == old(mapping)[..k] + Halves(old(mapping)[k], where) + old(mapping)[k + 1..]
      ensures Refines(old(mapping), mapping) && |mapping| == |old(mapping)| + 1
      ensures Cut(mapping, where + 1) && GoesOn(old(mapping), mapping, i)
    {
      ghost var m := mapping;
      SplitInterval(k, where);
      SplitGoesOn(m, mapping, i, where);
    }

    /** Splits the entries that stick out of the interval on either side. */
    method SplitExtBorders(i: Interval) returns (changed: bool)
      requires mapping != [] && Sorted(mapping) && Works(mapping, i)
      modifies this
      ensures Refines(old(mapping), mapping) && Cut(mapping, i.start) && Cut(mapping, i.end + 1)
      ensures GoesOn(old(mapping), mapping, i)
      ensures changed <==> mapping != old(mapping)
    {
      var ge := LowerBound(i.start);
      if ge == |mapping| {
        changed := SplitLast(i);
        return;
      }
      ghost var m := mapping;
      changed := SplitFrom(i, ge);
      ghost var n := mapping;
      if changed {
        ge := LowerBound(i.start);
      }
      if ge != 0 {
        var more := SplitPrevious(i, ge);
        changed := changed || more;
        RefinesTwice(m, n, mapping);
      } else {
        assert forall k {:trigger mapping[k]} :: 0 <= k < |mapping| ==> mapping[k].key.start >= i.start;
      }
    }

    method SplitLast(i: Interval) returns (changed: bool)
      requires mapping != [] && Sorted(mapping) && Works(mapping, i)
      requires forall k :: 0 <= k < |mapping| ==> mapping[k].key.start < i.start
      modifies this
      ensures Refines(old(mapping), mapping) && Cut(mapping, i.start) && Cut(mapping, i.end + 1)
      ensures GoesOn(old(mapping), mapping, i)
      ensures changed <==> mapping != old(mapping)
    {
      changed := false;
      var last := |mapping| - 1;
      ghost var m := mapping;
      if mapping[last].key.end > i.end {
        SplitAt(last, i.end, i);
        changed := true;
      }
      ghost var n := mapping;
      if mapping[last].key.end >= i.start {
        StartIsKnown(mapping, i, last);
        SplitAt(last, Minus(i.start, 1), i);
        RefinesTwice(m, n, mapping);
        changed := true;
      }
    }

    /** Cuts at the end of the interval, in an entry that starts inside it. */
    method SplitFrom(i: Interval, ge: nat) returns (changed: bool)
      requires Sorted(mapping) && Works(mapping, i) && ge < |mapping| && mapping[ge].key.start >= i.start
      modifies this
      ensures Refines(old(mapping), mapping) && GoesOn(old(mapping), mapping, i)
      ensures forall k {:trigger mapping[k]} :: 0 <= k < ge ==> mapping[k] == old(mapping)[k]
      ensures ge < |mapping| && mapping[ge].key.start == old(mapping)[ge].key.start
      ensures forall k {:trigger mapping[k]} ::
        ge <= k < |mapping| ==> !(mapping[k].key.start <= i.end < mapping[k].key.end)
      ensures changed <==> mapping != old(mapping)
    {
      changed := false;
      var it := ge;
      while mapping[it].key.start <= i.end
        invariant ge <= it < |mapping| && !changed && mapping == old(mapping)
        invariant forall k :: ge <= k < it ==> mapping[k].key.end <= i.end
        decreases |mapping| - it
      {
        if mapping[it].key.end > i.end {
          SplitAt(it, i.end, i);
          changed := true;
          break;
        }
        it := it + 1;
        if it == |mapping| {
          break;
        }
      }
    }

    /** Cuts at the start of the interval, and at its end too if the entry before reaches that far. */
    method SplitPrevious(i: Interval, from: nat) returns (changed: bool)
      requires Sorted(mapping) && Works(mapping, i) && 0 < from < |mapping|
      requires mapping[from - 1].key.start < i.start <= mapping[from].key.start
      requires forall k {:trigger mapping[k]} ::
        from <= k < |mapping| ==> !(mapping[k].key.start <= i.end < mapping[k].key.end)
      modifies this
      ensures Refines(old(mapping), mapping) && Cut(mapping, i.start) && Cut(mapping, i.end + 1)
      ensures GoesOn(old(mapping), mapping, i)
      ensures changed <==> mapping != old(mapping)
    {
      changed := false;
      var prev, ge := from - 1, from;
      var prevEnd := mapping[prev].key.end;
      ghost var m := mapping;
      if prevEnd >= i.start {
        StartIsKnown(mapping, i, prev);
        SplitAt(prev, Minus(i.start, 1), i);
        ge := prev;
        changed := true;
      }
      ghost var n := mapping;
      if prevEnd > i.end {
        ge := ge + 1;
        assert ge < |mapping| && mapping[ge].key.end == prevEnd;
        SplitLong(i, ge);
        RefinesTwice(m, n, mapping);
        changed := true;
      }
    }

    /** Cuts at the end of the interval, in an entry that starts with it. */
    method SplitLong(i: Interval, ge: nat)
      requires Sorted(mapping) && Works(mapping, i) && Cut(mapping, i.start) && ge < |mapping|
      requires mapping[ge].key.start == i.start && i.end < mapping[ge].key.end
      modifies this
      ensures Refines(old(mapping), mapping) && Cut(mapping, i.start) && Cut(mapping, i.end + 1)
      ensures GoesOn(old(mapping), mapping, i)
      ensures ge < |mapping| && mapping[ge].key == i && |mapping| == |old(mapping)| + 1
    {
      SplitAt(ge, i.end, i);
    }

    method AddValue(i: nat, val: V, update: bool) returns (changed: bool)
      requires i < |mapping|
      modifies this
      ensures mapping == old(mapping)[i :=
        Entry(old(mapping)[i].key, Written(old(mapping)[i].values, true, val, update))]
      ensures changed <==> mapping[i] != old(mapping)[i]
    {
      var values := mapping[i].values;
      if update {
        if |values| == 1 && val in values {
          SingletonIs(values, val);
          return false;
        }
        mapping := mapping[i := Entry(mapping[i].key, {val})];
        return true;
      }
      mapping := mapping[i := Entry(mapping[i].key, values + {val})];
      return val !in values;
    }

    /** Adds val to the values of every byte of the interval or, in an update, makes it the only one. */
    method Add(i: Interval, val: V, update: bool) returns (changed: bool)
      requires Sorted(mapping) && Works(mapping, i)
      modifies this
      ensures Sorted(mapping) && (old(Clean(mapping)) && Fits(i) ==> Clean(mapping)) && mapping != []
      ensures WrittenTo(old(mapping), mapping, i, val, update)
      ensures changed <==> mapping != old(mapping)
    {
      if mapping == [] {
        AddAlone(0, i, val, update);
        return true;
      }
      changed := SplitExtBorders(i);
      var it := LowerBound(i.start);
      ghost var m := mapping;
      if it == |mapping| || i.end < mapping[it].key.start {
        AddAlone(it, i, val, update);
        WrittenAfterSplit(old(mapping), m, mapping, i, val, update);
        return true;
      }
      var more := Fill(i, it, val, update);
      WrittenAfterSplit(old(mapping), m, mapping, i, val, update);
      changed := changed || more;
    }

    /** No entry overlaps the interval. */
    method AddAlone(it: nat, i: Interval, val: V, ghost update: bool)
      requires Sorted(mapping) && Works(mapping, i) && Cut(mapping, i.start) && Cut(mapping, i.end + 1)
      requires it <= |mapping|
      requires forall k {:trigger mapping[k]} :: 0 <= k < it ==> mapping[k].key.start < i.start
      requires forall k {:trigger mapping[k]} :: it <= k < |mapping| ==> mapping[k].key.start > i.end
      modifies this
      ensures Sorted(mapping) && (old(Clean(mapping)) && Fits(i) ==> Clean(mapping))
      ensures WrittenTo(old(mapping), mapping, i, val, update)
      ensures |mapping| == |old(mapping)| + 1
    {
      ghost var m, p, r := mapping, mapping[..it], mapping[it..];
      FillStart(m, p, r, i, val, update);
      PutGap(i, it, i.start, i.end, val, update, m, p, r);
      FillEnd(m, p + [Entry(i, {val})], r, i, val, update);
    }

    /** An entry for the bytes from start to end, in front of the entry at `it`. */
    method PutGap(i: Interval, it: nat, start: Offset, end: Offset, val: V, ghost update: bool,
                  ghost m: seq<Entry<V>>, ghost p: seq<Entry<V>>, ghost r: seq<Entry<V>>)
      requires mapping == p + r && it == |p| && Filled(m, p, r, i, val, update, start)
      requires start <= end <= i.end && (Clean(m) && Fits(i) ==> Fits(Interval(start, end)))
      requires (r != [] ==> end < r[0].key.start)
      modifies this
      ensures mapping == p + [Entry(Interval(start, end), {val})] + r
      ensures Filled(m, p + [Entry(Interval(start, end), {val})], r, i, val, update, end + 1)
    {
      FillGap(m, p, r, i, val, update, start, Entry(Interval(start, end), {val}));
      assert forall k {:trigger mapping[k]} :: 0 <= k < it ==> mapping[k] == p[k];
      assert r != [] ==> mapping[it] == r[0];
      InsertAt(it, Entry(Interval(start, end), {val}));
    }

    /** The entry at `it` is written. */
    method PutEntry(i: Interval, it: nat, val: V, update: bool, ghost m: seq<Entry<V>>, ghost p: seq<Entry<V>>,
        ghost r: seq<Entry<V>>)
      returns (differs: bool)
      requires mapping == p + r && it == |p| && r != [] && r[0].key.start <= i.end
      requires Filled(m, p, r, i, val, update, r[0].key.start)
      modifies this
      ensures var e := Entry(r[0].key, Written(r[0].values, true, val, update));
              && mapping == p + [e] + r[1..] && (differs <==> e != r[0]) && r[0].key.end <= i.end
              && Filled(m, p + [e], r[1..], i, val, update, r[0].key.end + 1)
    {
      FillEntry(m, p, r, i, val, update, r[0].key.start);
      differs := AddValue(it, val, update);
    }

    /** Walks over the entries inside the interval and fills the gaps between them. */
    method Fill(i: Interval, from: nat, val: V, update: bool) returns (changed: bool)
      requires Sorted(mapping) && Works(mapping, i) && Cut(mapping, i.start) && Cut(mapping, i.end + 1)
      requires from < |mapping| && i.start <= mapping[from].key.start <= i.end
      requires forall k {:trigger mapping[k]} :: 0 <= k < from ==> mapping[k].key.start < i.start
      modifies this
      ensures IsWritten(old(mapping), mapping, i, val, update, changed)
    {
      changed := false;
      var it: nat, start: Offset, done := from, i.start, false;
      ghost var m := mapping;
      StartsUnderway(m, i, from, val, update);
      while !done
        invariant if done then IsWritten(m, mapping, i, val, update, changed)
          else Underway(m, mapping, i, val, update, it, start, changed)
        decreases !done, if done then 0 else |mapping| - it, UNKNOWN - start
      {
        NextEntry(m, mapping, i, val, update, it, start, changed);
        if start < mapping[it].key.start {
          start := FillBefore(i, it, start, val, update, changed, m);
          changed := true;
        } else {
          done, changed, start := FillAt(i, it, start, val, update, changed, m);
        }
        it := it + 1;
      }
    }

    /** An entry for the gap before the entry at `it`. */
    method FillBefore(i: Interval, it: nat, start: Offset, val: V, update: bool, ghost changed: bool,
        ghost m: seq<Entry<V>>)
        returns (next: Offset)
      requires Underway(m, mapping, i, val, update, it, start, changed) && it < |mapping|
      requires start < mapping[it].key.start
      modifies this
      ensures Underway(m, mapping, i, val, update, it + 1, next, true)
      ensures start < next && |mapping| == |old(mapping)| + 1
    {
      ghost var p, q, r :| Parts(m, mapping, p, q, r, i, val, update, it, start, changed);
      assert mapping[it] == r[0];
      next := mapping[it].key.start;
      NextIsKnown(m, p, r, i, val, update, start);
      var end := Minus(mapping[it].key.start, 1);
      PutGap(i, it, start, end, val, update, m, p, r);
      assert Parts(m, mapping, p + [Entry(Interval(start, end), {val})], q, r, i, val, update, it + 1, next, true);
    }

    /** The entry at `it` is written; if no further entry starts inside the interval, what is left of it is added. */
    method FillAt(i: Interval, it: nat, start: Offset, val: V, update: bool, before: bool, ghost m: seq<Entry<V>>)
      returns (done: bool, changed: bool, next: Offset)
      requires Underway(m, mapping, i, val, update, it, start, before) && it < |mapping|
      requires start == mapping[it].key.start
      modifies this
      ensures if done then IsWritten(m, mapping, i, val, update, changed)
        else Underway(m, mapping, i, val, update, it + 1, next, changed)
      ensures !done ==> |mapping| == |old(mapping)|
    {
      ghost var p, q, r :| Parts(m, mapping, p, q, r, i, val, update, it, start, before);
      assert mapping[it] == r[0];
      var differs := PutEntry(i, it, val, update, m, p, r);
      changed := before || differs;
      MoveOne(p, q, r, mapping[it]);
      done, changed, next := FillRest(i, it, val, update, changed, m, p + [mapping[it]], q + [r[0]], r[1..]);
    }

    method FillRest(i: Interval, it: nat, val: V, update: bool, before: bool,
                   ghost m: seq<Entry<V>>, ghost p: seq<Entry<V>>, ghost q: seq<Entry<V>>, ghost r: seq<Entry<V>>)
      returns (done: bool, changed: bool, next: Offset)
      requires Writing(m, mapping, p, q, r, before) && it + 1 == |p|
      requires Filled(m, p, r, i, val, update, mapping[it].key.end + 1)
      modifies this
      ensures if done then IsWritten(m, mapping, i, val, update, changed)
        else Underway(m, mapping, i, val, update, it + 1, next, changed)
      ensures !done ==> |mapping| == |old(mapping)|
    {
      next := i.end;
      if mapping[it].key.end == i.end {
        FillDone(m, mapping, p, q, r, i, val, update, before);
        return true, before, next;
      }
      next := Plus(mapping[it].key.end, 1);
      assert it + 1 < |mapping| ==> mapping[it + 1] == r[0];
      if it + 1 == |mapping| || mapping[it + 1].key.start > i.end {
        PutGap(i, it + 1, next, i.end, val, update, m, p, r);
        FillDone(m, mapping, p + [Entry(Interval(next, i.end), {val})], q, r, i, val, update, true);
        return true, true, next;
      }
      assert Parts(m, mapping, p, q, r, i, val, update, it + 1, next, before);
      return false, before, next;
    }

    /** Emplacing where there is room. */
    method InsertAt(k: nat, e: Entry<V>)
      requires k <= |mapping| && (forall j {:trigger mapping[j]} :: 0 <= j < k ==> mapping[j].key.start < e.key.start)
      requires k < |mapping| ==> mapping[k].key.start > e.key.start
      modifies this
      ensures mapping == old(mapping)[..k] + [e] + old(mapping)[k..]
    {
      var at := Emplace(e);
      assert at == k;
    }

    /** Adds val to the values of every byte that maps to something. */
    method AddAll(val: V) returns (changed: bool)
      requires Sorted(mapping)
      modifies this
      ensures Sorted(mapping) && (old(Clean(mapping)) ==> Clean(mapping)) && |mapping| == |old(mapping)|
      ensures forall b {:trigger At(mapping, b)} :: At(mapping, b) == if At(old(mapping), b) == {} then {}
        else At(old(mapping), b) + {val}
      ensures changed <==> mapping != old(mapping)
    {
      changed := false;
      for k := 0 to |mapping|
        invariant |mapping| == |old(mapping)|
        invariant forall j :: 0 <= j < k ==> mapping[j] == Entry(old(mapping)[j].key, old(mapping)[j].values + {val})
        invariant forall j :: k <= j < |mapping| ==> mapping[j] == old(mapping)[j]
        invariant changed <==> exists j :: 0 <= j < k && mapping[j] != old(mapping)[j]
      {
        var differs := AddValue(k, val, false);
        changed := changed || differs;
      }
      AddAllAt(old(mapping), mapping, val);
    }

    // -------------------------------------------------------------------------
    // Queries

    /** The first entry that shares a byte with the interval, or the end if there is none. The map
        must not be empty. */
    function FirstOverlap(i: Interval): (k: nat)
      reads this
      requires mapping != [] && Sorted(mapping) && i.start <= i.end
      ensures k <= |mapping| && forall j {:trigger mapping[j]} :: 0 <= j < k ==> !Meets(mapping[j].key, i)
      ensures k < |mapping| ==> Meets(mapping[k].key, i)
      ensures k < |mapping| ==> forall j {:trigger mapping[j]} :: 0 <= j < k ==> mapping[j].key.end < i.start
    {
      var ge := LowerBound(i.start);
      if ge == |mapping| then
        if mapping[|mapping| - 1].key.end >= i.start then |mapping| - 1 else |mapping|
      else if ge != 0 && mapping[ge - 1].key.end >= i.start then ge - 1
      else if mapping[ge].key.start > i.end then |mapping|
      else ge
    }

    /** All values that some byte of the interval maps to. */
    method Gather(i: Interval) returns (ret: set<V>)
      requires mapping != [] && Sorted(mapping) && i.start <= i.end
      ensures forall v :: v in ret <==> exists b :: i.Has(b) && v in At(mapping, b)
    {
      ret := {};
      var first := FirstOverlap(i);
      var it := first;
      while it < |mapping| && mapping[it].key.Overlaps(i)
        invariant first <= it <= |mapping|
        invariant forall j {:trigger mapping[j]} :: first <= j < it ==> Meets(mapping[j].key, i)
        invariant forall v {:trigger v in ret} :: v in ret <==> exists j :: first <= j < it && v in mapping[j].values
      {
        ret := ret + mapping[it].values;
        it := it + 1;
      }
      forall v
        ensures v in ret <==> exists b :: i.Has(b) && v in At(mapping, b)
      {
        GatheredAreThere(mapping, i, first, it, v);
      }
    }

    /** The bytes of the interval that map to nothing, in maximal runs; the last run may go past the end
        of the interval. */
    method Uncovered(i: Interval) returns (ret: seq<Interval>)
      requires Sorted(mapping) && i.start <= i.end && TopIsApart(mapping, i)
      ensures AreGaps(mapping, i, ret, i.end + 1)
      ensures ret != [] && ret[|ret| - 1].end > i.end <==> Overshoots(mapping, i)
      ensures EndsAtEntry(mapping, i, ret)
    {
      if mapping == [] {
        return [i];
      }
      var it := FirstOverlap(i);
      if it == |mapping| {
        WholeGap(mapping, i);
        return [i];
      }
      assert Meets(mapping[it].key, i);
      if i.start > mapping[it].key.start {
        ret := UncoveredPast(i, it);
      } else {
        ret := UncoveredFrom(i, it, i.start);
      }
    }

    /** The entry at `it` covers the first byte of the interval and starts before it. */
    method UncoveredPast(i: Interval, it: nat) returns (ret: seq<Interval>)
      requires Sorted(mapping) && i.start <= i.end && TopIsApart(mapping, i) && it < |mapping|
      requires mapping[it].key.start < i.start <= mapping[it].key.end
      ensures AreGaps(mapping, i, ret, i.end + 1)
      ensures ret != [] && ret[|ret| - 1].end > i.end <==> Overshoots(mapping, i)
      ensures EndsAtEntry(mapping, i, ret)
    {
      if mapping[it].key.end >= i.end {
        AllCovered(mapping, i, it);
        return [];
      }
      CoveredUpTo(mapping, i, it);
      var start := Plus(mapping[it].key.end, 1);
      if it + 1 == |mapping| {
        LastGap(mapping, i, [], start);
        assert [] + [Interval(start, i.end)] == [Interval(start, i.end)];
        return [Interval(start, i.end)];
      }
      ret := UncoveredFrom(i, it + 1, start);
    }

    /** The walk over the entries from `it` on. */
    method UncoveredFrom(i: Interval, first: nat, from: Offset) returns (ret: seq<Interval>)
      requires first < |mapping| && GapsSoFar(mapping, i, [], first, from)
      ensures AreGaps(mapping, i, ret, i.end + 1)
      ensures ret != [] && ret[|ret| - 1].end > i.end <==> Overshoots(mapping, i)
      ensures EndsAtEntry(mapping, i, ret)
    {
      ret := [];
      var it, start: Offset := first, from;
      while true
        invariant it < |mapping| && GapsSoFar(mapping, i, ret, it, start)
        decreases |mapping| - it
      {
        GapBefore(mapping, i, ret, it, start);
        ghost var before := ret;
        ret := WithGap(ret, start, mapping[it].key.start);
        if mapping[it].key.end >= i.end {
          GapAtEnd(mapping, i, before, it, start);
          return;
        }
        start := Plus(mapping[it].key.end, 1);
        it := it + 1;
        if it == |mapping| {
          LastGap(mapping, i, ret, start);
          if start <= i.end {
            ret := ret + [Interval(start, i.end)];
          }
          return;
        }
      }
    }
  }

  ghost predicate Meets(a: Interval, b: Interval) {
    a.start <= b.end && b.start <= a.end
  }

  lemma {:induction false} AddAllAt<V>(m: seq<Entry<V>>, n: seq<Entry<V>>, val: V)
    requires Sorted(m) && |n| == |m|
    requires forall j {:trigger n[j]} :: 0 <= j < |m| ==> n[j] == Entry(m[j].key, m[j].values + {val})
    ensures Sorted(n)
    ensures forall b {:trigger At(n, b)} :: At(n, b) == if At(m, b) == {} then {} else At(m, b) + {val}
  {
    forall b
      ensures At(n, b) == if At(m, b) == {} then {} else At(m, b) + {val}
    {
      if At(m, b) == {} {
        forall j | 0 <= j < |n|
          ensures !n[j].key.Has(b)
        {
          if m[j].key.Has(b) {
            AtIndex(m, j, b);
          }
        }
        AtNowhere(n, b);
      } else {
        var j := AtSomewhere(m, b);
        AtIndex(n, j, b);
      }
    }
  }

  lemma {:induction false} GatheredAreThere<V>(m: seq<Entry<V>>, i: Interval, first: nat, upto: nat, v: V)
    requires Sorted(m) && i.start <= i.end && first <= upto <= |m|
    requires forall j {:trigger m[j]} :: 0 <= j < |m| ==> (Meets(m[j].key, i) <==> first <= j < upto)
    ensures (exists j :: first <= j < upto && v in m[j].values) <==> exists b :: i.Has(b) && v in At(m, b)
  {
    if j :| first <= j < upto && v in m[j].values {
      var b := if m[j].key.start <= i.start then i.start else m[j].key.start;
      AtIndex(m, j, b);
      assert i.Has(b) && v in At(m, b);
    }
    if b :| i.Has(b) && v in At(m, b) {
      var j := AtSomewhere(m, b);
      assert Meets(m[j].key, i);
    }
  }

  // ---------------------------------------------------------------------------
  // Gaps

  ghost predicate InSome(gaps: seq<Interval>, b: int) {
    exists k :: 0 <= k < |gaps| && gaps[k].Has(b)
  }

  /** No gap ends just below an entry that begins at the unknown offset. */
  ghost predicate TopIsApart<V>(m: seq<Entry<V>>, i: Interval) {
    ReachesTop(m) ==> i.start == UNKNOWN || At(m, UNKNOWN - 1) != {}
  }

  /** The gaps are in order and apart, start in the interval, map to nothing, and have all such bytes of the
      interval below `upto`. */
  ghost predicate AreGaps<V>(m: seq<Entry<V>>, i: Interval, gaps: seq<Interval>, upto: nat) {
    && (forall k {:trigger gaps[k]} ::
         0 <= k < |gaps| ==> i.start <= gaps[k].start <= i.end && gaps[k].start <= gaps[k].end)
    && (forall k {:trigger gaps[k]} :: 0 <= k < |gaps| && Clean(m) && Fits(i) ==> Fits(gaps[k]))
    && (forall j, k {:trigger gaps[j], gaps[k]} :: 0 <= j < k < |gaps| ==> gaps[j].end + 1 < gaps[k].start)
    && (forall b {:trigger InSome(gaps, b)} {:trigger At(m, b)} :: InSome(gaps, b) ==> At(m, b) == {})
    && (forall b {:trigger InSome(gaps, b)} {:trigger At(m, b)} ::
         i.start <= b < upto && At(m, b) == {} ==> InSome(gaps, b))
  }

  /** The last byte of the interval and the one after it map to nothing, some entry overlaps the interval
      and some entry comes after it: then the last gap runs up to the entry that follows. */
  ghost predicate Overshoots<V>(m: seq<Entry<V>>, i: Interval) {
    && At(m, i.end) == {} && At(m, i.end + 1) == {}
    && SomeMeets(m, i) && (exists j :: 0 <= j < |m| && m[j].key.start > i.end)
  }

  /** A gap that goes past the end of the interval ends in front of an entry. */
  ghost predicate EndsAtEntry<V>(m: seq<Entry<V>>, i: Interval, gaps: seq<Interval>) {
    gaps != [] && gaps[|gaps| - 1].end > i.end ==> At(m, gaps[|gaps| - 1].end + 1) != {}
  }

  ghost predicate SomeMeets<V>(m: seq<Entry<V>>, i: Interval) {
    exists j :: 0 <= j < |m| && Meets(m[j].key, i)
  }

  /** The gaps below `start` are known, and some entry overlaps the interval. */
  ghost predicate GapsSoFar<V>(m: seq<Entry<V>>, i: Interval, gaps: seq<Interval>, it: nat, start: nat) {
    exists j: nat :: j < |m| && Meets(m[j].key, i) && GapsBelow(m, i, gaps, it, start)
  }

  /** The gaps below `start` are known; the entries before `it` end below it. */
  ghost predicate GapsBelow<V>(m: seq<Entry<V>>, i: Interval, gaps: seq<Interval>, it: nat, start: nat) {
    && Sorted(m) && i.start <= i.end && TopIsApart(m, i) && it <= |m| && i.start <= start <= i.end
    && (Clean(m) && Fits(i) ==> start < UNKNOWN)
    && AreGaps(m, i, gaps, start) && (forall k {:trigger gaps[k]} :: 0 <= k < |gaps| ==> gaps[k].end + 1 < start)
    && (forall j {:trigger m[j]} :: 0 <= j < it ==> m[j].key.end < start)
    && (forall j {:trigger m[j]} :: it <= j < |m| ==> m[j].key.start >= start)
  }

  /** The bytes from start up to the next entry, if there are any, are one more gap. */
  function WithGap(gaps: seq<Interval>, start: Offset, next: Offset): seq<Interval> {
    if start != next && start < next then gaps + [Interval(start, Minus(next, 1))] else gaps
  }

  lemma InSomeMore(gaps: seq<Interval>, g: Interval, b: int)
    ensures InSome(gaps + [g], b) <==> InSome(gaps, b) || g.Has(b)
  {
    if k :| 0 <= k < |gaps| && gaps[k].Has(b) {
      assert (gaps + [g])[k].Has(b);
    }
    if g.Has(b) {
      assert (gaps + [g])[|gaps|].Has(b);
    }
  }

  lemma {:induction false} WholeGap<V>(m: seq<Entry<V>>, i: Interval)
    requires i.start <= i.end && forall j {:trigger m[j]} :: 0 <= j < |m| ==> !Meets(m[j].key, i)
    ensures AreGaps(m, i, [i], i.end + 1) && !SomeMeets(m, i)
  {
    forall b
      ensures InSome([i], b) <==> i.Has(b)
      ensures i.Has(b) ==> At(m, b) == {}
    {
      assert i.Has(b) ==> [i][0].Has(b);
      if i.Has(b) {
        AtNowhere(m, b);
      }
    }
  }

  lemma {:induction false} AllCovered<V>(m: seq<Entry<V>>, i: Interval, it: nat)
    requires Sorted(m) && it < |m| && m[it].key.start <= i.start <= i.end <= m[it].key.end
    ensures AreGaps(m, i, [], i.end + 1) && At(m, i.end) != {}
  {
    forall b | i.Has(b)
      ensures At(m, b) != {}
    {
      AtIndex(m, it, b);
    }
  }

  lemma {:induction false} CoveredUpTo<V>(m: seq<Entry<V>>, i: Interval, it: nat)
    requires Sorted(m) && i.start <= i.end && TopIsApart(m, i) && it < |m|
    requires m[it].key.start <= i.start <= m[it].key.end < i.end
    ensures GapsSoFar(m, i, [], it + 1, m[it].key.end + 1)
  {
    forall b | i.start <= b <= m[it].key.end
      ensures At(m, b) != {}
    {
      AtIndex(m, it, b);
    }
    assert Meets(m[it].key, i);
  }

  /** With the gap in front of the entry at `it`, if there is one, the gaps are known up to its end. */
  lemma {:induction false} GapBefore<V>(m: seq<Entry<V>>, i: Interval, gaps: seq<Interval>, it: nat, start: Offset)
    requires GapsSoFar(m, i, gaps, it, start) && it < |m|
    ensures m[it].key.end < i.end ==> GapsSoFar(m, i, WithGap(gaps, start, m[it].key.start), it + 1, m[it].key.end + 1)
  {
    GapBytes(m, i, gaps, it, start);
  }

  lemma {:induction false} GapAtEnd<V>(m: seq<Entry<V>>, i: Interval, gaps: seq<Interval>, it: nat, start: Offset)
    requires GapsSoFar(m, i, gaps, it, start) && it < |m| && m[it].key.end >= i.end
    ensures var all := WithGap(gaps, start, m[it].key.start);
            AreGaps(m, i, all, i.end + 1) && (all != [] && all[|all| - 1].end > i.end <==> Overshoots(m, i)) &&
                EndsAtEntry(m, i, all)
  {
    GapBytes(m, i, gaps, it, start);
    OvershootsHere(m, i, it, start);
    AtIndex(m, it, m[it].key.start);
  }

  lemma {:induction false} GapEndIsKnown<V>(m: seq<Entry<V>>, i: Interval, gaps: seq<Interval>, it: nat, start: Offset)
    requires GapsBelow(m, i, gaps, it, start) && it < |m| && start < m[it].key.start
    ensures m[it].key.start < UNKNOWN
  {
    if At(m, UNKNOWN - 1) != {} {
      var j := AtSomewhere(m, UNKNOWN - 1);
      assert m[j].key.Has(UNKNOWN - 1);
    }
  }

  lemma {:induction false} GapBytes<V>(m: seq<Entry<V>>, i: Interval, gaps: seq<Interval>, it: nat, start: Offset)
    requires GapsBelow(m, i, gaps, it, start) && it < |m|
    ensures var more := WithGap(gaps, start, m[it].key.start);
            AreGaps(m, i, more, m[it].key.end + 1)
  {
    if start < m[it].key.start {
      GapEndIsKnown(m, i, gaps, it, start);
    }
    forall b
      ensures InSome(WithGap(gaps, start, m[it].key.start), b) <==> InSome(gaps, b) || start <= b < m[it].key.start
      ensures start <= b < m[it].key.start ==> At(m, b) == {}
      ensures m[it].key.Has(b) ==> At(m, b) != {}
    {
      GapByte(m, i, gaps, it, start, b);
    }
  }

  lemma {:induction false} GapByte<V>(m: seq<Entry<V>>, i: Interval, gaps: seq<Interval>, it: nat, start: Offset,
      b: int)
    requires GapsBelow(m, i, gaps, it, start) && it < |m| && (start < m[it].key.start ==> m[it].key.start < UNKNOWN)
    ensures InSome(WithGap(gaps, start, m[it].key.start), b) <==> InSome(gaps, b) || start <= b < m[it].key.start
    ensures start <= b < m[it].key.start ==> At(m, b) == {}
    ensures m[it].key.Has(b) ==> At(m, b) != {}
  {
    if start < m[it].key.start {
      InSomeMore(gaps, Interval(start, m[it].key.start - 1), b);
    }
    if start <= b < m[it].key.start {
      AtNowhere(m, b);
    } else if m[it].key.Has(b) {
      AtIndex(m, it, b);
    }
  }

  lemma {:induction false} OvershootsHere<V>(m: seq<Entry<V>>, i: Interval, it: nat, start: nat)
    requires Sorted(m) && it < |m| && start <= i.end <= m[it].key.end && SomeMeets(m, i)
    requires forall j {:trigger m[j]} :: 0 <= j < it ==> m[j].key.end < start
    ensures Overshoots(m, i) <==> m[it].key.start > i.end + 1
  {
    if m[it].key.start <= i.end {
      AtIndex(m, it, i.end);
    } else {
      AtNowhere(m, i.end);
      if m[it].key.start == i.end + 1 {
        AtIndex(m, it, i.end + 1);
      } else {
        AtNowhere(m, i.end + 1);
      }
    }
  }

  lemma {:induction false} LastGap<V>(m: seq<Entry<V>>, i: Interval, gaps: seq<Interval>, start: nat)
    requires GapsSoFar(m, i, gaps, |m|, start)
    ensures AreGaps(m, i, gaps + [Interval(start, i.end)], i.end + 1) && !Overshoots(m, i)
  {
    forall b
      ensures InSome(gaps + [Interval(start, i.end)], b) <==> InSome(gaps, b) || start <= b <= i.end
      ensures b >= start ==> At(m, b) == {}
    {
      InSomeMore(gaps, Interval(start, i.end), b);
      if b >= start {
        AtNowhere(m, b);
      }
    }
  }

  lemma {:induction false} SingletonIs<V>(s: set<V>, x: V)
    requires |s| == 1 && x in s
    ensures s == {x}
  {
    assert |s - {x}| == 0;
  }
}
