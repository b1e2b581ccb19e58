/** Positions on a cycle: which of two positions is met first, and how two sets of coloured
    positions can be separated by a pair of positions. */
module Ring {

  /** Steps from position x forward to position i on a cycle of the given length. */
  function Dist(length: nat, x: nat, i: nat): nat
    requires x < length && i < length
  {
    if i >= x then i - x else i + length - x
  }

  function Next(length: nat, i: nat): nat
    requires i < length
  {
    if i + 1 == length then 0 else i + 1
  }

  ghost predicate Colors(length: nat, blue: set<nat>, red: set<nat>) {
    && (forall x: nat {:trigger x in blue} :: x in blue ==> x < length)
    && (forall x: nat {:trigger x in red} :: x in red ==> x < length)
    && blue !! red
  }

  /** From every position of a, i is met in front of k. */
  ghost predicate AllCloser(length: nat, a: set<nat>, i: nat, k: nat)
    requires i < length && k < length && forall x: nat {:trigger x in a} :: x in a ==> x < length
  {
    forall x: nat {:trigger x in a} :: x in a ==> Dist(length, x, i) < Dist(length, x, k)
  }

  /** From every blue position i is met in front of k, from every red one behind it. */
  ghost predicate Separates(length: nat, blue: set<nat>, red: set<nat>, i: nat, k: nat)
    requires Colors(length, blue, red)
  {
    && i < length && k < length && i != k
    && AllCloser(length, blue, i, k)
    && AllCloser(length, red, k, i)
  }

  /** Position 0 is blue; r1 is the first red position, b2 the last blue one in front of it,
      b3 the next blue position behind r1 (or the length, if there is none), r2 the last red
      position in front of b3. */
  ghost predicate Bounds(length: nat, blue: set<nat>, red: set<nat>, b2: nat, r1: nat, r2: nat, b3: nat) {
    && Colors(length, blue, red) && 0 in blue
    && b2 < r1 <= r2 < b3 <= length
    && b2 in blue && r1 in red && r2 in red && (b3 in blue || b3 == length)
    && (forall x: nat {:trigger x in red} :: x in red ==> r1 <= x)
    && (forall x: nat {:trigger x in blue} :: x in blue ==> x <= b2 || b3 <= x)
    && (forall x: nat {:trigger x in red} :: x in red ==> x <= r2 || b3 <= x)
  }

  ghost predicate OnArcs(b2: nat, r1: nat, r2: nat, b3: nat, i: nat) {
    b2 <= i < r1 || r2 <= i < b3
  }

  /** With a second group of red positions behind b3 nothing separates the colours. */
  lemma NothingSeparates(length: nat, blue: set<nat>, red: set<nat>, b2: nat, r1: nat, r2: nat, b3: nat, x: nat,
      i: nat, k: nat)
    requires Bounds(length, blue, red, b2, r1, r2, b3) && x in red && b3 <= x
    ensures !Separates(length, blue, red, i, k)
  {
    assert 0 in blue && b3 in blue && r1 in red;
  }

  lemma SeparatedOnArcs(length: nat, blue: set<nat>, red: set<nat>, b2: nat, r1: nat, r2: nat, b3: nat, i: nat, k: nat)
    requires Bounds(length, blue, red, b2, r1, r2, b3)
    requires Separates(length, blue, red, i, k)
    ensures b2 <= i < r1 && r2 <= k < b3
  {
    assert 0 in blue && b2 in blue && r1 in red && r2 in red;
    assert b3 == length || b3 in blue;
  }

  lemma ArcsSeparate(length: nat, blue: set<nat>, red: set<nat>, b2: nat, r1: nat, r2: nat, b3: nat, i: nat, k: nat)
    requires Bounds(length, blue, red, b2, r1, r2, b3)
    requires forall x: nat {:trigger x in red} :: x in red ==> x < b3
    requires b2 <= i < r1 && r2 <= k < b3
    ensures Separates(length, blue, red, i, k)
  {
    assert AllCloser(length, blue, i, k) && AllCloser(length, red, k, i);
  }
}
