/** Permutations of `[0, n)`: the shape every preference list must have, the
    position of an element in a list, and reversal. */
module Perm {

  /** No value occurs twice in `s`. */
  predicate Distinct(s: seq<nat>) {
    forall i, j :: 0 <= i < j < |s| ==> s[i] != s[j]
  }

  /** Every value of `s` is below `n`. */
  predicate InRange(s: seq<nat>, n: nat) {
    forall i :: 0 <= i < |s| ==> s[i] < n
  }

  /** `s` lists each of `0 .. |s|-1` exactly once. */
  predicate IsPermutation(s: seq<nat>) {
    InRange(s, |s|) && Distinct(s)
  }

  /** A square matrix whose every row is a permutation: a complete strict
      preference list (most preferred first) for each of `|p|` agents. */
  predicate IsPrefMatrix(p: seq<seq<nat>>) {
    forall i :: 0 <= i < |p| ==> |p[i]| == |p| && IsPermutation(p[i])
  }

  /** The index of the first occurrence of `x` in `row`, or `|row|` when `x`
      does not occur: the rank of `x` in a preference list (0 = best). */
  function Position(row: seq<nat>, x: nat): (i: nat)
    ensures i <= |row|
    ensures i < |row| ==> row[i] == x
    ensures forall j :: 0 <= j < i ==> row[j] != x
  {
    if |row| == 0 then 0
    else if row[0] == x then 0
    else 1 + Position(row[1..], x)
  }

  /** `row` with its elements in the opposite order. */
  function Reverse(row: seq<nat>): (r: seq<nat>)
    ensures |r| == |row|
    ensures forall i :: 0 <= i < |row| ==> r[|row| - 1 - i] == row[i]
  {
    if |row| == 0 then [] else Reverse(row[1..]) + [row[0]]
  }

  /** Reversal is an involution. */
  lemma ReverseTwice(row: seq<nat>)
    ensures Reverse(Reverse(row)) == row
  {
    var r := Reverse(row);
    var back := Reverse(r);
    forall i | 0 <= i < |row|
      ensures back[i] == row[i]
    {
      assert back[|r| - 1 - (|row| - 1 - i)] == r[|row| - 1 - i];
    }
  }

  /** In a list without repetitions, the element at index `i` has rank `i`. */
  lemma PositionOfElement(row: seq<nat>, i: nat)
    requires Distinct(row) && i < |row|
    ensures Position(row, row[i]) == i
  {
  }

  /** The set of values occurring in `s`. */
  function Elements(s: seq<nat>): set<nat> {
    set i | 0 <= i < |s| :: s[i]
  }

  /** The set `{0, …, n-1}`. */
  function Below(n: nat): (r: set<nat>)
    ensures forall x: nat :: x in r <==> x < n
    ensures |r| == n
  {
    if n == 0 then {} else Below(n - 1) + {n - 1}
  }

  lemma {:induction false} DistinctElementsCard(s: seq<nat>)
    requires Distinct(s)
    ensures |Elements(s)| == |s|
  {
    if |s| > 0 {
      var init := s[..|s| - 1];
      assert Distinct(init);
      DistinctElementsCard(init);
      assert Elements(s) == Elements(init) + {s[|s| - 1]};
      assert s[|s| - 1] !in Elements(init);
    }
  }

  lemma {:induction false} SubsetCard(a: set<nat>, b: set<nat>)
    requires a <= b
    ensures |a| <= |b|
  {
    if a != {} {
      var x :| x in a;
      SubsetCard(a - {x}, b - {x});
    }
  }

  /** A permutation of `[0, n)` contains every value below `n`: a complete
      preference list names every agent of the other side. */
  lemma PermutationCovers(s: seq<nat>, x: nat)
    requires IsPermutation(s) && x < |s|
    ensures x in s
    ensures Position(s, x) < |s|
  {
    if x !in s {
      DistinctElementsCard(s);
      assert Elements(s) <= Below(|s|) - {x};
      SubsetCard(Elements(s), Below(|s|) - {x});
      assert false;
    }
  }
}
