/** What a solution is: a perfect matching read out in woman order, and
    stability (no blocking pair) judged against the original lists. */
module Marriage {
  import opened Perm
  import opened Engine

  /** `pairs[w] == (m, w)` for exactly one man m per woman w, every man
      appearing once. */
  predicate IsPerfectMatching(pairs: seq<(Man, Woman)>, n: nat) {
    |pairs| == n
    && (forall w :: 0 <= w < n ==> pairs[w].1 == w && pairs[w].0 < n)
    && (forall w1, w2 :: 0 <= w1 < n && 0 <= w2 < n && pairs[w1].0 == pairs[w2].0 ==> w1 == w2)
    && (forall m :: 0 <= m < n ==> IsMarried(pairs, m))
  }

  /** Man m occurs in some pair. */
  predicate IsMarried(pairs: seq<(Man, Woman)>, m: Man) {
    exists w :: 0 <= w < |pairs| && pairs[w].0 == m
  }

  /** The owner of preference list `row` ranks `x` strictly above `y`. */
  predicate Prefers(row: seq<nat>, x: nat, y: nat) {
    Position(row, x) < Position(row, y)
  }

  /** The man married to woman w1 and the woman w2 both prefer each other to
      their partners. */
  predicate IsBlockingPair(men: seq<seq<Woman>>, women: seq<seq<Man>>, pairs: seq<(Man, Woman)>, w1: Woman, w2: Woman)
    requires |women| == |men| && IsPerfectMatching(pairs, |men|)
    requires w1 < |men| && w2 < |men|
  {
    var m := pairs[w1].0;
    Prefers(men[m], w2, w1) && Prefers(women[w2], m, pairs[w2].0)
  }

  /** No blocking pair exists. */
  predicate IsStable(men: seq<seq<Woman>>, women: seq<seq<Man>>, pairs: seq<(Man, Woman)>)
    requires |women| == |men| && IsPerfectMatching(pairs, |men|)
  {
    forall w1, w2 :: 0 <= w1 < |men| && 0 <= w2 < |men| ==> !IsBlockingPair(men, women, pairs, w1, w2)
  }
}
