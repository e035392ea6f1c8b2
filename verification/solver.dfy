/** The two drivers of the engine: `find_stable_marriage`, which runs rounds
    to quiescence and reads the engagements back, and
    `has_stable_mariage_with`, which tracks one pair and may stop early. */
module Solver {
  import opened Wrappers
  import opened Perm
  import opened Engine
  import opened Marriage
  import opened Invariants

  /** The matching a fresh engine reaches on a valid instance: N pairs in
      woman order, every man and woman once, no blocking pair. */
  function SolvedMatching(men: seq<seq<Woman>>, women: seq<seq<Man>>): (pairs: seq<(Man, Woman)>)
    requires ValidInstance(men, women)
    ensures Init(men, women).Some? && RunToEnd(Init(men, women).value).Some?
    ensures Matching(RunToEnd(Init(men, women).value).value.engagement) == Some(pairs)
    ensures IsPerfectMatching(pairs, |men|)
    ensures IsStable(men, women, pairs)
  {
    InitEstablishesInvariant(men, women);
    var s := Init(men, women).value;
    RunPreservesInvariant(men, women, s);
    var f := RunToEnd(s).value;
    QuiescentIsStableMatching(men, women, f);
    Matching(f.engagement).value
  }

  /** Runs rounds until none remains, then reads the engagements back as
      `(man, woman)` pairs in woman order. `post` is the engine as the run
      leaves it (the source mutates `self`); `rounds` counts the rounds run. */
  method FindStableMarriage(s: State, ghost men: seq<seq<Woman>>, ghost women: seq<seq<Man>>)
    returns (pairs: seq<(Man, Woman)>, post: State, ghost rounds: nat)
    requires Invariant(men, women, s)
    ensures RunToEnd(s) == Some(post) && Matching(post.engagement) == Some(pairs)
    ensures IsPerfectMatching(pairs, |men|)
    ensures IsStable(men, women, pairs)
    ensures rounds <= |men| * |men|
  {
    var n := |men|;
    TotalPrefsBound(s.menPrefs, n);
    RunPreservesInvariant(men, women, s);
    var cur := s;
    rounds := 0;
    while true
      invariant Invariant(men, women, cur)
      invariant RunToEnd(cur) == RunToEnd(s)
      invariant rounds + TotalPrefs(cur.menPrefs) == TotalPrefs(s.menPrefs)
      decreases TotalPrefs(cur.menPrefs)
    {
      FreeMenHavePreferences(men, women, cur);
      var r := NextEngagementRound(cur);
      if r.Stable? {
        break;
      }
      StepPreservesInvariant(men, women, cur);
      cur := r.next;
      rounds := rounds + 1;
    }
    QuiescentIsStableMatching(men, women, cur);
    pairs := Matching(cur.engagement).value;
    post := cur;
  }

  /** In a matching read back in woman order, `(man, woman)` is a pair
      exactly when the woman is engaged to the man. */
  lemma PairInMatching(e: seq<Option<Man>>, man: Man, woman: Woman)
    requires Matching(e).Some? && woman < |e|
    ensures (man, woman) in Matching(e).value <==> e[woman] == Some(man)
  {
    var pairs := Matching(e).value;
    if (man, woman) in pairs {
      var i :| 0 <= i < |pairs| && pairs[i] == (man, woman);
    }
    if e[woman] == Some(man) {
      assert pairs[woman] == (man, woman);
    }
  }

  /** Once a woman leaves a man in some round, the run never ends with her
      engaged to him again: she leaves only for a man she ranks strictly
      better, and her partner never gets worse afterwards. */
  lemma LeftNeverReturns(s: State, man: Man, woman: Woman)
    requires WellFormed(s) && woman < |s.engagement| && s.engagement[woman] == Some(man)
    requires NextEngagementRound(s).Proposed?
    requires NextEngagementRound(s).next.engagement[woman] != Some(man)
    requires RunToEnd(NextEngagementRound(s).next).Some?
    ensures RunToEnd(NextEngagementRound(s).next).value.engagement[woman] != Some(man)
  {
    var r := NextEngagementRound(s);
    assert r.woman == woman;
    assert s.womenRank[woman][r.next.engagement[woman].value] < s.womenRank[woman][man];
  }

  /** Whether `(man, woman)` is a pair of the matching `find_stable_marriage`
      would return from this state. The loop stops early once the woman has
      held the man and then left him; `post` is the engine as the loop leaves
      it, possibly part-run, on the way to the same final state. */
  method HasStableMarriageWith(s: State, ghost men: seq<seq<Woman>>, ghost women: seq<seq<Man>>, man: Man, woman: Woman)
    returns (b: bool, post: State)
    requires Invariant(men, women, s) && woman < |men|
    ensures RunToEnd(s).Some? && Matching(RunToEnd(s).value.engagement).Some?
    ensures b <==> (man, woman) in Matching(RunToEnd(s).value.engagement).value
    ensures Invariant(men, women, post) && RunToEnd(post) == RunToEnd(s)
    ensures TotalPrefs(post.menPrefs) <= TotalPrefs(s.menPrefs)
    ensures b ==> post == RunToEnd(s).value
  {
    RunPreservesInvariant(men, women, s);
    var f := RunToEnd(s).value;
    QuiescentIsStableMatching(men, women, f);
    PairInMatching(f.engagement, man, woman);
    var cur := s;
    var wasEngaged := cur.engagement[woman] == Some(man);
    while true
      invariant Invariant(men, women, cur)
      invariant RunToEnd(cur) == Some(f)
      invariant TotalPrefs(cur.menPrefs) <= TotalPrefs(s.menPrefs)
      invariant wasEngaged <==> cur.engagement[woman] == Some(man)
      decreases TotalPrefs(cur.menPrefs)
    {
      FreeMenHavePreferences(men, women, cur);
      var r := NextEngagementRound(cur);
      if r.Stable? {
        return wasEngaged, cur;
      }
      StepPreservesInvariant(men, women, cur);
      var prev := cur;
      cur := r.next;
      if cur.engagement[woman] == Some(man) {
        wasEngaged := true;
      } else if wasEngaged {
        LeftNeverReturns(prev, man, woman);
        return false, cur;
      }
    }
  }
}
