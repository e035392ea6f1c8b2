/** The invariant of the engine relative to the original preference lists,
    its preservation by a round, and what it gives at quiescence. */
module Invariants {
  import opened Wrappers
  import opened Perm
  import opened RankMatrix
  import opened Engine
  import opened Marriage

  /** Both sides give complete strict lists over the same N agents. */
  ghost predicate ValidInstance(men: seq<seq<Woman>>, women: seq<seq<Man>>) {
    IsPrefMatrix(men) && IsPrefMatrix(women) && |men| == |women|
  }

  ghost predicate Shape(men: seq<seq<Woman>>, women: seq<seq<Man>>, s: State) {
    ValidInstance(men, women) && WellFormed(s) && |s.engagement| == |men|
  }

  /** The number of engaged women. */
  function CountEngaged(e: seq<Option<Man>>): (c: nat)
    ensures c <= |e|
    ensures c == |e| <==> forall w :: 0 <= w < |e| ==> e[w].Some?
    ensures c == 0 <==> forall w :: 0 <= w < |e| ==> e[w].None?
  {
    if |e| == 0 then 0 else (if e[0].Some? then 1 else 0) + CountEngaged(e[1..])
  }

  lemma {:induction false} CountEngagedUpdate(e: seq<Option<Man>>, w: nat, m: Man)
    requires w < |e|
    ensures CountEngaged(e[w := Some(m)]) == CountEngaged(e) + (if e[w].None? then 1 else 0)
  {
    if w == 0 {
      assert e[w := Some(m)][1..] == e[1..];
    } else {
      assert e[w := Some(m)][1..] == e[1..][w - 1 := Some(m)];
      CountEngagedUpdate(e[1..], w - 1, m);
    }
  }

  /** The number of proposals man m has made so far. */
  function Made(men: seq<seq<Woman>>, s: State, m: Man): nat
    requires m < |s.menPrefs| && |s.menPrefs[m]| <= |men|
  {
    |men| - |s.menPrefs[m]|
  }

  /** The rank tables are the women's lists inverted. */
  ghost predicate RanksMatch(men: seq<seq<Woman>>, women: seq<seq<Man>>, s: State)
    requires Shape(men, women, s)
  {
    forall w, m :: 0 <= w < |men| && 0 <= m < |men| ==> s.womenRank[w][m] == Position(women[w], m)
  }

  /** Each man's stack is his list minus the women he has proposed to,
      reversed: what he popped is exactly a prefix of his list. */
  ghost predicate StacksAreSuffixes(men: seq<seq<Woman>>, women: seq<seq<Man>>, s: State)
    requires Shape(men, women, s)
  {
    var n := |men|;
    (forall m :: 0 <= m < n ==> |s.menPrefs[m]| <= n)
    && (forall m, i :: 0 <= m < n && 0 <= i < |s.menPrefs[m]| ==> s.menPrefs[m][i] == men[m][n - 1 - i])
  }

  /** The free stack holds, once each, exactly the men nobody is engaged to. */
  ghost predicate FreeStackExact(men: seq<seq<Woman>>, women: seq<seq<Man>>, s: State)
    requires Shape(men, women, s)
  {
    Distinct(s.freeMen)
    && forall m: nat :: m < |men| ==> (m in s.freeMen <==> Some(m) !in s.engagement)
  }

  /** No man is engaged to two women. */
  ghost predicate EngagementInjective(s: State) {
    forall w1, w2 ::
      0 <= w1 < |s.engagement| && 0 <= w2 < |s.engagement| && s.engagement[w1].Some? && s.engagement[w1] == s.engagement[w2]
      ==> w1 == w2
  }

  /** An engaged man is engaged to the last woman he proposed to. */
  ghost predicate PartnerIsLastProposal(men: seq<seq<Woman>>, women: seq<seq<Man>>, s: State)
    requires Shape(men, women, s) && StacksAreSuffixes(men, women, s)
  {
    forall w :: 0 <= w < |men| && s.engagement[w].Some? ==>
      0 < Made(men, s, s.engagement[w].value)
      && men[s.engagement[w].value][Made(men, s, s.engagement[w].value) - 1] == w
  }

  /** Every woman a man has proposed to is engaged, to a man she ranks at
      least as well as him. */
  ghost predicate ProposedAreHeld(men: seq<seq<Woman>>, women: seq<seq<Man>>, s: State)
    requires Shape(men, women, s) && StacksAreSuffixes(men, women, s)
  {
    forall m, j :: 0 <= m < |men| && 0 <= j < Made(men, s, m) ==>
      s.engagement[men[m][j]].Some?
      && s.womenRank[men[m][j]][s.engagement[men[m][j]].value] <= s.womenRank[men[m][j]][m]
  }

  /** The engine invariant for the instance `(men, women)`. */
  ghost predicate Invariant(men: seq<seq<Woman>>, women: seq<seq<Man>>, s: State) {
    Shape(men, women, s)
    && RanksMatch(men, women, s)
    && StacksAreSuffixes(men, women, s)
    && FreeStackExact(men, women, s)
    && EngagementInjective(s)
    && PartnerIsLastProposal(men, women, s)
    && ProposedAreHeld(men, women, s)
    && |s.freeMen| + CountEngaged(s.engagement) == |men|
  }

  /** Man m, on top of the free stack, proposed to woman w and the engine
      moved from `s` to `t`. */
  ghost predicate Proposal(s: State, m: Man, w: Woman, t: State)
  {
    WellFormed(s) && |s.freeMen| > 0 && m == Top(s)
    && m < |s.engagement| && w < |s.engagement|
    && BestWomanFor(s, m) == Some(w)
    && ProposalOutcome(s, m, w, t)
  }

  lemma RoundIsProposal(s: State)
    requires WellFormed(s) && NextEngagementRound(s).Proposed?
    ensures Proposal(s, NextEngagementRound(s).man, NextEngagementRound(s).woman, NextEngagementRound(s).next)
  {
  }

  /** A freshly built engine satisfies the invariant. */
  lemma InitEstablishesInvariant(men: seq<seq<Woman>>, women: seq<seq<Man>>)
    requires ValidInstance(men, women)
    ensures Init(men, women).Some?
    ensures Invariant(men, women, Init(men, women).value)
  {
    var n := |men|;
    assert RowsHaveLength(men, n);
    var s := Init(men, women).value;
    InitShape(men, women);
    InitRanks(men, women);
    InitFree(men, women);
    assert CountEngaged(s.engagement) == 0;
  }

  lemma InitShape(men: seq<seq<Woman>>, women: seq<seq<Man>>)
    requires ValidInstance(men, women)
    ensures Init(men, women).Some?
    ensures Shape(men, women, Init(men, women).value)
    ensures StacksAreSuffixes(men, women, Init(men, women).value)
  {
    MenStacksReverseLists(men);
    WomenPreferencesAreRanks(women);
    var s := Init(men, women).value;
    assert WellFormed(s);
  }

  /** The men's stacks are their lists reversed, so they hold women only. */
  lemma MenStacksReverseLists(men: seq<seq<Woman>>)
    requires IsPrefMatrix(men)
    ensures MakeMenPreferences(men).Some?
    ensures var mp := MakeMenPreferences(men).value;
      forall m, i :: 0 <= m < |men| && 0 <= i < |men| ==> mp[m][i] == men[m][|men| - 1 - i]
    ensures forall m :: 0 <= m < |men| ==> InRange(MakeMenPreferences(men).value[m], |men|)
  {
    var n := |men|;
    assert RowsHaveLength(men, n);
    var mp := MakeMenPreferences(men).value;
    forall m, i | 0 <= m < n && 0 <= i < n
      ensures mp[m][i] == men[m][n - 1 - i]
    {
      assert mp[m][n - 1 - (n - 1 - i)] == men[m][n - 1 - i];
    }
    forall m | 0 <= m < n
      ensures InRange(mp[m], n)
    {
      forall i | 0 <= i < n
        ensures mp[m][i] < n
      {
        assert mp[m][i] == men[m][n - 1 - i];
      }
    }
  }

  lemma InitRanks(men: seq<seq<Woman>>, women: seq<seq<Man>>)
    requires ValidInstance(men, women) && Init(men, women).Some?
    requires Shape(men, women, Init(men, women).value)
    ensures RanksMatch(men, women, Init(men, women).value)
  {
    WomenPreferencesAreRanks(women);
  }

  lemma InitFree(men: seq<seq<Woman>>, women: seq<seq<Man>>)
    requires ValidInstance(men, women) && Init(men, women).Some?
    requires Shape(men, women, Init(men, women).value)
    ensures FreeStackExact(men, women, Init(men, women).value)
  {
  }

  /** The one-round invariant step. */
  lemma StepPreservesInvariant(men: seq<seq<Woman>>, women: seq<seq<Man>>, s: State)
    requires Invariant(men, women, s)
    requires NextEngagementRound(s).Proposed?
    ensures Invariant(men, women, NextEngagementRound(s).next)
  {
    var r := NextEngagementRound(s);
    RoundIsProposal(s);
    ProposalPreservesInvariant(men, women, s, r.man, r.woman, r.next);
  }

  lemma ProposalPreservesInvariant(men: seq<seq<Woman>>, women: seq<seq<Man>>, s: State, m: Man, w: Woman, t: State)
    requires Invariant(men, women, s) && Proposal(s, m, w, t)
    ensures Invariant(men, women, t)
  {
    ProposalShape(men, women, s, m, w, t);
    ProposalStacks(men, women, s, m, w, t);
    ProposalInjective(men, women, s, m, w, t);
    ProposalFreeStack(men, women, s, m, w, t);
    ProposalPartner(men, women, s, m, w, t);
    ProposalHeld(men, women, s, m, w, t);
    ProposalCount(men, women, s, m, w, t);
  }

  lemma ProposalShape(men: seq<seq<Woman>>, women: seq<seq<Man>>, s: State, m: Man, w: Woman, t: State)
    requires Shape(men, women, s) && RanksMatch(men, women, s) && Proposal(s, m, w, t)
    ensures Shape(men, women, t) && RanksMatch(men, women, t)
  {
  }

  /** The woman a man proposes to is the first of his list not yet tried. */
  lemma ProposalTarget(men: seq<seq<Woman>>, women: seq<seq<Man>>, s: State, m: Man, w: Woman, t: State)
    requires Shape(men, women, s) && StacksAreSuffixes(men, women, s) && Proposal(s, m, w, t)
    ensures 0 < |s.menPrefs[m]| && w == men[m][Made(men, s, m)]
  {
    var len := |s.menPrefs[m]|;
    assert w == s.menPrefs[m][len - 1];
  }

  lemma ProposalStacks(men: seq<seq<Woman>>, women: seq<seq<Man>>, s: State, m: Man, w: Woman, t: State)
    requires Shape(men, women, s) && StacksAreSuffixes(men, women, s) && Proposal(s, m, w, t)
    requires Shape(men, women, t)
    ensures StacksAreSuffixes(men, women, t)
    ensures Made(men, t, m) == Made(men, s, m) + 1
    ensures forall x :: 0 <= x < |men| && x != m ==> Made(men, t, x) == Made(men, s, x)
  {
    var n := |men|;
    forall x, i | 0 <= x < n && 0 <= i < |t.menPrefs[x]|
      ensures t.menPrefs[x][i] == men[x][n - 1 - i]
    {
      if x == m {
        assert t.menPrefs[x][i] == (t.menPrefs[x] + [w])[i];
      }
    }
  }

  lemma ProposalInjective(men: seq<seq<Woman>>, women: seq<seq<Man>>, s: State, m: Man, w: Woman, t: State)
    requires Shape(men, women, s) && FreeStackExact(men, women, s) && EngagementInjective(s)
    requires Proposal(s, m, w, t)
    ensures EngagementInjective(t)
  {
    assert s.freeMen[|s.freeMen| - 1] == m;
    assert Some(m) !in s.engagement;
    forall w1, w2 | 0 <= w1 < |t.engagement| && 0 <= w2 < |t.engagement|
      && t.engagement[w1].Some? && t.engagement[w1] == t.engagement[w2]
      ensures w1 == w2
    {
      if w1 != w && w2 != w {
        assert s.engagement[w1] == s.engagement[w2];
      } else if t.engagement == s.engagement {
      }
    }
  }

  lemma ProposalFreeStack(men: seq<seq<Woman>>, women: seq<seq<Man>>, s: State, m: Man, w: Woman, t: State)
    requires Shape(men, women, s) && FreeStackExact(men, women, s) && EngagementInjective(s)
    requires Proposal(s, m, w, t)
    ensures FreeStackExact(men, women, t)
  {
    var n := |men|;
    var k := |s.freeMen| - 1;
    assert s.freeMen[k] == m;
    assert s.freeMen == s.freeMen[..k] + [m];
    assert Some(m) !in s.engagement;
    assert m !in s.freeMen[..k];
    match s.engagement[w]
    case None =>
      assert t.engagement == s.engagement[w := Some(m)];
      forall x: nat | x < n
        ensures x in t.freeMen <==> Some(x) !in t.engagement
      {
        if x != m {
          SameMembership(s.engagement, t.engagement, w, Some(m), Some(x));
        } else {
          assert t.engagement[w] == Some(m);
        }
      }
    case Some(m2) =>
      if t.engagement != s.engagement {
        assert t.engagement == s.engagement[w := Some(m)];
        assert m2 !in s.freeMen;
        forall x: nat | x < n
          ensures x in t.freeMen <==> Some(x) !in t.engagement
        {
          if x == m {
            assert t.engagement[w] == Some(m);
          } else if x != m2 {
            SameMembership(s.engagement, t.engagement, w, Some(m), Some(x));
          }
        }
      }
  }

  /** Overwriting one entry with a value other than `x` does not change
      whether `x` occurs, unless the overwritten entry was `x`. */
  lemma SameMembership(e: seq<Option<Man>>, f: seq<Option<Man>>, w: nat, y: Option<Man>, x: Option<Man>)
    requires w < |e| && f == e[w := y] && x != y && x != e[w]
    ensures x in f <==> x in e
  {
    if x in f {
      var v :| 0 <= v < |f| && f[v] == x;
      assert e[v] == x;
    }
    if x in e {
      var v :| 0 <= v < |e| && e[v] == x;
      assert f[v] == x;
    }
  }

  lemma ProposalPartner(men: seq<seq<Woman>>, women: seq<seq<Man>>, s: State, m: Man, w: Woman, t: State)
    requires Shape(men, women, s) && StacksAreSuffixes(men, women, s) && PartnerIsLastProposal(men, women, s)
    requires FreeStackExact(men, women, s)
    requires Proposal(s, m, w, t) && Shape(men, women, t) && StacksAreSuffixes(men, women, t)
    ensures PartnerIsLastProposal(men, women, t)
  {
    forall v | 0 <= v < |men| && t.engagement[v].Some?
      ensures 0 < Made(men, t, t.engagement[v].value)
      ensures men[t.engagement[v].value][Made(men, t, t.engagement[v].value) - 1] == v
    {
      ProposalPartnerAt(men, women, s, m, w, t, v);
    }
  }

  /** The partner of woman v after the round proposed to her last. */
  lemma ProposalPartnerAt(men: seq<seq<Woman>>, women: seq<seq<Man>>, s: State, m: Man, w: Woman, t: State, v: Woman)
    requires Shape(men, women, s) && StacksAreSuffixes(men, women, s) && PartnerIsLastProposal(men, women, s)
    requires FreeStackExact(men, women, s)
    requires Proposal(s, m, w, t) && Shape(men, women, t) && StacksAreSuffixes(men, women, t)
    requires v < |men| && t.engagement[v].Some?
    ensures 0 < Made(men, t, t.engagement[v].value)
    ensures men[t.engagement[v].value][Made(men, t, t.engagement[v].value) - 1] == v
  {
    assert s.freeMen[|s.freeMen| - 1] == m;
    assert Some(m) !in s.engagement;
    ProposalTarget(men, women, s, m, w, t);
    ProposalStacks(men, women, s, m, w, t);
    if t.engagement[v].value != m {
      assert t.engagement[v] == s.engagement[v];
    }
  }

  lemma ProposalHeld(men: seq<seq<Woman>>, women: seq<seq<Man>>, s: State, m: Man, w: Woman, t: State)
    requires Shape(men, women, s) && StacksAreSuffixes(men, women, s) && ProposedAreHeld(men, women, s)
    requires Proposal(s, m, w, t) && Shape(men, women, t) && StacksAreSuffixes(men, women, t)
    ensures ProposedAreHeld(men, women, t)
  {
    ProposalTarget(men, women, s, m, w, t);
    ProposalStacks(men, women, s, m, w, t);
    forall x, j | 0 <= x < |men| && 0 <= j < Made(men, t, x)
      ensures t.engagement[men[x][j]].Some?
      ensures t.womenRank[men[x][j]][t.engagement[men[x][j]].value] <= t.womenRank[men[x][j]][x]
    {
      if x == m && j == Made(men, s, m) {
        assert men[x][j] == w;
      } else {
        assert j < Made(men, s, x);
      }
    }
  }

  lemma ProposalCount(men: seq<seq<Woman>>, women: seq<seq<Man>>, s: State, m: Man, w: Woman, t: State)
    requires Shape(men, women, s) && |s.freeMen| + CountEngaged(s.engagement) == |men|
    requires Proposal(s, m, w, t)
    ensures |t.freeMen| + CountEngaged(t.engagement) == |men|
  {
    if t.engagement != s.engagement {
      assert t.engagement == s.engagement[w := Some(m)];
      CountEngagedUpdate(s.engagement, w, m);
    }
  }

  /** A free man always has a woman left to propose to, so the source's
      "no more preferences" panic cannot happen: were his stack empty, he
      would have proposed to every woman, all of them would be engaged, and
      no man could be free. The woman on top of his stack comes from his
      list, so the out-of-bounds panic cannot happen either. */
  lemma FreeMenHavePreferences(men: seq<seq<Woman>>, women: seq<seq<Man>>, s: State)
    requires Invariant(men, women, s)
    ensures forall m :: m in s.freeMen ==> |s.menPrefs[m]| > 0
    ensures !NextEngagementRound(s).OutOfPreferences?
    ensures !NextEngagementRound(s).NoSuchWoman?
  {
    var n := |men|;
    forall m | m in s.freeMen
      ensures |s.menPrefs[m]| > 0
    {
      if |s.menPrefs[m]| == 0 {
        forall v | 0 <= v < n
          ensures s.engagement[v].Some?
        {
          PermutationCovers(men[m], v);
          var j := Position(men[m], v);
          assert j < Made(men, s, m);
        }
      }
    }
    if |s.freeMen| > 0 {
      var m := Top(s);
      assert m in s.freeMen;
      BestWomanIsNextInList(men, women, s, m);
      assert men[m][Made(men, s, m)] in men[m];
    }
  }

  /** The rank comparison agrees with the woman's own list: she prefers m1
      to m2 exactly when m1 comes first in it. */
  lemma WomanPrefersFollowsList(men: seq<seq<Woman>>, women: seq<seq<Man>>, s: State, w: Woman, m1: Man, m2: Man)
    requires Shape(men, women, s) && RanksMatch(men, women, s)
    requires w < |men| && m1 < |men| && m2 < |men|
    ensures WomanPrefers(s, w, m1, m2) <==> Prefers(women[w], m1, m2)
  {
  }

  /** The woman on top of a man's stack is the first one in his list he has
      not proposed to yet. */
  lemma BestWomanIsNextInList(men: seq<seq<Woman>>, women: seq<seq<Man>>, s: State, m: Man)
    requires Shape(men, women, s) && StacksAreSuffixes(men, women, s)
    requires m < |men| && |s.menPrefs[m]| > 0
    ensures BestWomanFor(s, m) == Some(men[m][Made(men, s, m)])
  {
    var k := |s.menPrefs[m]| - 1;
    assert s.menPrefs[m][k] == men[m][|men| - 1 - k];
  }

  /** At quiescence the engagements form a perfect matching without a
      blocking pair. */
  lemma QuiescentIsStableMatching(men: seq<seq<Woman>>, women: seq<seq<Man>>, s: State)
    requires Invariant(men, women, s) && |s.freeMen| == 0
    ensures Matching(s.engagement).Some?
    ensures IsPerfectMatching(Matching(s.engagement).value, |men|)
    ensures IsStable(men, women, Matching(s.engagement).value)
  {
    QuiescentIsPerfect(men, women, s);
    QuiescentHasNoBlockingPair(men, women, s);
  }

  lemma QuiescentIsPerfect(men: seq<seq<Woman>>, women: seq<seq<Man>>, s: State)
    requires Shape(men, women, s) && FreeStackExact(men, women, s) && EngagementInjective(s)
    requires |s.freeMen| + CountEngaged(s.engagement) == |men| && |s.freeMen| == 0
    ensures Matching(s.engagement).Some?
    ensures IsPerfectMatching(Matching(s.engagement).value, |men|)
  {
    var n := |men|;
    var e := s.engagement;
    assert forall w :: 0 <= w < n ==> e[w].Some?;
    var pairs := Matching(e).value;
    forall m | 0 <= m < n
      ensures IsMarried(pairs, m)
    {
      QuiescentManIsMarried(men, women, s, m);
    }
    forall w | 0 <= w < n
      ensures pairs[w].1 == w && pairs[w].0 < n
    {
    }
    forall w1, w2 | 0 <= w1 < n && 0 <= w2 < n && pairs[w1].0 == pairs[w2].0
      ensures w1 == w2
    {
      assert e[w1] == e[w2];
    }
  }

  /** With no man free, each man appears in the matching read back. */
  lemma QuiescentManIsMarried(men: seq<seq<Woman>>, women: seq<seq<Man>>, s: State, m: Man)
    requires Shape(men, women, s) && FreeStackExact(men, women, s)
    requires |s.freeMen| == 0 && Matching(s.engagement).Some? && m < |men|
    ensures IsMarried(Matching(s.engagement).value, m)
  {
    assert m !in s.freeMen;
    var w :| 0 <= w < |s.engagement| && s.engagement[w] == Some(m);
    assert Matching(s.engagement).value[w].0 == m;
  }

  lemma QuiescentHasNoBlockingPair(men: seq<seq<Woman>>, women: seq<seq<Man>>, s: State)
    requires Shape(men, women, s) && RanksMatch(men, women, s) && StacksAreSuffixes(men, women, s)
    requires PartnerIsLastProposal(men, women, s) && ProposedAreHeld(men, women, s)
    requires Matching(s.engagement).Some? && IsPerfectMatching(Matching(s.engagement).value, |men|)
    ensures IsStable(men, women, Matching(s.engagement).value)
  {
    var pairs := Matching(s.engagement).value;
    forall w1, w2 | 0 <= w1 < |men| && 0 <= w2 < |men|
      ensures !IsBlockingPair(men, women, pairs, w1, w2)
    {
      NoBlockingPairAt(men, women, s, w1, w2);
    }
  }

  /** The man married to w1 prefers w2 only if he proposed to her first, and
      she then kept a partner she ranks at least as well as him. */
  lemma NoBlockingPairAt(men: seq<seq<Woman>>, women: seq<seq<Man>>, s: State, w1: Woman, w2: Woman)
    requires Shape(men, women, s) && RanksMatch(men, women, s) && StacksAreSuffixes(men, women, s)
    requires PartnerIsLastProposal(men, women, s) && ProposedAreHeld(men, women, s)
    requires Matching(s.engagement).Some? && IsPerfectMatching(Matching(s.engagement).value, |men|)
    requires w1 < |men| && w2 < |men|
    ensures !IsBlockingPair(men, women, Matching(s.engagement).value, w1, w2)
  {
    var pairs := Matching(s.engagement).value;
    var m := pairs[w1].0;
    var m2 := pairs[w2].0;
    assert s.engagement[w1] == Some(m) && s.engagement[w2] == Some(m2);
    if Prefers(men[m], w2, w1) {
      var j := Position(men[m], w2);
      assert men[m][Made(men, s, m) - 1] == w1;
      assert j < Made(men, s, m);
      assert men[m][j] == w2;
      assert s.womenRank[w2][m2] <= s.womenRank[w2][m];
    }
  }

  /** Running to quiescence from an invariant state never panics and ends
      in an invariant state. */
  lemma {:induction false} RunPreservesInvariant(men: seq<seq<Woman>>, women: seq<seq<Man>>, s: State)
    requires Invariant(men, women, s)
    ensures RunToEnd(s).Some?
    ensures Invariant(men, women, RunToEnd(s).value)
    decreases TotalPrefs(s.menPrefs)
  {
    FreeMenHavePreferences(men, women, s);
    var r := NextEngagementRound(s);
    if r.Proposed? {
      StepPreservesInvariant(men, women, s);
      RunPreservesInvariant(men, women, r.next);
    }
  }
}
