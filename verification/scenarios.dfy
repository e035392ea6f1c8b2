/** The concrete instances of the source's tests, worked through the model. */
module Scenarios {
  import opened Wrappers
  import opened Perm
  import opened RankMatrix
  import opened Engine
  import opened Invariants
  import opened Solver

  /** The inverse of one concrete permutation row. */
  lemma InvertRowExample(row: seq<nat>, inv: seq<nat>)
    requires IsPermutation(row) && |inv| == |row|
    requires forall i :: 0 <= i < |row| ==> inv[row[i]] == i
    ensures InvertRow(row) == Some(inv)
  {
    InvertPermutation(row);
    var r := InvertRow(row).value;
    forall x | 0 <= x < |row|
      ensures r[x] == inv[x]
    {
      PermutationCovers(row, x);
      var i := Position(row, x);
      assert r[row[i]] == i == inv[row[i]];
    }
    assert r == inv;
  }

  /** The women's transform is determined row by row. */
  lemma WomenPreferencesByRows(p: seq<seq<nat>>, q: seq<seq<nat>>)
    requires |q| == |p|
    requires forall w :: 0 <= w < |p| ==> |p[w]| == |p| && InvertRow(p[w]) == Some(q[w])
    ensures MakeWomenPreferences(p) == Some(q)
  {
    var r := MakeWomenPreferences(p);
    assert r.Some?;
    forall w | 0 <= w < |p|
      ensures r.value[w] == q[w]
    {
      assert InvertRow(p[w]) == Some(r.value[w]);
    }
    assert r.value == q;
  }

  /** A concrete reversal. */
  lemma ReverseExample(row: seq<nat>, rev: seq<nat>)
    requires |rev| == |row| && forall i :: 0 <= i < |row| ==> rev[|row| - 1 - i] == row[i]
    ensures Reverse(row) == rev
  {
    var r := Reverse(row);
    forall k | 0 <= k < |row|
      ensures r[k] == rev[k]
    {
      assert r[|row| - 1 - (|row| - 1 - k)] == row[|row| - 1 - k];
    }
  }

  /** The men's transform is determined row by row. */
  lemma MenPreferencesByRows(p: seq<seq<nat>>, q: seq<seq<nat>>)
    requires |q| == |p|
    requires forall m :: 0 <= m < |p| ==> |p[m]| == |p| && Reverse(p[m]) == q[m]
    ensures MakeMenPreferences(p) == Some(q)
  {
    assert RowsHaveLength(p, |p|);
    var r := ReverseRows(p, |p|);
    assert r.Some?;
    forall m | 0 <= m < |p|
      ensures r.value[m] == q[m]
    {
      assert r.value[m] == Reverse(p[m]);
    }
    assert r.value == q;
  }

  /** The engine built from a valid instance, given its transformed matrices. */
  lemma InitIs(men: seq<seq<nat>>, women: seq<seq<nat>>, mp: seq<seq<nat>>, wr: seq<seq<nat>>, free: seq<Man>, none: seq<Option<Man>>)
    requires |men| == |women|
    requires MakeMenPreferences(men) == Some(mp) && MakeWomenPreferences(women) == Some(wr)
    requires |free| == |men| && forall i :: 0 <= i < |free| ==> free[i] + i + 1 == |men|
    requires |none| == |men| && forall w :: 0 <= w < |none| ==> none[w] == None
    ensures Init(men, women) == Some(State(free, mp, wr, none))
  {
    var s := Init(men, women).value;
    assert s.freeMen == free by {
      forall i | 0 <= i < |free|
        ensures s.freeMen[i] == free[i]
      {
      }
    }
    assert s.engagement == none;
  }

  /** A proposal to a free woman, worked out: she takes the top free man, who
      leaves the free stack and loses her from his list. */
  lemma RoundAccepts(s: State, m: Man, w: Woman, t: State)
    requires WellFormed(s) && |s.freeMen| > 0 && Top(s) == m
    requires BestWomanFor(s, m) == Some(w) && w < |s.engagement| && s.engagement[w].None?
    requires |t.menPrefs| == |s.menPrefs| && t.menPrefs[m] + [w] == s.menPrefs[m]
    requires forall j :: 0 <= j < |s.menPrefs| && j != m ==> t.menPrefs[j] == s.menPrefs[j]
    requires t.womenRank == s.womenRank
    requires t.engagement == s.engagement[w := Some(m)]
    requires t.freeMen == s.freeMen[..|s.freeMen| - 1]
    ensures NextEngagementRound(s) == Proposed(m, w, t)
  {
    RoundFields(s, m, w, t);
  }

  /** A proposal to an engaged woman who ranks the proposer better: the
      displaced partner takes the proposer's place on top of the free stack. */
  lemma RoundDisplaces(s: State, m: Man, w: Woman, m2: Man, t: State)
    requires WellFormed(s) && |s.freeMen| > 0 && Top(s) == m
    requires BestWomanFor(s, m) == Some(w) && w < |s.engagement| && s.engagement[w] == Some(m2)
    requires s.womenRank[w][m] < s.womenRank[w][m2]
    requires |t.menPrefs| == |s.menPrefs| && t.menPrefs[m] + [w] == s.menPrefs[m]
    requires forall j :: 0 <= j < |s.menPrefs| && j != m ==> t.menPrefs[j] == s.menPrefs[j]
    requires t.womenRank == s.womenRank
    requires t.engagement == s.engagement[w := Some(m)]
    requires t.freeMen == s.freeMen[..|s.freeMen| - 1] + [m2]
    ensures NextEngagementRound(s) == Proposed(m, w, t)
  {
    RoundFields(s, m, w, t);
  }

  /** Whatever the case, a round is fixed by its man, woman and new fields. */
  lemma RoundFields(s: State, m: Man, w: Woman, t: State)
    requires WellFormed(s) && |s.freeMen| > 0 && Top(s) == m && BestWomanFor(s, m) == Some(w) && w < |s.engagement|
    requires m < |s.menPrefs| && |t.menPrefs| == |s.menPrefs| && t.menPrefs[m] + [w] == s.menPrefs[m]
    requires forall j :: 0 <= j < |s.menPrefs| && j != m ==> t.menPrefs[j] == s.menPrefs[j]
    requires t.womenRank == s.womenRank
    requires var r := NextEngagementRound(s); r.Proposed? ==> r.next.engagement == t.engagement && r.next.freeMen == t.freeMen
    ensures NextEngagementRound(s) == Proposed(m, w, t)
  {
    var r := NextEngagementRound(s);
    assert r.Proposed? && r.man == m && r.woman == w;
    var q := r.next.menPrefs;
    assert |q| == |t.menPrefs|;
    forall j | 0 <= j < |q|
      ensures q[j] == t.menPrefs[j]
    {
      if j == m {
        assert q[m] == (q[m] + [w])[..|q[m]|];
        assert t.menPrefs[m] == (t.menPrefs[m] + [w])[..|t.menPrefs[m]|];
      }
    }
    assert q == t.menPrefs;
  }

  /** A run goes through each round it takes. */
  lemma RunThrough(s: State, m: Man, w: Woman, t: State)
    requires WellFormed(s) && NextEngagementRound(s) == Proposed(m, w, t)
    ensures WellFormed(t) && RunToEnd(s) == RunToEnd(t)
  {
  }

  /** A run ends where no man is free. */
  lemma RunDone(s: State)
    requires WellFormed(s) && |s.freeMen| == 0
    ensures RunToEnd(s) == Some(s)
  {
  }

  /** The solved matching of a valid instance, given its run's final state. */
  lemma SolvedIs(men: seq<seq<nat>>, women: seq<seq<nat>>, s: State, f: State, pairs: seq<(Man, Woman)>)
    requires ValidInstance(men, women) && Init(men, women) == Some(s)
    requires WellFormed(s) && RunToEnd(s) == Some(f) && Matching(f.engagement) == Some(pairs)
    ensures SolvedMatching(men, women) == pairs
  {
  }

  /** Engagements read back, given the pairs they should give. */
  lemma MatchingIs(e: seq<Option<Man>>, pairs: seq<(Man, Woman)>)
    requires |pairs| == |e|
    requires forall w :: 0 <= w < |pairs| ==> e[w] == Some(pairs[w].0) && pairs[w].1 == w
    ensures Matching(e) == Some(pairs)
  {
    var r := Matching(e);
    assert r.Some?;
    assert r.value == pairs;
  }

  // The single-man, single-woman instance.

  const Men1: seq<seq<nat>> := [[0]]
  const Women1: seq<seq<nat>> := [[0]]
  const Start1 := State([0], [[0]], [[0]], [None])
  const Final1 := State([], [[]], [[0]], [Some(0)])

  lemma Valid1x1()
    ensures ValidInstance(Men1, Women1)
  {
    assert IsPermutation(Men1[0]);
  }

  lemma MenPreferences1x1()
    ensures MakeMenPreferences(Men1) == Some([[0]])
  {
    ReverseExample(Men1[0], [0]);
    MenPreferencesByRows(Men1, [[0]]);
  }

  lemma WomenPreferences1x1()
    ensures MakeWomenPreferences(Women1) == Some([[0]])
  {
    InvertRowExample(Women1[0], [0]);
    WomenPreferencesByRows(Women1, [[0]]);
  }

  lemma Init1x1()
    ensures Init(Men1, Women1) == Some(Start1)
  {
    MenPreferences1x1();
    WomenPreferences1x1();
    InitOfOne(Men1, Women1);
  }

  /** Any one-by-one instance whose transforms give `[[0]]` starts at `Start1`. */
  lemma InitOfOne(men: seq<seq<nat>>, women: seq<seq<nat>>)
    requires |men| == |women|
    requires MakeMenPreferences(men) == Some([[0]]) && MakeWomenPreferences(women) == Some([[0]])
    ensures Init(men, women) == Some(Start1)
  {
    InitIs(men, women, [[0]], [[0]], [0], [None]);
  }

  /** The only man proposes to the only woman, who is free. */
  lemma Round1x1()
    ensures WellFormed(Start1) && NextEngagementRound(Start1) == Proposed(0, 0, Final1)
  {
    RoundAccepts(Start1, 0, 0, Final1);
  }

  lemma Done1x1()
    ensures RunToEnd(Final1) == Some(Final1)
  {
    RunDone(Final1);
  }

  lemma Run1x1()
    ensures WellFormed(Start1) && RunToEnd(Start1) == Some(Final1)
  {
    Round1x1();
    Done1x1();
    RunThrough(Start1, 0, 0, Final1);
  }

  lemma Matching1x1()
    ensures Matching(Final1.engagement) == Some([(0, 0)])
  {
    MatchingIs(Final1.engagement, [(0, 0)]);
  }

  lemma Solved1x1()
    ensures ValidInstance(Men1, Women1) && Init(Men1, Women1) == Some(Start1)
    ensures RunToEnd(Start1) == Some(Final1) && Matching(Final1.engagement) == Some([(0, 0)])
    ensures SolvedMatching(Men1, Women1) == [(0, 0)]
  {
    Valid1x1();
    Init1x1();
    Run1x1();
    Matching1x1();
    SolvedIs(Men1, Women1, Start1, Final1, [(0, 0)]);
  }

  // Both men prefer woman 0 and both women prefer man 1.

  const Men2: seq<seq<nat>> := [[0, 1], [0, 1]]
  const Women2: seq<seq<nat>> := [[1, 0], [1, 0]]
  const Rank2: seq<seq<nat>> := [[1, 0], [1, 0]]
  const Start2 := State([1, 0], [[1, 0], [1, 0]], Rank2, [None, None])
  const Second2 := State([1], [[1], [1, 0]], Rank2, [Some(0), None])
  const Third2 := State([0], [[1], [1]], Rank2, [Some(1), None])
  const Final2 := State([], [[], [1]], Rank2, [Some(1), Some(0)])

  lemma Valid2x2()
    ensures ValidInstance(Men2, Women2)
  {
    assert IsPermutation(Men2[0]) && IsPermutation(Men2[1]);
    assert IsPermutation(Women2[0]) && IsPermutation(Women2[1]);
  }

  lemma MenPreferences2x2()
    ensures MakeMenPreferences(Men2) == Some([[1, 0], [1, 0]])
  {
    ReverseExample(Men2[0], [1, 0]);
    ReverseExample(Men2[1], [1, 0]);
    MenPreferencesByRows(Men2, [[1, 0], [1, 0]]);
  }

  lemma WomenPreferences2x2()
    ensures MakeWomenPreferences(Women2) == Some(Rank2)
  {
    InvertRowExample(Women2[0], Rank2[0]);
    InvertRowExample(Women2[1], Rank2[1]);
    WomenPreferencesByRows(Women2, Rank2);
  }

  lemma Init2x2()
    ensures Init(Men2, Women2) == Some(Start2)
  {
    MenPreferences2x2();
    WomenPreferences2x2();
    InitIs(Men2, Women2, [[1, 0], [1, 0]], Rank2, [1, 0], [None, None]);
  }

  /** Man 0 proposes to woman 0, who is free. */
  lemma Round2x2First()
    ensures WellFormed(Start2) && NextEngagementRound(Start2) == Proposed(0, 0, Second2)
  {
    RoundAccepts(Start2, 0, 0, Second2);
  }

  /** Man 1 proposes to woman 0, who leaves man 0 for him. */
  lemma Round2x2Second()
    ensures WellFormed(Second2) && NextEngagementRound(Second2) == Proposed(1, 0, Third2)
  {
    RoundDisplaces(Second2, 1, 0, 0, Third2);
  }

  /** Man 0 proposes to woman 1, who is free. */
  lemma Round2x2Third()
    ensures WellFormed(Third2) && NextEngagementRound(Third2) == Proposed(0, 1, Final2)
  {
    RoundAccepts(Third2, 0, 1, Final2);
  }

  lemma Done2x2()
    ensures RunToEnd(Final2) == Some(Final2)
  {
    RunDone(Final2);
  }

  lemma Run2x2FromThird()
    ensures WellFormed(Third2) && RunToEnd(Third2) == Some(Final2)
  {
    Round2x2Third();
    Done2x2();
    RunThrough(Third2, 0, 1, Final2);
  }

  lemma Run2x2FromSecond()
    ensures WellFormed(Second2) && RunToEnd(Second2) == Some(Final2)
  {
    Round2x2Second();
    RunThrough(Second2, 1, 0, Third2);
    Run2x2FromThird();
  }

  lemma Run2x2()
    ensures WellFormed(Start2) && RunToEnd(Start2) == Some(Final2)
  {
    Round2x2First();
    RunThrough(Start2, 0, 0, Second2);
    Run2x2FromSecond();
  }

  lemma Matching2x2()
    ensures Matching(Final2.engagement) == Some([(1, 0), (0, 1)])
  {
    MatchingIs(Final2.engagement, [(1, 0), (0, 1)]);
  }

  lemma Solved2x2()
    ensures ValidInstance(Men2, Women2) && Init(Men2, Women2) == Some(Start2)
    ensures RunToEnd(Start2) == Some(Final2) && Matching(Final2.engagement) == Some([(1, 0), (0, 1)])
    ensures SolvedMatching(Men2, Women2) == [(1, 0), (0, 1)]
  {
    Valid2x2();
    Init2x2();
    Run2x2();
    Matching2x2();
    SolvedIs(Men2, Women2, Start2, Final2, [(1, 0), (0, 1)]);
  }

  // The three-by-three instance of the source's tests.

  const Men3: seq<seq<nat>> := [[0, 1, 2], [2, 1, 0], [1, 2, 0]]
  const Women3: seq<seq<nat>> := [[0, 2, 1], [2, 1, 0], [2, 0, 1]]
  const Stacks3: seq<seq<nat>> := [[2, 1, 0], [0, 1, 2], [0, 2, 1]]
  const Rank3: seq<seq<nat>> := [[0, 2, 1], [2, 1, 0], [1, 2, 0]]
  const Start3 := State([2, 1, 0], Stacks3, Rank3, [None, None, None])
  const Second3 := State([2, 1], [[2, 1], [0, 1, 2], [0, 2, 1]], Rank3, [Some(0), None, None])
  const Third3 := State([2], [[2, 1], [0, 1], [0, 2, 1]], Rank3, [Some(0), None, Some(1)])
  const Final3 := State([], [[2, 1], [0, 1], [0, 2]], Rank3, [Some(0), Some(2), Some(1)])

  lemma Valid3x3()
    ensures ValidInstance(Men3, Women3)
  {
    assert IsPermutation(Men3[0]) && IsPermutation(Men3[1]) && IsPermutation(Men3[2]);
    assert IsPermutation(Women3[0]) && IsPermutation(Women3[1]) && IsPermutation(Women3[2]);
  }

  lemma MenPreferences3x3()
    ensures MakeMenPreferences(Men3) == Some(Stacks3)
  {
    ReverseExample(Men3[0], Stacks3[0]);
    ReverseExample(Men3[1], Stacks3[1]);
    ReverseExample(Men3[2], Stacks3[2]);
    MenPreferencesByRows(Men3, Stacks3);
  }

  lemma InvertRows3x3()
    ensures InvertRow(Women3[0]) == Some(Rank3[0])
    ensures InvertRow(Women3[1]) == Some(Rank3[1])
    ensures InvertRow(Women3[2]) == Some(Rank3[2])
  {
    InvertRowExample([0, 2, 1], [0, 2, 1]);
    InvertRowExample([2, 1, 0], [2, 1, 0]);
    InvertRowExample([2, 0, 1], [1, 2, 0]);
  }

  /** The women's transform on the instance the source documents. */
  lemma WomenPreferences3x3()
    ensures MakeWomenPreferences(Women3) == Some(Rank3)
  {
    InvertRows3x3();
    WomenPreferencesByRows(Women3, Rank3);
  }

  lemma Init3x3()
    ensures Init(Men3, Women3) == Some(Start3)
  {
    MenPreferences3x3();
    WomenPreferences3x3();
    InitIs(Men3, Women3, Stacks3, Rank3, [2, 1, 0], [None, None, None]);
  }

  /** Man 0 proposes to woman 0, who is free. */
  lemma Round3x3First()
    ensures WellFormed(Start3) && NextEngagementRound(Start3) == Proposed(0, 0, Second3)
  {
    RoundAccepts(Start3, 0, 0, Second3);
  }

  /** Man 1 proposes to woman 2, who is free. */
  lemma Round3x3Second()
    ensures WellFormed(Second3) && NextEngagementRound(Second3) == Proposed(1, 2, Third3)
  {
    RoundAccepts(Second3, 1, 2, Third3);
  }

  /** Man 2 proposes to woman 1, who is free. */
  lemma Round3x3Third()
    ensures WellFormed(Third3) && NextEngagementRound(Third3) == Proposed(2, 1, Final3)
  {
    RoundAccepts(Third3, 2, 1, Final3);
  }

  lemma Done3x3()
    ensures RunToEnd(Final3) == Some(Final3)
  {
    RunDone(Final3);
  }

  lemma Run3x3FromThird()
    ensures WellFormed(Third3) && RunToEnd(Third3) == Some(Final3)
  {
    Round3x3Third();
    Done3x3();
    RunThrough(Third3, 2, 1, Final3);
  }

  lemma Run3x3FromSecond()
    ensures WellFormed(Second3) && RunToEnd(Second3) == Some(Final3)
  {
    Round3x3Second();
    RunThrough(Second3, 1, 2, Third3);
    Run3x3FromThird();
  }

  lemma Run3x3()
    ensures WellFormed(Start3) && RunToEnd(Start3) == Some(Final3)
  {
    Round3x3First();
    RunThrough(Start3, 0, 0, Second3);
    Run3x3FromSecond();
  }

  lemma Matching3x3()
    ensures Matching(Final3.engagement) == Some([(0, 0), (2, 1), (1, 2)])
  {
    MatchingIs(Final3.engagement, [(0, 0), (2, 1), (1, 2)]);
  }

  lemma Solved3x3()
    ensures ValidInstance(Men3, Women3) && Init(Men3, Women3) == Some(Start3)
    ensures RunToEnd(Start3) == Some(Final3) && Matching(Final3.engagement) == Some([(0, 0), (2, 1), (1, 2)])
    ensures SolvedMatching(Men3, Women3) == [(0, 0), (2, 1), (1, 2)]
  {
    Valid3x3();
    Init3x3();
    Run3x3();
    Matching3x3();
    SolvedIs(Men3, Women3, Start3, Final3, [(0, 0), (2, 1), (1, 2)]);
  }

  /** The three `find_stable_marriage` tests, run through the method. */
  method FindStableMarriageTests() returns (p1: seq<(Man, Woman)>, p2: seq<(Man, Woman)>, p3: seq<(Man, Woman)>)
    ensures p1 == [(0, 0)]
    ensures p2 == [(1, 0), (0, 1)]
    ensures p3 == [(0, 0), (2, 1), (1, 2)]
  {
    ghost var rounds: nat;
    var post: State;
    Solved1x1();
    InitEstablishesInvariant(Men1, Women1);
    p1, post, rounds := FindStableMarriage(Start1, Men1, Women1);
    Solved2x2();
    InitEstablishesInvariant(Men2, Women2);
    p2, post, rounds := FindStableMarriage(Start2, Men2, Women2);
    Solved3x3();
    InitEstablishesInvariant(Men3, Women3);
    p3, post, rounds := FindStableMarriage(Start3, Men3, Women3);
  }

  lemma Invariant2x2()
    ensures Invariant(Men2, Women2, Start2)
  {
    Valid2x2();
    Init2x2();
    InitEstablishesInvariant(Men2, Women2);
  }

  /** `has_stable_mariage_with` on a fresh 2x2 engine answers by the solved
      matching. */
  method HasStableMarriageWith2x2(man: Man, woman: Woman) returns (b: bool)
    requires woman < 2
    ensures b <==> (man, woman) in [(1, 0), (0, 1)]
  {
    Invariant2x2();
    Run2x2();
    Matching2x2();
    var post: State;
    b, post := HasStableMarriageWith(Start2, Men2, Women2, man, woman);
  }

  /** The `has_stable_mariage_with` tests, each on a fresh engine. */
  method HasStableMarriageWithTests() returns (b00: bool, b10: bool, b01: bool, b11: bool)
    ensures !b00 && b10 && b01 && !b11
  {
    b00 := HasStableMarriageWith2x2(0, 0);
    b10 := HasStableMarriageWith2x2(1, 0);
    b01 := HasStableMarriageWith2x2(0, 1);
    b11 := HasStableMarriageWith2x2(1, 1);
  }

  // A men's list holding a number that is no woman. The men's transform only
  // checks row lengths, so the engine is built all the same; what happens
  // next depends on whether the stray entry is ever popped.

  const MenStray: seq<seq<nat>> := [[0, 5], [1, 0]]
  const MenStrayFirst: seq<seq<nat>> := [[5, 0], [0, 1]]
  const WomenStray: seq<seq<nat>> := [[0, 1], [0, 1]]
  const RankStray: seq<seq<nat>> := [[0, 1], [0, 1]]
  const StartStray := State([1, 0], [[5, 0], [0, 1]], RankStray, [None, None])
  const SecondStray := State([1], [[5], [0, 1]], RankStray, [Some(0), None])
  const FinalStray := State([], [[5], [0]], RankStray, [Some(0), Some(1)])
  const StartStrayFirst := State([1, 0], [[0, 5], [1, 0]], RankStray, [None, None])

  /** A round whose man pops a number that is no woman panics, and so does
      the run. */
  lemma RoundPanics(s: State, m: Man, w: Woman)
    requires WellFormed(s) && |s.freeMen| > 0 && Top(s) == m
    requires BestWomanFor(s, m) == Some(w) && w >= |s.engagement|
    ensures NextEngagementRound(s) == NoSuchWoman(m, w)
    ensures RunToEnd(s) == None
  {
  }

  lemma WomenPreferencesStray()
    ensures MakeWomenPreferences(WomenStray) == Some(RankStray)
  {
    InvertRowExample(WomenStray[0], RankStray[0]);
    InvertRowExample(WomenStray[1], RankStray[1]);
    WomenPreferencesByRows(WomenStray, RankStray);
  }

  lemma InitStray()
    ensures Init(MenStray, WomenStray) == Some(StartStray)
  {
    ReverseExample(MenStray[0], [5, 0]);
    ReverseExample(MenStray[1], [0, 1]);
    MenPreferencesByRows(MenStray, [[5, 0], [0, 1]]);
    WomenPreferencesStray();
    InitIs(MenStray, WomenStray, [[5, 0], [0, 1]], RankStray, [1, 0], [None, None]);
  }

  lemma InitStrayFirst()
    ensures Init(MenStrayFirst, WomenStray) == Some(StartStrayFirst)
  {
    ReverseExample(MenStrayFirst[0], [0, 5]);
    ReverseExample(MenStrayFirst[1], [1, 0]);
    MenPreferencesByRows(MenStrayFirst, [[0, 5], [1, 0]]);
    WomenPreferencesStray();
    InitIs(MenStrayFirst, WomenStray, [[0, 5], [1, 0]], RankStray, [1, 0], [None, None]);
  }

  /** Man 0 proposes to woman 0, who is free. */
  lemma RoundStrayFirst()
    ensures WellFormed(StartStray) && NextEngagementRound(StartStray) == Proposed(0, 0, SecondStray)
  {
    RoundAccepts(StartStray, 0, 0, SecondStray);
  }

  /** Man 1 proposes to woman 1, who is free. */
  lemma RoundStraySecond()
    ensures WellFormed(SecondStray) && NextEngagementRound(SecondStray) == Proposed(1, 1, FinalStray)
  {
    RoundAccepts(SecondStray, 1, 1, FinalStray);
  }

  lemma DoneStray()
    ensures RunToEnd(FinalStray) == Some(FinalStray)
  {
    RunDone(FinalStray);
  }

  lemma RunStrayFromSecond()
    ensures WellFormed(SecondStray) && RunToEnd(SecondStray) == Some(FinalStray)
  {
    RoundStraySecond();
    DoneStray();
    RunThrough(SecondStray, 1, 1, FinalStray);
  }

  lemma RunStray()
    ensures WellFormed(StartStray) && RunToEnd(StartStray) == Some(FinalStray)
  {
    RoundStrayFirst();
    RunThrough(StartStray, 0, 0, SecondStray);
    RunStrayFromSecond();
  }

  lemma MatchingStray()
    ensures Matching(FinalStray.engagement) == Some([(0, 0), (1, 1)])
  {
    MatchingIs(FinalStray.engagement, [(0, 0), (1, 1)]);
  }

  /** Man 0 ranks "woman 5" last and is accepted by woman 0 before he gets
      there: the stray entry is never popped and the run succeeds. */
  lemma UnpoppedStrayEntry()
    ensures Init(MenStray, WomenStray) == Some(StartStray)
    ensures RunToEnd(StartStray) == Some(FinalStray)
    ensures Matching(FinalStray.engagement) == Some([(0, 0), (1, 1)])
  {
    InitStray();
    RunStray();
    MatchingStray();
  }

  /** Man 0 ranks "woman 5" first: the first round pops it and panics on the
      engagement table. */
  lemma PoppedStrayEntry()
    ensures Init(MenStrayFirst, WomenStray) == Some(StartStrayFirst)
    ensures NextEngagementRound(StartStrayFirst) == NoSuchWoman(0, 5)
    ensures RunToEnd(StartStrayFirst) == None
  {
    InitStrayFirst();
    RoundPanics(StartStrayFirst, 0, 5);
  }
}
