/** The deferred-acceptance engine (the `GaleShapley` struct): its state, the
    small operations on it, one proposal round, and the run to quiescence. */
module Engine {
  import opened Wrappers
  import opened Perm
  import opened RankMatrix

  /** Men and women are dense indices in `[0, N)` (`usize` in the source). */
  type Man = nat
  type Woman = nat

  /** `freeMen` is a stack (top = last element). `menPrefs[m]` is man m's
      remaining list with his best remaining woman last. `womenRank[w][m]` is
      the rank of m in w's list (0 = best). `engagement[w]` is w's current
      partner, if any. */
  datatype State = State(
    freeMen: seq<Man>,
    menPrefs: seq<seq<Woman>>,
    womenRank: seq<seq<nat>>,
    engagement: seq<Option<Man>>)

  /** The outcome of one round: no man is free (`None` in the source), a man
      proposed to a woman, the free man on top had no woman left to propose
      to (the source's "no more preferences" panic), or the woman he popped
      is no index of a woman (the source's out-of-bounds panic on
      `women_engagement[w]`; the men's transform checks row lengths only, so
      such an entry can reach the engine). */
  datatype Round =
    | Stable
    | Proposed(man: Man, woman: Woman, next: State)
    | OutOfPreferences
    | NoSuchWoman(man: Man, woman: Woman)

  /** The engine's tables agree in size (N = number of women), and every man
      it stores is below N. The men's stacks may hold any number: the source
      never checks them, and a round reports an entry out of range. */
  predicate WellFormed(s: State) {
    var n := |s.engagement|;
    |s.menPrefs| == n && |s.womenRank| == n
    && (forall w :: 0 <= w < n ==> |s.womenRank[w]| == n)
    && InRange(s.freeMen, n)
    && (forall w :: 0 <= w < n && s.engagement[w].Some? ==> s.engagement[w].value < n)
  }

  /** `[n-1, …, 1, 0]`: every man, man 0 on top of the stack. */
  function Countdown(n: nat): (r: seq<Man>)
    ensures |r| == n && InRange(r, n) && Distinct(r)
    ensures forall i :: 0 <= i < n ==> r[i] + i + 1 == n
    ensures forall m: nat :: m in r <==> m < n
    ensures n > 0 ==> r[n - 1] == 0
  {
    if n == 0 then [] else [n - 1] + Countdown(n - 1)
  }

  /** Builds an engine; `None` when the two sides differ in size or either
      transform rejects its matrix. */
  function Init(men: seq<seq<Woman>>, women: seq<seq<Man>>): (r: Option<State>)
    ensures r.Some? <==>
      |men| == |women| && RowsHaveLength(men, |men|)
      && forall w :: 0 <= w < |women| ==> |women[w]| == |women| && InRange(women[w], |women|)
    ensures r.Some? ==> WellFormed(r.value)
    ensures r.Some? ==>
      var n := |men|;
      |r.value.engagement| == n && (forall w :: 0 <= w < n ==> r.value.engagement[w].None?)
    ensures r.Some? ==>
      var n := |men|;
      |r.value.freeMen| == n && Distinct(r.value.freeMen)
      && (forall m: nat :: m in r.value.freeMen <==> m < n)
      && (forall i :: 0 <= i < n ==> r.value.freeMen[i] + i + 1 == n)
      && (n > 0 ==> r.value.freeMen[n - 1] == 0)
    ensures r.Some? ==>
      Some(r.value.menPrefs) == MakeMenPreferences(men)
      && Some(r.value.womenRank) == MakeWomenPreferences(women)
  {
    if |men| != |women| then None
    else
      match MakeMenPreferences(men)
      case None => None
      case Some(mp) =>
        match MakeWomenPreferences(women)
        case None => None
        case Some(wr) => Some(State(Countdown(|men|), mp, wr, seq(|women|, _ => None)))
  }

  /** The man on top of the free stack. */
  function Top(s: State): Man
    requires |s.freeMen| > 0
  {
    s.freeMen[|s.freeMen| - 1]
  }

  /** Total length of the preference stacks: the rounds still possible. */
  function TotalPrefs(q: seq<seq<Woman>>): nat {
    if |q| == 0 then 0 else |q[0]| + TotalPrefs(q[1..])
  }

  lemma {:induction false} TotalPrefsUpdate(q: seq<seq<Woman>>, i: nat, x: seq<Woman>)
    requires i < |q|
    ensures TotalPrefs(q[i := x]) + |q[i]| == TotalPrefs(q) + |x|
  {
    if i == 0 {
      assert q[i := x][1..] == q[1..];
    } else {
      assert q[i := x][1..] == q[1..][i - 1 := x];
      TotalPrefsUpdate(q[1..], i - 1, x);
    }
  }

  /** N stacks of at most N entries allow at most N*N rounds. */
  lemma {:induction false} TotalPrefsBound(q: seq<seq<Woman>>, n: nat)
    requires forall k :: 0 <= k < |q| ==> |q[k]| <= n
    ensures TotalPrefs(q) <= |q| * n
  {
    if |q| > 0 {
      TotalPrefsBound(q[1..], n);
      assert TotalPrefs(q) <= n + (|q| - 1) * n;
    }
  }

  /** The woman man m currently wants most: the top of his stack; `None` where
      the source panics (no preferences left, or m out of range). */
  function BestWomanFor(s: State, m: Man): (r: Option<Woman>)
    ensures r.Some? <==> m < |s.menPrefs| && |s.menPrefs[m]| > 0
    ensures r.Some? ==> r.value in s.menPrefs[m]
  {
    if m < |s.menPrefs| && |s.menPrefs[m]| > 0 then
      Some(s.menPrefs[m][|s.menPrefs[m]| - 1])
    else None
  }

  /** Pops man m's best remaining woman off his stack. */
  function TakeBestWomanFor(s: State, m: Man): (r: Option<(Woman, State)>)
    ensures r.Some? <==> BestWomanFor(s, m).Some?
    ensures r.Some? ==> r.value.0 == BestWomanFor(s, m).value
    ensures r.Some? ==>
      var t := r.value.1;
      |t.menPrefs| == |s.menPrefs|
      && t.menPrefs[m] + [r.value.0] == s.menPrefs[m]
      && (forall k :: 0 <= k < |s.menPrefs| && k != m ==> t.menPrefs[k] == s.menPrefs[k])
      && TotalPrefs(t.menPrefs) + 1 == TotalPrefs(s.menPrefs)
      && t.freeMen == s.freeMen && t.womenRank == s.womenRank && t.engagement == s.engagement
  {
    if m < |s.menPrefs| && |s.menPrefs[m]| > 0 then
      var row := s.menPrefs[m];
      assert row[..|row| - 1] + [row[|row| - 1]] == row;
      TotalPrefsUpdate(s.menPrefs, m, row[..|row| - 1]);
      Some((row[|row| - 1], s.(menPrefs := s.menPrefs[m := row[..|row| - 1]])))
    else None
  }

  /** Whether woman w ranks m1 strictly better than m2. */
  function WomanPrefers(s: State, w: Woman, m1: Man, m2: Man): (r: bool)
    requires w < |s.womenRank| && m1 < |s.womenRank[w]| && m2 < |s.womenRank[w]|
    ensures r ==> m1 != m2
  {
    s.womenRank[w][m1] < s.womenRank[w][m2]
  }

  /** Engages m to w and pops m, who must be the top free man (the source
      asserts the popped man is m), off the free stack. */
  function Engage(s: State, m: Man, w: Woman): (r: State)
    requires w < |s.engagement| && |s.freeMen| > 0 && Top(s) == m
    ensures |r.engagement| == |s.engagement| && r.engagement[w] == Some(m)
    ensures forall v :: 0 <= v < |s.engagement| && v != w ==> r.engagement[v] == s.engagement[v]
    ensures r.freeMen + [m] == s.freeMen
    ensures r.menPrefs == s.menPrefs && r.womenRank == s.womenRank
  {
    var k := |s.freeMen| - 1;
    assert s.freeMen[..k] + [s.freeMen[k]] == s.freeMen;
    s.(engagement := s.engagement[w := Some(m)], freeMen := s.freeMen[..k])
  }

  /** Returns a displaced man to the top of the free stack; his former
      partner's entry has already been overwritten by `Engage`. */
  function FreeFromEngagement(s: State, m: Man): (r: State)
    ensures |r.freeMen| == |s.freeMen| + 1 && Top(r) == m
    ensures r.freeMen[..|s.freeMen|] == s.freeMen
    ensures r.engagement == s.engagement && r.menPrefs == s.menPrefs && r.womenRank == s.womenRank
  {
    s.(freeMen := s.freeMen + [m])
  }

  /** No woman's situation gets worse from `s` to `t`: an engaged woman stays
      engaged, to a man she ranks at least as well. */
  ghost predicate Improves(s: State, t: State)
    requires WellFormed(s) && WellFormed(t) && |t.engagement| == |s.engagement|
    requires t.womenRank == s.womenRank
  {
    forall w :: 0 <= w < |s.engagement| && s.engagement[w].Some? ==>
      t.engagement[w].Some?
      && s.womenRank[w][t.engagement[w].value] <= s.womenRank[w][s.engagement[w].value]
  }

  /** What one proposal of man m to woman w does to the state, by the three
      cases: w was free and accepts; w trades her partner m2 for m, and m2
      goes back on top of the free stack; w rejects, and m stays on top. */
  ghost predicate ProposalOutcome(s: State, m: Man, w: Woman, t: State)
    requires WellFormed(s) && |s.freeMen| > 0 && m < |s.engagement| && w < |s.engagement|
  {
    var n := |s.engagement|;
    var k := |s.freeMen| - 1;
    WellFormed(t) && |t.engagement| == n && t.womenRank == s.womenRank
    && Improves(s, t)
    && t.menPrefs[m] + [w] == s.menPrefs[m]
    && (forall j :: 0 <= j < n && j != m ==> t.menPrefs[j] == s.menPrefs[j])
    && TotalPrefs(t.menPrefs) + 1 == TotalPrefs(s.menPrefs)
    && (forall v :: 0 <= v < n && v != w ==> t.engagement[v] == s.engagement[v])
    && match s.engagement[w]
       case None => t.engagement[w] == Some(m) && t.freeMen == s.freeMen[..k]
       case Some(m2) =>
         if s.womenRank[w][m] < s.womenRank[w][m2] then
           t.engagement[w] == Some(m) && t.freeMen == s.freeMen[..k] + [m2]
         else
           t.engagement == s.engagement && t.freeMen == s.freeMen
  }

  /** Woman w's answer to man m, the top free man, who has just crossed her
      off his list: a free woman accepts; an engaged one trades up when she
      ranks m better than her partner m2, who goes back on the free stack;
      otherwise she rejects m and nothing changes. */
  function Answer(s: State, m: Man, w: Woman): (r: State)
    requires WellFormed(s) && |s.freeMen| > 0 && Top(s) == m && w < |s.engagement|
    ensures WellFormed(r) && |r.engagement| == |s.engagement|
    ensures r.menPrefs == s.menPrefs && r.womenRank == s.womenRank
    ensures Improves(s, r)
    ensures forall v :: 0 <= v < |s.engagement| && v != w ==> r.engagement[v] == s.engagement[v]
    ensures var k := |s.freeMen| - 1;
      match s.engagement[w]
      case None => r.engagement[w] == Some(m) && r.freeMen == s.freeMen[..k]
      case Some(m2) =>
        if s.womenRank[w][m] < s.womenRank[w][m2] then
          r.engagement[w] == Some(m) && r.freeMen == s.freeMen[..k] + [m2]
        else
          r.engagement == s.engagement && r.freeMen == s.freeMen
  {
    match s.engagement[w]
    case Some(m2) =>
      if WomanPrefers(s, w, m, m2) then FreeFromEngagement(Engage(s, m, w), m2) else s
    case None => Engage(s, m, w)
  }

  /** One round: the top free man proposes to his best remaining woman. */
  function NextEngagementRound(s: State): (r: Round)
    requires WellFormed(s)
    ensures r.Stable? <==> |s.freeMen| == 0
    ensures r.OutOfPreferences? <==> |s.freeMen| > 0 && BestWomanFor(s, Top(s)).None?
    ensures r.NoSuchWoman? <==>
      |s.freeMen| > 0 && BestWomanFor(s, Top(s)).Some? && BestWomanFor(s, Top(s)).value >= |s.engagement|
    ensures r.NoSuchWoman? ==> r.man == Top(s) && r.woman == BestWomanFor(s, Top(s)).value
    ensures r.Proposed? ==>
      |s.freeMen| > 0 && r.man == Top(s) && BestWomanFor(s, r.man) == Some(r.woman)
      && r.man < |s.engagement| && r.woman < |s.engagement|
      && ProposalOutcome(s, r.man, r.woman, r.next)
  {
    if |s.freeMen| == 0 then Stable
    else
      var m := Top(s);
      match TakeBestWomanFor(s, m)
      case None => OutOfPreferences
      case Some((w, s1)) =>
        if w < |s.engagement| then Proposed(m, w, Answer(s1, m, w)) else NoSuchWoman(m, w)
  }

  /** Runs rounds until no man is free; `None` if a round panics. */
  function RunToEnd(s: State): (r: Option<State>)
    requires WellFormed(s)
    ensures r.Some? ==>
      WellFormed(r.value) && |r.value.freeMen| == 0
      && |r.value.engagement| == |s.engagement| && r.value.womenRank == s.womenRank
      && Improves(s, r.value)
    decreases TotalPrefs(s.menPrefs)
  {
    match NextEngagementRound(s)
    case Stable => Some(s)
    case OutOfPreferences => None
    case NoSuchWoman(_, _) => None
    case Proposed(_, _, next) => RunToEnd(next)
  }

  /** The engagements read back as `(man, woman)` pairs in woman order;
      `None` where the source's `unwrap` would panic on an unengaged woman. */
  function Matching(e: seq<Option<Man>>): (r: Option<seq<(Man, Woman)>>)
    ensures r.Some? <==> forall w :: 0 <= w < |e| ==> e[w].Some?
    ensures r.Some? ==> |r.value| == |e|
    ensures r.Some? ==> forall w :: 0 <= w < |e| ==> r.value[w] == (e[w].value, w)
  {
    if forall w :: 0 <= w < |e| ==> e[w].Some? then
      Some(seq(|e|, w requires 0 <= w < |e| && e[w].Some? => (e[w].value, w)))
    else None
  }
}
