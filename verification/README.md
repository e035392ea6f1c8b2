# Gale–Shapley deferred acceptance, modelled in Dafny

This project models the matching engine of a small Rust crate: the
`GaleShapley` struct of `src/lib.rs`, together with the near-identical copy in
`src/main.rs`. N men and N women each rank the other side completely. The
engine is built from two preference matrices:

- `make_men_preferences` reverses each man's list, so that his best remaining
  woman is always the last element of his stack.
- `make_women_preferences` inverts each woman's list in place into a rank
  table. Afterwards `rank[w][m]` is man m's position in woman w's list.

The engine's state has four parts:

- a stack of free men, with man 0 on top at the start;
- each man's remaining stack of women;
- the women's rank tables;
- an optional partner for each woman.

One round (`next_engagement_round`) runs as follows:

1. Look at the top free man m, without popping him.
2. Pop his best remaining woman w.
3. If w is free, engage her to m. That pops m off the free stack.
4. If w is engaged to m2 and ranks m better, engage her to m instead and push
   m2 back onto the free stack.
5. Otherwise w rejects m. Only m's stack has changed (by step 2), and m stays
   on top.

`find_stable_marriage` runs rounds until no man is free. It then reads the
engagements back as `(man, woman)` pairs in woman order.
`has_stable_mariage_with(man, woman)` runs the same loop. It answers whether
that pair ends up matched, and stops early once the woman has left the man.

The Dafny modules follow that structure:

| module | file | contents |
|---|---|---|
| `Wrappers` | `wrappers.dfy` | `Option`, used for every panic path |
| `Perm` | `perm.dfy` | permutations, the position (rank) of an element, and reversal |
| `RankMatrix` | `rank_matrix.dfy` | the two preprocessing transforms |
| `Engine` | `engine.dfy` | the state and its operations, one round, the run to quiescence, and the read-back |
| `Marriage` | `marriage.dfy` | perfect matchings, blocking pairs and stability, judged on the original lists |
| `Invariants` | `invariant.dfy` | the engine invariant, its preservation by a round, and what it gives at quiescence |
| `Solver` | `solver.dfy` | the drivers `find_stable_marriage` and `has_stable_mariage_with`, as methods with loops |
| `Scenarios` | `scenarios.dfy` | the crate's unit tests, worked round by round through the model |

A panic of the source becomes `None` in the model. This covers:

- an `assert_eq!` that fails;
- the women's transform writing to an out-of-range index;
- the `expect` on an empty preference stack;
- a popped stack entry that is no woman, which panics at
  `women_engagement[w]`; the model reports it as the round outcome
  `NoSuchWoman`;
- the `unwrap` on an unengaged woman.

`make_men_preferences` checks row lengths only, so `init` accepts a men's list
holding a number N or larger. The model keeps such entries on the stacks. A run
panics only if one of them is popped: `Scenarios.UnpoppedStrayEntry` and
`Scenarios.PoppedStrayEntry` show both outcomes.

Two details of the round come from the code itself, and the model keeps both:

- A round does not pop its proposer. `next_free_man` only peeks at
  `free_men.last()`, and `engage` pops him, so a rejected man stays on top and
  proposes again in the next round.
- The man who proposes next is always the top of the free stack. Man 0 is on
  top at the start, and a displaced man is pushed back on top.

## Model

| member | source | states |
|---|---|---|
| `RankMatrix.ReverseRows` | src/lib.rs:127-134 | fails exactly when some row's length is not N; otherwise row k of the result is row k reversed |
| `RankMatrix.MakeMenPreferences` | src/lib.rs:126-134 | succeeds exactly when every row has length N (the `assert_eq!`); man m's i-th choice then sits at index N-1-i of his stack, so the best remaining woman is the last one (the same code is at src/main.rs:94-102) |
| `RankMatrix.MenPreferencesUndo` | src/lib.rs:131 | reversing each stack again gives back the man's original list |
| `Perm.ReverseTwice` | src/lib.rs:131 | `reverse` is an involution |
| `RankMatrix.Scatter` | src/lib.rs:141-143 | the in-place loop `line[m] = idx`, for every input and not only permutations: it fails exactly when a written index is out of bounds; the last write to an index wins; an index never written keeps its old value |
| `RankMatrix.InvertRows` | src/lib.rs:139-144 | fails exactly when some row's length is not N or some row holds an out-of-range index; otherwise each row is inverted |
| `RankMatrix.MakeWomenPreferences` | src/lib.rs:136-146 | succeeds exactly when every row has length N and holds only indices below N; row w of the result is the inversion of w's list (the same code is at src/main.rs:104-114) |
| `RankMatrix.InvertPermutation` | src/lib.rs:141-143 | inverting a permutation gives a permutation, with `inv[row[idx]] == idx`, so `inv[m]` is m's position in the list |
| `RankMatrix.InvertTwice` | src/lib.rs:137-146 | inverting a permutation row twice gives the row back |
| `RankMatrix.WomenPreferencesAreRanks` | src/lib.rs:10-11 | on square permutation matrices the women's transform succeeds, and `rank[w][m]` is m's position in w's list |
| `Scenarios.WomenPreferences3x3` | src/lib.rs:190-196 | `[[0,2,1],[2,1,0],[2,0,1]]` becomes `[[0,2,1],[2,1,0],[1,2,0]]` (the same test is at src/main.rs:156-162) |
| `Engine.Countdown` | src/lib.rs:24 | `(0..n).rev()` lists every man below n once, with man 0 last, on top of the stack |
| `Engine.Init` | src/lib.rs:18-29 | succeeds exactly when the counts are equal and both transforms succeed; it starts with every man free, man 0 on top, and every woman unengaged, in a well-formed state (the same code is at src/main.rs:18-29) |
| `Scenarios.InitIs` | src/lib.rs:23-28 | the engine built from an instance is determined by its two transformed matrices |
| `Engine.BestWomanFor` | src/lib.rs:45-51 | fails (the `expect`) exactly when the man is out of range or his stack is empty; otherwise returns a woman from his stack; that it is the top entry is pinned by `Engine.TakeBestWomanFor`, which pops exactly this woman |
| `Invariants.BestWomanIsNextInList` | src/lib.rs:7-8 | on a reachable state, the top of a man's stack is the first woman in his list he has not yet proposed to |
| `Engine.TakeBestWomanFor` | src/lib.rs:53-58 | fails exactly when `best_woman_for` fails; it pops the very woman `best_woman_for` peeks; the man's stack shrinks by exactly that entry, and no other stack or field changes |
| `Engine.TotalPrefsUpdate` | src/lib.rs:55-56 | replacing one stack changes the total stack length by the difference in that stack's length |
| `Invariants.WomanPrefersFollowsList` | src/lib.rs:65-69 | with the rank tables built by `init`, `woman_prefers(w, m1, m2)` holds exactly when m1 comes before m2 in w's own list (also src/main.rs:45-49) |
| `Engine.Engage` | src/lib.rs:71-76 | w's partner becomes m; no other woman's partner changes; m, who is on top, leaves the free stack (`debug_assert_eq!(popped, Some(m))`) |
| `Engine.FreeFromEngagement` | src/lib.rs:78-81 | the displaced man goes on top of the free stack; the rest of the stack and the engagements are unchanged |
| `Engine.Answer` | src/lib.rs:88-96 | the three outcomes of a proposal: a free woman accepts; an engaged woman trades up exactly when she ranks the proposer strictly better, and her old partner goes back on top of the free stack; otherwise nothing changes. No woman ends up with a man she ranks worse |
| `Engine.NextEngagementRound` | src/lib.rs:85-98 | returns "stable" exactly when no man is free; fails exactly when the top free man's stack is empty (the `expect`); fails exactly when the woman on top of it is no index below N (the panic at `women_engagement[w]`, src/lib.rs:62); otherwise the top man proposes to his best woman, exactly one entry leaves his stack, the total stack length drops by one, and the state moves by one of the three outcomes above (the same code is at src/main.rs:64-77) |
| `Engine.TotalPrefsBound` | src/lib.rs:102 | N stacks of at most N women allow at most N*N rounds |
| `Engine.RunToEnd` | src/lib.rs:102-104 | a run that does not fail ends with no man free, in a well-formed state of the same size, and no woman is worse off than at the start |
| `Engine.Matching` | src/lib.rs:105-108 | the read-back succeeds exactly when every woman is engaged (otherwise the `unwrap` panics); pair w is `(partner of w, w)` |
| `Invariants.CountEngagedUpdate` | src/lib.rs:73 | engaging a free woman adds one to the number of engaged women; re-engaging one leaves it unchanged |
| `Invariants.InitEstablishesInvariant` | src/lib.rs:18-29 | on square permutation matrices `init` succeeds, and its state satisfies the invariant: the free stack is exactly the unengaged men, no man holds two women, each stack is what is left of the man's list, an engaged man holds the last woman he proposed to, every woman proposed to is engaged to someone she ranks at least as well, and free men plus engaged women number N |
| `Invariants.StepPreservesInvariant` | src/lib.rs:85-98 | every proposing round keeps the invariant |
| `Invariants.ProposalFreeStack` | src/lib.rs:72-81 | a round keeps "a man is on the free stack, once, exactly when no woman is engaged to him" |
| `Invariants.ProposalInjective` | src/lib.rs:88-95 | a round keeps "no man is engaged to two women" |
| `Invariants.ProposalHeld` | src/lib.rs:88-95 | a round keeps "every woman a man proposed to is engaged to someone she ranks at least as well as him" |
| `Invariants.FreeMenHavePreferences` | src/lib.rs:54-57 | under the invariant, every free man has a non-empty stack, so the "no more preferences" panic cannot happen |
| `Invariants.RunPreservesInvariant` | src/lib.rs:102-104 | from an invariant state the loop never panics, and it ends in an invariant state |
| `Invariants.QuiescentIsStableMatching` | src/lib.rs:100-109 | once no man is free, every `unwrap` succeeds, and the pairs form a perfect matching with no blocking pair |
| `Invariants.QuiescentIsPerfect` | src/lib.rs:105-108 | once no man is free: N pairs in woman order, every man below N, no man twice, every man matched |
| `Invariants.NoBlockingPairAt` | src/lib.rs:88-95 | no man prefers another woman who also prefers him to her partner: he proposed to her earlier, and she has held someone at least as good ever since |
| `Solver.SolvedMatching` | src/lib.rs:199-211 | on any instance of square permutation matrices, `init` succeeds, the run from it succeeds, and its read-back pairs list every man and every woman exactly once and are stable |
| `Solver.FindStableMarriage` | src/lib.rs:100-109 | the loop runs to the state `RunToEnd` reaches, in at most N*N rounds, and returns that state as the engine's new state (the source mutates `self`); the result is a perfect matching in woman order with no blocking pair (the same code is at src/main.rs:79-91) |
| `Solver.PairInMatching` | src/lib.rs:105-108 | `(man, woman)` is in the read-back pairs exactly when the woman is engaged to the man |
| `Solver.LeftNeverReturns` | src/lib.rs:116-120 | once a woman leaves a man, the run never ends with her engaged to him again |
| `Solver.HasStableMarriageWith` | src/lib.rs:111-123 | the answer, including the early `return false`, holds exactly when `(man, woman)` is a pair of the matching `find_stable_marriage` would return from the same state; the engine state the loop leaves, possibly part-run after the early exit, still satisfies the invariant, holds no more stack entries than at the start, and runs on to the same final state; after a `true` answer it is that final state |
| `Scenarios.RoundAccepts` | src/lib.rs:94-96 | a proposal to a free woman engages her and pops the proposer off the free stack |
| `Scenarios.RoundDisplaces` | src/lib.rs:88-93 | a proposal to an engaged woman who ranks the proposer better swaps her partner, and the old partner goes on top of the free stack |
| `Scenarios.Round2x2Second` | src/lib.rs:170-172 | in the 2x2 test, man 1 displaces man 0 from woman 0 |
| `Scenarios.Solved1x1` | src/lib.rs:159-167 | `[[0]], [[0]]` solves to `[(0, 0)]` |
| `Scenarios.Solved2x2` | src/lib.rs:168-177 | both men prefer woman 0 and both women prefer man 1: the run takes three rounds and solves to `[(1, 0), (0, 1)]` |
| `Scenarios.Solved3x3` | src/lib.rs:179-188 | the 3x3 instance solves to `[(0, 0), (2, 1), (1, 2)]` in three rounds |
| `Scenarios.FindStableMarriageTests` | src/main.rs:124-154 | the method returns exactly the three expected matchings |
| `Scenarios.HasStableMarriageWith2x2` | src/lib.rs:233-241 | on a fresh 2x2 engine the answer is true exactly for `(1, 0)` and `(0, 1)` |
| `Scenarios.HasStableMarriageWithTests` | src/lib.rs:213-231 | the four queries give false, true, true, false |
| `Scenarios.RoundPanics` | src/lib.rs:60-63 | a round whose top man pops a number that is no woman panics, and so does the whole run |
| `Scenarios.UnpoppedStrayEntry` | src/lib.rs:127-134 | `init` accepts `[[0, 5], [1, 0]]`; man 0 is accepted by woman 0 before he reaches the 5, so the run succeeds with `[(0, 0), (1, 1)]` |
| `Scenarios.PoppedStrayEntry` | src/lib.rs:85-88 | `init` accepts `[[5, 0], [0, 1]]`; man 0's first pop is the 5, so the first round panics |

## Left out

- `init_random` and `rand_pref_matrix` (src/lib.rs:32-39, 148-153) draw from the `rand` crate. They are left out. The engine theorems hold for every pair of square permutation matrices, which includes every instance those functions can produce.
- The `println!` calls in src/main.rs (82-85 and `main`) are console output only.
- `engage` in src/main.rs:54 pops the free stack inside `debug_assert_eq!`. A release build therefore never pops the engaged man. The model follows the debug and test build, where the pop happens, as src/lib.rs:74-75 does.
- The statistics accumulator, the permutation enumeration and the worker threads are not part of this model. The crate's engine files contain no code for them.
- `usize` is modelled as `nat`. The engine does no arithmetic on the values it stores: it only compares them and uses them as indices. The only values it computes are loop indices below N, so nothing can wrap. This holds even for a men's entry of N or more, which `init` accepts.
- `find_stable_marriage` returns a lazy iterator that borrows the engine. It is modelled as the sequence that the iterator yields.
- `next_free_man` and `current_woman_engagement` are one-line accessors. They are written inline as `Top` and `engagement[w]`.
- Solver.FindStableMarriage: requires the engine invariant of its input state. For example, any state reachable from `init` on square permutation matrices satisfies it; the invariant also holds of some states no run reaches. On other inputs the source may panic or return an unstable matching. That behaviour is still modelled round by round by `NextEngagementRound` and `RunToEnd`, which are total on well-formed states (every state `init` builds is one) and report every panic.
- Solver.HasStableMarriageWith: requires the same invariant and `woman < N`. The source's first statement indexes `women_engagement[woman]` and would panic otherwise.
- Engine.WomanPrefers: its own contract only says that a man is never preferred to himself. Its meaning, "m1 comes before m2 in her list", is stated by `Invariants.WomanPrefersFollowsList`, because the rank tables carry that meaning only relative to the original lists.
- Engine.Engage: requires that m is on top of the free stack, which is what the `debug_assert_eq!` checks. Every call in `next_engagement_round` satisfies it.
