# SC (shepherd cache) replacement policy, in Dafny

A model of gem5's `SC` cache replacement policy. Each cache set holds a small
FIFO "shepherd" region of `numSCBlocks` (K) blocks. Every line keeps K touch
columns (a flag and a tick per column). The model covers:

- the policy's per-line operations `invalidate`, `touch` and `reset`;
- `instantiateEntry`;
- the victim choice `getVictim` with its two helpers: `_victimize`, which
  either moves the oldest shepherd block out of the region or uses the
  victim's position in it, and `_shift_sc`, which shifts every candidate's
  touch history.

The model is in four modules:

- `ReplData` (`repl_data.dfy`): one line's replacement data as a value
  (`Line`), and what invalidate, touch, reset and the history shift do to it.
- `VictimSelection` (`victim_selection.dfy`): victim selection over the
  candidates of one set, as functions. It covers the shepherd count, the
  oldest shepherd block `rplsc`, the victim's priority order, and the
  victimized state of the whole set.
- `SCRP` (`sc_rp.dfy`): the policy as the source has it.
  - `SCReplData` is a class whose fields are updated in place. Its two touch
    histories are arrays of length K, allocated with the record.
  - `SC` is a class with the constant `numSCBlocks` and the mutable counter
    `timeTicks`.
  - Every method is proved against the functions of the two modules above.
  - A set's candidates are a sequence of distinct records, and the victim is
    an index into it.
- `Protocol` (`protocol.dfy`): how the cache drives the policy on one set. A
  hit is `touch`. A miss is `getVictim`, then `invalidate` and `reset` on the
  victim.
  - `Ready` is what `getVictim` asserts on entry: more candidates than K and
    exactly K shepherd blocks, with K at least 1 so that `rplsc` exists.
  - `Steady` is `Ready` plus an invariant of the model's own, which the
    policy never asserts: shepherd insertion ticks are distinct, and none is
    ahead of the counter.
  - Hits and misses preserve `Steady`. Nothing establishes it, though. A set
    of freshly instantiated records has no shepherd block, so it is not even
    `Ready` (`Protocol.FreshSetNeverSteady`). The results of this module
    apply only to sets that are already steady, and the draft never produces
    one.

Ticks are `nat`. The source's `Tick(-1)` and `nullptr` "none" values are
modelled as `-1`.

Where the original is an unfinished draft, the model follows what the code
evidently means:

- The field spellings are unified into one record with `isValid`, `isSC`,
  `tickInserted`, `isTouched` and `tickTouched`.
- The record has the two length-K arrays that `instantiateEntry` asks for.
- `candidate` inside `_victimize` means the victim.
- `rplsc` is the block found by the loop just before the assertion on it.
- `is_touched = false` clears the whole flag array.
- `timeTicks` starts at 0.
- The two nested functions are helper methods (`Victimize`, `ShiftSC`).

The code and the comments around it disagree in places. The model follows
the code:

- The shift moves only the touch ticks. Of the touch flags it clears just the
  last column.
- `touch` stamps the current `timeTicks` and does not advance it.
- `invalidate` keeps the insertion tick. The header's comment says it resets
  the tick to 0.
- `reset` does not clear the touch flags.
- When every candidate is valid, the victim is the first candidate untouched
  in column 0, shepherd or not. Failing that, it is the candidate touched
  most recently in column 0. There is no separate "untouched oldest
  shepherd" rule.

Some further points about what the code does. The model follows each of
them:

- `invalidate` clears the shepherd flag and every touch flag, and it does
  not advance `timeTicks`.
- `touch` sets every unset flag in one call, not only the first unset one.
- The record has no per-line count of the set's shepherd blocks.
- The oldest shepherd block graduates whenever the victim is not a
  shepherd block. There is no separate check that the region is full,
  because `getVictim` asserts on entry that it holds exactly K blocks.
- A shepherd victim shifts the histories from its own position in the
  region, not always from column 0.

## Model

| member | source | states |
|---|---|---|
| `SCRP.SCReplData.constructor` | src/mem/cache/replacement_policies/sc_rp.hh:27-30 | a new record is invalid, outside the shepherd region, inserted at tick 0, with K untouched history columns in freshly allocated arrays |
| `SCRP.SC.constructor` | src/mem/cache/replacement_policies/sc_rp.cc:19-22 | the policy's shepherd capacity is the given K, fixed for the policy's lifetime (a `const`); the tick counter starts at 0 |
| `SCRP.SC.InstantiateEntry` | src/mem/cache/replacement_policies/sc_rp.cc:192-196 | returns a fresh record whose contents are `Fresh(K)` |
| `SCRP.SC.Invalidate` | src/mem/cache/replacement_policies/sc_rp.cc:39-42 | the record's new contents are `Invalidated` of the old ones; `timeTicks` is untouched (not in the frame) |
| `SCRP.SC.Touch` | src/mem/cache/replacement_policies/sc_rp.cc:54-59 | the record's new contents are `Touched` of the old ones at the current `timeTicks`; nothing else changes |
| `SCRP.SC.Reset` | src/mem/cache/replacement_policies/sc_rp.cc:76-79 | `timeTicks` strictly increases, by one; the record becomes valid and a shepherd block, stamped with the new `timeTicks` as insertion tick |
| `SCRP.SC.MinShepherdTick` | src/mem/cache/replacement_policies/sc_rp.cc:147-153 | the minimum-tick loop, starting from gem5's `Tick(-1)` sentinel, returns `MinSCTick` of the candidates |
| `SCRP.SC.LastShepherdAt` | src/mem/cache/replacement_policies/sc_rp.cc:154-160 | the loop without a break returns `LastSCAt`: the last shepherd candidate at the minimum tick, or -1 for gem5's `nullptr` |
| `SCRP.SC.ShepherdIndex` | src/mem/cache/replacement_policies/sc_rp.cc:129-137 | the counting loop returns `ScIndex`, the number of shepherd candidates inserted after the victim |
| `SCRP.SC.Graduate` | src/mem/cache/replacement_policies/sc_rp.cc:140 | exactly `rplsc` leaves the shepherd region; every other candidate, and every history, stays as it was |
| `SCRP.SC.SelectCandidates` | src/mem/cache/replacement_policies/sc_rp.cc:102-161 | under the entry assertions, the counting loop confirms K shepherd candidates, `rplsc` is `OldestSC` (and exists), and the victim is `SelectVictim`; nothing is changed |
| `SCRP.SC.CountShepherds` | src/mem/cache/replacement_policies/sc_rp.cc:104-107 | the counting loop returns the number of shepherd candidates |
| `SCRP.SC.FindOldestShepherd` | src/mem/cache/replacement_policies/sc_rp.cc:146-160 | the two loops return `OldestSC` of the candidates (the minimum-tick loop, then the last shepherd candidate at that tick) |
| `SCRP.SC.FindInvalid` | src/mem/cache/replacement_policies/sc_rp.cc:164-169 | returns the index of the first invalid candidate, or the number of candidates when all are valid |
| `SCRP.SC.FindUntouchedOrYoungest` | src/mem/cache/replacement_policies/sc_rp.cc:172-185 | returns the first candidate untouched in column 0, else the candidate with the strictly largest column-0 tick (starting from candidate 0, earliest on ties) |
| `SCRP.SC.ChooseVictim` | src/mem/cache/replacement_policies/sc_rp.cc:163-189 | the candidate getVictim returns is `SelectVictim` of the candidates |
| `SCRP.SC.ShiftHistory` | src/mem/cache/replacement_policies/sc_rp.cc:117-122 | one record's history becomes `ShiftLine` of the old one |
| `SCRP.SC.ShiftSC` | src/mem/cache/replacement_policies/sc_rp.cc:114-124 | every candidate's history is shifted from the same column; records and other state are untouched |
| `SCRP.SC.Victimize` | src/mem/cache/replacement_policies/sc_rp.cc:126-144 | the candidates' new contents are `Victimized` of the old ones, with the shift index counted by the loop over shepherd candidates inserted after the victim |
| `SCRP.SC.GetVictim` | src/mem/cache/replacement_policies/sc_rp.cc:102-190 | requires at least one candidate, more candidates than K, exactly K shepherd candidates, and K at least 1 (what the assertion on `rplsc` needs); the oldest shepherd block exists; returns `SelectVictim` of the candidates and leaves them `Victimized`; the candidates are still distinct records with K-column histories, so getVictim can run on them again |
| `ReplData.Fresh` | src/mem/cache/replacement_policies/sc_rp.hh:27-30 | a fresh record has K history columns and insertion tick 0 |
| `ReplData.Touched` | src/mem/cache/replacement_policies/sc_rp.cc:54-59 | a touch keeps K columns and never changes validity, shepherd membership or insertion tick |
| `ReplData.ResetAt` | src/mem/cache/replacement_policies/sc_rp.cc:76-79 | reset makes the line valid and a shepherd block, stamps the insertion tick, and leaves both history columns as they were |
| `ReplData.ShiftLine` | src/mem/cache/replacement_policies/sc_rp.cc:117-122 | the shift keeps K columns, clears the last column (tick 0, flag false), keeps every other flag, and keeps the ticks of the columns below scidx |
| `ReplData.Invalidated` | src/mem/cache/replacement_policies/sc_rp.cc:39-42 | invalid, not a shepherd block, every touch flag cleared; insertion tick and touch ticks unchanged |
| `ReplData.FreshIsUntouchedAtTickZero` | src/mem/cache/replacement_policies/sc_rp.hh:27-30 | a fresh record has K columns, insertion tick 0, is invalid, not a shepherd block, and untouched |
| `ReplData.TouchSetsEveryFlag` | src/mem/cache/replacement_policies/sc_rp.cc:53-59 | after a touch every flag is set; flags already set keep their tick, newly set ones carry the current tick; validity, membership and insertion tick are unchanged |
| `ReplData.TouchIdempotent` | src/mem/cache/replacement_policies/sc_rp.cc:54-59 | a second touch, at any tick, changes nothing |
| `ReplData.ShiftRemovesColumn` | src/mem/cache/replacement_policies/sc_rp.cc:116-123 | for a shift index below K the touch ticks lose column scidx and gain a cleared last column; the flags change only in the last column |
| `ReplData.ShiftFromLastClearsLast` | src/mem/cache/replacement_policies/sc_rp.cc:117-121 | a shift from column K-1 or above only clears the last tick |
| `ReplData.ShiftKeepsIdentity` | src/mem/cache/replacement_policies/sc_rp.cc:114-124 | the shift keeps the history length and never changes validity, membership or insertion tick |
| `ReplData.InvalidateThenReset` | src/mem/cache/replacement_policies/sc_rp.cc:39-79 | invalidate followed by reset gives a valid shepherd block at the new tick, with every touch flag clear |
| `VictimSelection.ScIndex` | src/mem/cache/replacement_policies/sc_rp.cc:129-137 | the shift index never exceeds the number of shepherd candidates |
| `VictimSelection.Victimized` | src/mem/cache/replacement_policies/sc_rp.cc:126-144 | victimizing keeps the number of candidates and their K-column histories, and no candidate other than `rplsc` changes shepherd membership |
| `VictimSelection.ShiftAll` | src/mem/cache/replacement_policies/sc_rp.cc:114-124 | shifting every history keeps the number of candidates, their K columns, and every candidate's validity, membership and insertion tick |
| `VictimSelection.CountSC` | src/mem/cache/replacement_policies/sc_rp.cc:104-107 | the shepherd count is at most the number of candidates |
| `VictimSelection.CountInsertedAfter` | src/mem/cache/replacement_policies/sc_rp.cc:129-137 | the number of shepherd candidates inserted after a tick is at most the shepherd count |
| `VictimSelection.CountSCPositive` | src/mem/cache/replacement_policies/sc_rp.cc:148-161 | the count is positive exactly when some candidate is a shepherd block (so K at least 1 gives an `rplsc`) |
| `VictimSelection.CountSCUpdate` | src/mem/cache/replacement_policies/sc_rp.cc:140 | replacing one candidate changes the count by exactly the change in that candidate's membership |
| `VictimSelection.CountSCSameFlags` | src/mem/cache/replacement_policies/sc_rp.cc:114-124 | candidate lists with the same membership flags have the same shepherd count |
| `VictimSelection.InsertedAfterMissesOne` | src/mem/cache/replacement_policies/sc_rp.cc:130-137 | a shepherd candidate inserted no later than t is missed by the count, so it falls short of the shepherd count |
| `VictimSelection.ScIndexBelowCount` | src/mem/cache/replacement_policies/sc_rp.cc:129-138 | a shepherd victim's shift index is below the shepherd count, so with K shepherd blocks it names one of the K columns |
| `VictimSelection.InsertedAfterAllButOne` | src/mem/cache/replacement_policies/sc_rp.cc:130-137 | when every other shepherd block is younger than v, the count is the shepherd count minus one |
| `VictimSelection.InsertedAfterAllEqual` | src/mem/cache/replacement_policies/sc_rp.cc:130-137 | when every shepherd block is younger than t, all of them are counted |
| `VictimSelection.InsertedAfterNone` | src/mem/cache/replacement_policies/sc_rp.cc:130-137 | when no shepherd block is younger than t, none is counted |
| `VictimSelection.NewestVictimShiftsFromZero` | src/mem/cache/replacement_policies/sc_rp.cc:129-138 | the newest shepherd block as victim shifts the history from column 0 |
| `VictimSelection.OldestVictimShiftsLastColumn` | src/mem/cache/replacement_policies/sc_rp.cc:129-138 | with distinct shepherd ticks, the oldest shepherd block as victim has shift index K-1: only the last column is cleared |
| `VictimSelection.MinSCTick` | src/mem/cache/replacement_policies/sc_rp.cc:147-153 | is -1 exactly when there is no shepherd candidate; otherwise it is attained by a shepherd candidate and is at most every shepherd tick |
| `VictimSelection.LastSCAt` | src/mem/cache/replacement_policies/sc_rp.cc:154-160 | a shepherd candidate with the given tick and no later one; -1 when there is none |
| `VictimSelection.OldestSC` | src/mem/cache/replacement_policies/sc_rp.cc:146-161 | `rplsc` is -1 exactly when there is no shepherd candidate; otherwise it is a shepherd candidate with minimal insertion tick and no later candidate shares that tick |
| `VictimSelection.FirstInvalid` | src/mem/cache/replacement_policies/sc_rp.cc:164-169 | every candidate before the result is valid, and the result is invalid unless it is past the end |
| `VictimSelection.FirstUntouched` | src/mem/cache/replacement_policies/sc_rp.cc:173-179 | every candidate before the result is touched in column 0, and the result is untouched unless past the end |
| `VictimSelection.YoungestTouched` | src/mem/cache/replacement_policies/sc_rp.cc:172-185 | the result has the largest column-0 tick among the candidates scanned, strictly larger than every earlier one's (candidate 0 when nothing beats it) |
| `VictimSelection.SelectVictim` | src/mem/cache/replacement_policies/sc_rp.hh:74-81 | the victim is one of the candidates |
| `VictimSelection.SelectVictimPriority` | src/mem/cache/replacement_policies/sc_rp.cc:163-189 | the victim is invalid iff some candidate is, and then it is the first invalid one; with all valid it is untouched in column 0 iff some candidate is, and then the first such; with all touched it has the largest column-0 tick, the earliest on ties |
| `VictimSelection.InvalidatedIsNextVictim` | src/mem/cache/replacement_policies/sc_rp.hh:47-53 | in a set holding an invalidated entry the victim is invalid and is that entry or an earlier one |
| `VictimSelection.VictimizedKeepsCandidates` | src/mem/cache/replacement_policies/sc_rp.cc:126-144 | victimizing keeps the number of candidates and their history length, never changes validity or insertion tick, and shifts every history from the shift index (0 for a non-shepherd victim) |
| `VictimSelection.ShepherdVictimKeepsCount` | src/mem/cache/replacement_policies/sc_rp.cc:128-138 | a shepherd victim changes no membership flag, so the shepherd count stays |
| `VictimSelection.MainVictimGraduatesOldest` | src/mem/cache/replacement_policies/sc_rp.cc:139-143 | for a victim outside the shepherd region, exactly `rplsc` leaves the region and the shepherd count drops by one |
| `VictimSelection.VictimizedKeepsDistinctTicks` | src/mem/cache/replacement_policies/sc_rp.hh:34-38 | victimizing keeps shepherd insertion ticks pairwise distinct |
| `Protocol.ReinsertRestoresCount` | src/mem/cache/replacement_policies/sc_rp.cc:139-142 | victimizing, then invalidating and resetting the victim, restores exactly K shepherd blocks, whichever branch of the victimization ran |
| `Protocol.ReinsertKeepsTicksDistinct` | src/mem/cache/replacement_policies/sc_rp.hh:34-38 | reinserting the victim at a tick after all insertion ticks keeps shepherd ticks distinct and none later than the new tick |
| `Protocol.MissKeepsSteady` | src/mem/cache/replacement_policies/sc_rp.cc:109 | a miss (getVictim, invalidate, reset) on a steady set leaves it steady: it again meets getVictim's entry assertions (exactly K shepherd blocks), and the model's own invariant (distinct shepherd ticks, none past the counter) still holds |
| `Protocol.FreshSetNeverSteady` | src/mem/cache/replacement_policies/sc_rp.cc:109 | a set of freshly instantiated records, of any size and at any counter value, fails getVictim's shepherd-count assertion, so it is neither ready nor steady |
| `Protocol.MissInstallsNewestShepherd` | src/mem/cache/replacement_policies/sc_rp.cc:76-79 | a miss advances the counter by one, and the block it installs is valid, a shepherd block, stamped with the new tick, inserted strictly after every other line of the set |
| `Protocol.HitKeepsSteady` | src/mem/cache/replacement_policies/sc_rp.cc:53-59 | a hit (touch) keeps the set steady |
| `Protocol.Misses` | src/mem/cache/replacement_policies/sc_rp.cc:109 | from a steady set, any number of misses in a row leave it steady, so its shepherd count is still K, and the counter advances once per miss |
| `Protocol.LoneInvalidateLeavesShepherdShort` | src/mem/cache/replacement_policies/sc_rp.cc:39-42 | in a ready set, invalidating a shepherd block without the reset of a miss leaves K-1 shepherd blocks, short of getVictim's entry assertion |

## Left out

- gem5's `Base`, `ReplacementData`, `ReplaceableEntry` and `ReplacementCandidates` types are replaced by the concrete record class and a sequence of records. The `SCRPParams` plumbing becomes the constructor's argument, and the `shared_ptr` casts disappear.
- The configuration script `configs/example/gpufs/vega10.py` is not part of this model. It is argument parsing and simulator launching.
- Ticks are unbounded naturals. The 64-bit `Tick` type and its wrap-around are not modelled, and neither is the unsigned-underflow form of the assertion `candidates.size() - numSCBlocks > 0`. Its intent, more candidates than K, is a precondition.
- The source's assertions are preconditions of `GetVictim`. A set whose records are all fresh has no shepherd block, so it does not meet them (`Protocol.FreshSetNeverSteady`). The draft has no warm-up path, and the model does not make one up. The invariant the `Protocol` lemmas preserve is therefore never reached from the policy's initial state.
- `Protocol.LoneInvalidateLeavesShepherdShort` shows the same gap for an explicit invalidation (one not followed by a reset) of a shepherd block.
- `SCRP.SCReplData.constructor`: the header initialises only `tickInserted` (to 0). The model starts the other fields invalid, outside the shepherd region and untouched, as the header's "Invalidate data" says.
- `SCRP.SC.GetVictim` requires the candidate records, and their history arrays, to be pairwise distinct. In gem5 each entry owns its replacement data, so this always holds there.
- Behaviour that appears only in comments is not modelled:
  - a random choice among untouched blocks;
  - a shift on invalidate;
  - clearing column 0 on eviction;
  - clearing the touch flags on reset;
  - "does not modify the replacement data" on `touch`.
- There is no cross-set or timing behaviour. The only state beyond one set is the tick counter.
