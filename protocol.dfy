/** How the cache drives the SC policy on one set, and the invariant that
    this use preserves: a hit touches the line; a miss asks for a victim,
    then invalidates it and resets it for the new block. A steady set
    (exactly numSCBlocks shepherd blocks, with distinct insertion ticks,
    none ahead of the policy's tick counter) is still steady after every hit
    and miss. The policy never establishes this state, though: a set of
    freshly instantiated records has no shepherd block at all, so it fails
    getVictim's entry assertion (FreshSetNeverSteady). */
module Protocol {
  import opened ReplData
  import opened VictimSelection

  /** One set's replacement data and the policy's tick counter. */
  datatype SetState = SetState(lines: seq<Line>, timeTicks: nat)

  /** getVictim's entry assertions: more candidates than k and exactly k
      shepherd blocks, with k >= 1 so that rplsc exists; and histories of k
      columns, as instantiateEntry allocates them. */
  predicate Ready(st: SetState, k: nat)
  {
    && k >= 1
    && |st.lines| > k
    && AllWellFormed(st.lines, k)
    && CountSC(st.lines) == k
  }

  /** Ready, together with this model's own invariant (not asserted by the
      policy): distinct shepherd insertion ticks, and no insertion tick
      ahead of the counter. */
  predicate Steady(st: SetState, k: nat)
  {
    && Ready(st, k)
    && DistinctSCTicks(st.lines)
    && forall j :: 0 <= j < |st.lines| ==> st.lines[j].tickInserted <= st.timeTicks
  }

  /** A miss: getVictim on the set, then invalidate and reset on the victim.
      Returns the new state and the victim's index. */
  function Miss(st: SetState, k: nat): (SetState, nat)
    requires Ready(st, k)
  {
    var s := st.lines;
    CountSCPositive(s);
    var v := SelectVictim(s, k);
    var s1 := Victimized(s, k, v, OldestSC(s));
    var t := st.timeTicks + 1;
    (SetState(s1[v := ResetAt(Invalidated(s1[v]), t)], t), v)
  }

  /** A hit on line w: touch it at the current tick. */
  function Hit(st: SetState, k: nat, w: nat): SetState
    requires Ready(st, k) && w < |st.lines|
  {
    st.(lines := st.lines[w := Touched(st.lines[w], k, st.timeTicks)])
  }

  /** Reinserting the victim after victimizing restores k shepherd blocks:
      victimizing a shepherd block keeps the count and the invalidation takes
      it back; victimizing any other block makes the oldest shepherd block
      graduate; the reset adds the victim to the region. */
  lemma ReinsertRestoresCount(s: seq<Line>, k: nat, v: nat, rplsc: nat, t: nat)
    requires AllWellFormed(s, k) && k >= 1 && v < |s| && rplsc < |s|
    requires CountSC(s) == k && s[rplsc].isSC
    ensures var s1 := Victimized(s, k, v, rplsc);
      CountSC(s1[v := ResetAt(Invalidated(s1[v]), t)]) == k
  {
    var s1 := Victimized(s, k, v, rplsc);
    if s[v].isSC {
      ShepherdVictimKeepsCount(s, k, v, rplsc);
    } else {
      MainVictimGraduatesOldest(s, k, v, rplsc);
    }
    CountSCUpdate(s1, v, ResetAt(Invalidated(s1[v]), t));
  }

  /** Reinserting the victim at a tick after every insertion tick of the set
      keeps shepherd ticks distinct. */
  lemma ReinsertKeepsTicksDistinct(s: seq<Line>, k: nat, v: nat, rplsc: nat, t: nat)
    requires AllWellFormed(s, k) && k >= 1 && v < |s| && rplsc < |s|
    requires DistinctSCTicks(s)
    requires forall j :: 0 <= j < |s| ==> s[j].tickInserted < t
    ensures var s1 := Victimized(s, k, v, rplsc);
      var s2 := s1[v := ResetAt(Invalidated(s1[v]), t)];
      DistinctSCTicks(s2) && forall j :: 0 <= j < |s2| ==> s2[j].tickInserted <= t
  {
    var s1 := Victimized(s, k, v, rplsc);
    var s2 := s1[v := ResetAt(Invalidated(s1[v]), t)];
    VictimizedKeepsCandidates(s, k, v, rplsc);
    VictimizedKeepsDistinctTicks(s, k, v, rplsc);
    forall i, j | 0 <= i < |s2| && 0 <= j < |s2| && i != j && s2[i].isSC && s2[j].isSC
      ensures s2[i].tickInserted != s2[j].tickInserted
    {
      if i == v {
        assert s2[j].tickInserted == s[j].tickInserted;
      } else if j == v {
        assert s2[i].tickInserted == s[i].tickInserted;
      } else {
        assert s2[i] == s1[i] && s2[j] == s1[j];
      }
    }
  }

  /** After a miss the set is steady again (exactly k shepherd blocks, with
      distinct insertion ticks). */
  lemma MissKeepsSteady(st: SetState, k: nat)
    requires Steady(st, k)
    ensures Steady(Miss(st, k).0, k)
  {
    var s := st.lines;
    CountSCPositive(s);
    var v := SelectVictim(s, k);
    var rplsc := OldestSC(s);
    var t := st.timeTicks + 1;
    var s1 := Victimized(s, k, v, rplsc);
    var s2 := s1[v := ResetAt(Invalidated(s1[v]), t)];
    assert Miss(st, k).0 == SetState(s2, t);
    ReinsertRestoresCount(s, k, v, rplsc, t);
    ReinsertKeepsTicksDistinct(s, k, v, rplsc, t);
    assert WellFormed(s2[v], k);
    assert AllWellFormed(s2, k);
    assert Ready(SetState(s2, t), k);
  }

  /** The block a miss installs is valid, in the shepherd region, and was
      inserted strictly after every other line of the set. */
  lemma MissInstallsNewestShepherd(st: SetState, k: nat)
    requires Steady(st, k)
    ensures var (st', v) := Miss(st, k);
      && v < |st'.lines|
      && st'.timeTicks == st.timeTicks + 1
      && st'.lines[v].isValid && st'.lines[v].isSC
      && st'.lines[v].tickInserted == st'.timeTicks
      && forall j :: 0 <= j < |st'.lines| && j != v ==>
           st'.lines[j].tickInserted < st'.lines[v].tickInserted
  {
    var s := st.lines;
    CountSCPositive(s);
    VictimizedKeepsCandidates(s, k, SelectVictim(s, k), OldestSC(s));
  }

  /** A hit changes neither membership nor insertion ticks, so it keeps the
      set steady. */
  lemma HitKeepsSteady(st: SetState, k: nat, w: nat)
    requires Steady(st, k) && w < |st.lines|
    ensures Steady(Hit(st, k, w), k)
  {
    var s' := Hit(st, k, w).lines;
    TouchSetsEveryFlag(st.lines[w], k, st.timeTicks);
    CountSCSameFlags(s', st.lines);
  }

  /** n misses in a row; however many insertions a set takes, it stays
      steady, so its shepherd count stays k. */
  function Misses(st: SetState, k: nat, n: nat): (r: SetState)
    requires Steady(st, k)
    ensures Steady(r, k)
    ensures r.timeTicks == st.timeTicks + n
    decreases n
  {
    if n == 0 then st
    else
      MissKeepsSteady(st, k);
      MissInstallsNewestShepherd(st, k);
      Misses(Miss(st, k).0, k, n - 1)
  }

  /** A set of freshly instantiated records, whatever its size and the
      counter, is never steady: none of its records is a shepherd block, so
      getVictim's count assertion fails on it. */
  lemma FreshSetNeverSteady(n: nat, k: nat, t: nat)
    ensures !Ready(SetState(seq(n, _ => Fresh(k)), t), k)
    ensures !Steady(SetState(seq(n, _ => Fresh(k)), t), k)
  {
    var s := seq(n, _ => Fresh(k));
    CountSCPositive(s);
    assert CountSC(s) == 0;
  }

  /** An invalidation that does not come with the victim's reset takes a
      shepherd block out of the region and leaves the set one short of the
      k shepherd blocks getVictim asserts on entry. */
  lemma LoneInvalidateLeavesShepherdShort(st: SetState, k: nat, w: nat)
    requires Ready(st, k) && w < |st.lines| && st.lines[w].isSC
    ensures CountSC(st.lines[w := Invalidated(st.lines[w])]) == k - 1
  {
    CountSCUpdate(st.lines, w, Invalidated(st.lines[w]));
  }
}
