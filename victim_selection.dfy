/** Victim selection of the SC policy over the candidates of one set, as
    functions of the candidates' replacement data: which candidate is the
    victim, which shepherd block is the oldest, and how the victimization
    rewrites every candidate's data. */
module VictimSelection {
  import opened ReplData

  /** Every candidate has a history of k columns. */
  predicate AllWellFormed(s: seq<Line>, k: nat)
  {
    forall j :: 0 <= j < |s| ==> WellFormed(s[j], k)
  }

  /** Shepherd blocks of one set carry pairwise distinct insertion ticks. */
  predicate DistinctSCTicks(s: seq<Line>)
  {
    forall i, j :: 0 <= i < |s| && 0 <= j < |s| && i != j && s[i].isSC && s[j].isSC ==>
      s[i].tickInserted != s[j].tickInserted
  }

  // ---------------------------------------------------------------------------
  // Counting shepherd blocks
  // ---------------------------------------------------------------------------

  /** Number of candidates in the shepherd region. */
  function CountSC(s: seq<Line>): (n: nat)
    ensures n <= |s|
  {
    if s == [] then 0
    else CountSC(s[..|s| - 1]) + (if s[|s| - 1].isSC then 1 else 0)
  }

  /** Number of shepherd candidates inserted strictly after tick t. */
  function CountInsertedAfter(s: seq<Line>, t: nat): (n: nat)
    ensures n <= CountSC(s)
  {
    if s == [] then 0
    else
      var last := s[|s| - 1];
      CountInsertedAfter(s[..|s| - 1], t) + (if last.isSC && last.tickInserted > t then 1 else 0)
  }

  /** The shift index of a shepherd victim: the number of shepherd
      candidates inserted after it. */
  function ScIndex(s: seq<Line>, v: nat): (r: nat)
    requires v < |s|
    ensures r <= CountSC(s)
  {
    CountInsertedAfter(s, s[v].tickInserted)
  }

  lemma {:induction false} CountSCPositive(s: seq<Line>)
    ensures CountSC(s) > 0 <==> exists j :: 0 <= j < |s| && s[j].isSC
  {
    if s != [] {
      var p := s[..|s| - 1];
      CountSCPositive(p);
      if exists j :: 0 <= j < |p| && p[j].isSC {
        var j :| 0 <= j < |p| && p[j].isSC;
        assert s[j] == p[j];
      }
      if exists j :: 0 <= j < |s| && s[j].isSC {
        var j :| 0 <= j < |s| && s[j].isSC;
        if j < |p| { assert p[j] == s[j]; }
      }
    }
  }

  /** Replacing one candidate changes the count by the change of that one. */
  lemma {:induction false} CountSCUpdate(s: seq<Line>, r: nat, x: Line)
    requires r < |s|
    ensures CountSC(s[r := x]) + (if s[r].isSC then 1 else 0)
            == CountSC(s) + (if x.isSC then 1 else 0)
  {
    var u := s[r := x];
    if r < |s| - 1 {
      assert u[..|u| - 1] == s[..|s| - 1][r := x];
      CountSCUpdate(s[..|s| - 1], r, x);
    } else {
      assert u[..|u| - 1] == s[..|s| - 1];
    }
  }

  /** Two candidate lists with the same membership flags have the same count. */
  lemma {:induction false} CountSCSameFlags(s: seq<Line>, t: seq<Line>)
    requires |s| == |t|
    requires forall j :: 0 <= j < |s| ==> s[j].isSC == t[j].isSC
    ensures CountSC(s) == CountSC(t)
  {
    if s != [] {
      CountSCSameFlags(s[..|s| - 1], t[..|t| - 1]);
    }
  }

  /** A shepherd candidate inserted no later than t is never counted as
      inserted after t, so the count falls short of all shepherd blocks. */
  lemma {:induction false} InsertedAfterMissesOne(s: seq<Line>, t: nat, v: nat)
    requires v < |s| && s[v].isSC && s[v].tickInserted <= t
    ensures CountInsertedAfter(s, t) < CountSC(s)
  {
    if v < |s| - 1 {
      InsertedAfterMissesOne(s[..|s| - 1], t, v);
    }
  }

  /** A shepherd victim's shift index is below the number of shepherd
      blocks, so it names one of the k history columns. */
  lemma ScIndexBelowCount(s: seq<Line>, v: nat)
    requires v < |s| && s[v].isSC
    ensures ScIndex(s, v) < CountSC(s)
  {
    InsertedAfterMissesOne(s, s[v].tickInserted, v);
  }

  lemma {:induction false} InsertedAfterAllButOne(s: seq<Line>, t: nat, v: nat)
    requires v < |s| && s[v].isSC && s[v].tickInserted == t
    requires forall j :: 0 <= j < |s| && j != v && s[j].isSC ==> s[j].tickInserted > t
    ensures CountInsertedAfter(s, t) == CountSC(s) - 1
  {
    var p := s[..|s| - 1];
    if v < |s| - 1 {
      InsertedAfterAllButOne(p, t, v);
    } else {
      InsertedAfterAllEqual(p, t);
    }
  }

  lemma {:induction false} InsertedAfterAllEqual(s: seq<Line>, t: nat)
    requires forall j :: 0 <= j < |s| && s[j].isSC ==> s[j].tickInserted > t
    ensures CountInsertedAfter(s, t) == CountSC(s)
  {
    if s != [] {
      InsertedAfterAllEqual(s[..|s| - 1], t);
    }
  }

  lemma {:induction false} InsertedAfterNone(s: seq<Line>, t: nat)
    requires forall j :: 0 <= j < |s| && s[j].isSC ==> s[j].tickInserted <= t
    ensures CountInsertedAfter(s, t) == 0
  {
    if s != [] {
      InsertedAfterNone(s[..|s| - 1], t);
    }
  }

  /** The newest shepherd block, as victim, shifts the history from column 0. */
  lemma NewestVictimShiftsFromZero(s: seq<Line>, v: nat)
    requires v < |s| && s[v].isSC
    requires forall j :: 0 <= j < |s| && s[j].isSC ==> s[j].tickInserted <= s[v].tickInserted
    ensures ScIndex(s, v) == 0
  {
    InsertedAfterNone(s, s[v].tickInserted);
  }

  // ---------------------------------------------------------------------------
  // The oldest shepherd block (rplsc)
  // ---------------------------------------------------------------------------

  /** The smallest insertion tick among shepherd candidates, or -1 when there
      is none (the Tick(-1) start value of the scanning loop). */
  function MinSCTick(s: seq<Line>): (m: int)
    ensures m == -1 <==> forall j :: 0 <= j < |s| ==> !s[j].isSC
    ensures m != -1 ==> exists j :: 0 <= j < |s| && s[j].isSC && s[j].tickInserted == m
    ensures forall j :: 0 <= j < |s| && s[j].isSC ==> m <= s[j].tickInserted
  {
    if s == [] then -1
    else
      var p := s[..|s| - 1];
      var m := MinSCTick(p);
      var last := s[|s| - 1];
      assert forall j :: 0 <= j < |p| ==> s[j] == p[j];
      if last.isSC && (m == -1 || last.tickInserted < m) then last.tickInserted else m
  }

  /** One more candidate scanned: the minimum moves to it exactly when it is
      a shepherd block with a smaller tick (or the first one seen). */
  lemma MinSCTickStep(s: seq<Line>, i: nat)
    requires i < |s|
    ensures MinSCTick(s[..i + 1]) ==
      if s[i].isSC && (MinSCTick(s[..i]) == -1 || s[i].tickInserted < MinSCTick(s[..i]))
      then s[i].tickInserted else MinSCTick(s[..i])
  {
    assert s[..i + 1][..i] == s[..i];
  }

  /** The last shepherd candidate inserted at tick t, or -1 (no such block). */
  function LastSCAt(s: seq<Line>, t: int): (r: int)
    ensures -1 <= r < |s|
    ensures r != -1 ==> s[r].isSC && s[r].tickInserted == t
    ensures forall j :: r < j < |s| ==> !(s[j].isSC && s[j].tickInserted == t)
  {
    if s == [] then -1
    else if s[|s| - 1].isSC && s[|s| - 1].tickInserted == t then |s| - 1
    else
      var p := s[..|s| - 1];
      assert forall j :: 0 <= j < |p| ==> s[j] == p[j];
      LastSCAt(p, t)
  }

  /** The oldest shepherd block rplsc: a shepherd candidate with minimal
      insertion tick (the last one, should several share it); -1 exactly when
      there is no shepherd candidate. */
  function OldestSC(s: seq<Line>): (r: int)
    ensures -1 <= r < |s|
    ensures r == -1 <==> forall j :: 0 <= j < |s| ==> !s[j].isSC
    ensures r != -1 ==> s[r].isSC
    ensures r != -1 ==> forall j :: 0 <= j < |s| && s[j].isSC ==> s[r].tickInserted <= s[j].tickInserted
    ensures r != -1 ==> forall j :: r < j < |s| && s[j].isSC ==> s[r].tickInserted < s[j].tickInserted
  {
    var m := MinSCTick(s);
    LastSCAt(s, m)
  }

  /** A set with a shepherd block has an oldest one. */
  lemma OldestSCExists(s: seq<Line>)
    requires CountSC(s) > 0
    ensures 0 <= OldestSC(s) < |s| && s[OldestSC(s)].isSC
  {
    CountSCPositive(s);
  }

  /** With distinct shepherd ticks the oldest block is the only one not
      inserted after it, so its shift index is the last history column. */
  lemma OldestVictimShiftsLastColumn(s: seq<Line>)
    requires DistinctSCTicks(s)
    requires OldestSC(s) != -1
    ensures ScIndex(s, OldestSC(s)) == CountSC(s) - 1
  {
    var v := OldestSC(s);
    InsertedAfterAllButOne(s, s[v].tickInserted, v);
  }

  // ---------------------------------------------------------------------------
  // Choosing the victim
  // ---------------------------------------------------------------------------

  /** Index of the first invalid candidate, or |s| when all are valid. */
  function FirstInvalid(s: seq<Line>): (r: nat)
    ensures r <= |s|
    ensures forall j :: 0 <= j < r ==> s[j].isValid
    ensures r < |s| ==> !s[r].isValid
  {
    if s == [] then 0
    else if !s[0].isValid then 0
    else 1 + FirstInvalid(s[1..])
  }

  /** Index of the first candidate whose column 0 is untouched, or |s|. */
  function FirstUntouched(s: seq<Line>, k: nat): (r: nat)
    requires AllWellFormed(s, k) && k >= 1
    ensures r <= |s|
    ensures forall j :: 0 <= j < r ==> s[j].isTouched[0]
    ensures r < |s| ==> !s[r].isTouched[0]
  {
    if s == [] then 0
    else if !s[0].isTouched[0] then 0
    else 1 + FirstUntouched(s[1..], k)
  }

  /** The first untouched candidate is determined by the touched prefix
      before it. */
  lemma FirstUntouchedAt(s: seq<Line>, k: nat, i: nat)
    requires AllWellFormed(s, k) && k >= 1 && i <= |s|
    requires forall j :: 0 <= j < i ==> s[j].isTouched[0]
    requires i < |s| ==> !s[i].isTouched[0]
    ensures FirstUntouched(s, k) == i
  {
  }

  /** The candidate among the first n (the first one when n is 0) with the
      strictly largest column-0 touch tick, the earliest one on ties. */
  function YoungestTouched(s: seq<Line>, k: nat, n: nat): (r: nat)
    requires AllWellFormed(s, k) && k >= 1 && |s| >= 1 && n <= |s|
    ensures r < |s| && (r == 0 || r < n)
    ensures forall j :: 0 <= j < n ==> s[j].tickTouched[0] <= s[r].tickTouched[0]
    ensures forall j :: 0 <= j < r ==> s[j].tickTouched[0] < s[r].tickTouched[0]
  {
    if n == 0 then 0
    else
      var b := YoungestTouched(s, k, n - 1);
      if s[n - 1].tickTouched[0] > s[b].tickTouched[0] then n - 1 else b
  }

  /** The victim getVictim returns: the first invalid candidate; else the
      first candidate untouched in column 0; else the candidate touched most
      recently in column 0 (the earliest such). */
  function SelectVictim(s: seq<Line>, k: nat): (r: nat)
    requires AllWellFormed(s, k) && k >= 1 && |s| >= 1
    ensures r < |s|
  {
    var inv := FirstInvalid(s);
    if inv < |s| then inv
    else
      var u := FirstUntouched(s, k);
      if u < |s| then u else YoungestTouched(s, k, |s|)
  }

  /** The priority order of the victim: an invalid candidate whenever there
      is one (the first); otherwise a candidate untouched in column 0
      whenever there is one (the first); otherwise the candidate with the
      largest column-0 touch tick, the earliest on ties. */
  lemma SelectVictimPriority(s: seq<Line>, k: nat)
    requires AllWellFormed(s, k) && k >= 1 && |s| >= 1
    ensures var r := SelectVictim(s, k);
      && (!s[r].isValid <==> exists j :: 0 <= j < |s| && !s[j].isValid)
      && (!s[r].isValid ==> forall j :: 0 <= j < r ==> s[j].isValid)
      && ((forall j :: 0 <= j < |s| ==> s[j].isValid) ==>
            (!s[r].isTouched[0] <==> exists j :: 0 <= j < |s| && !s[j].isTouched[0]))
      && ((forall j :: 0 <= j < |s| ==> s[j].isValid) && !s[r].isTouched[0] ==>
            forall j :: 0 <= j < r ==> s[j].isTouched[0])
      && ((forall j :: 0 <= j < |s| ==> s[j].isValid && s[j].isTouched[0]) ==>
            (forall j :: 0 <= j < |s| ==> s[j].tickTouched[0] <= s[r].tickTouched[0]) &&
            (forall j :: 0 <= j < r ==> s[j].tickTouched[0] < s[r].tickTouched[0]))
  {
  }

  /** An invalidated entry is the next probable victim: in a set holding it,
      the victim is invalid and is that entry or an earlier one. */
  lemma InvalidatedIsNextVictim(s: seq<Line>, k: nat, w: nat, x: Line)
    requires AllWellFormed(s, k) && k >= 1
    requires w < |s| && s[w] == Invalidated(x)
    ensures !s[SelectVictim(s, k)].isValid && SelectVictim(s, k) <= w
  {
    SelectVictimPriority(s, k);
  }

  // ---------------------------------------------------------------------------
  // Victimizing
  // ---------------------------------------------------------------------------

  /** Every candidate's history shifted from column scidx. */
  function ShiftAll(s: seq<Line>, k: nat, scidx: nat): (r: seq<Line>)
    requires AllWellFormed(s, k) && k >= 1
    ensures |r| == |s| && AllWellFormed(r, k)
    ensures forall j :: 0 <= j < |s| ==>
      r[j].isValid == s[j].isValid && r[j].isSC == s[j].isSC && r[j].tickInserted == s[j].tickInserted
  {
    seq(|s|, j requires 0 <= j < |s| => ShiftLine(s[j], k, scidx))
  }

  /** The candidates' data after victimizing v: a shepherd victim shifts the
      history from its shift index; any other victim makes rplsc leave the
      shepherd region and shifts the history from column 0. */
  function Victimized(s: seq<Line>, k: nat, v: nat, rplsc: nat): (r: seq<Line>)
    requires AllWellFormed(s, k) && k >= 1 && v < |s| && rplsc < |s|
    ensures |r| == |s| && AllWellFormed(r, k)
    ensures forall j :: 0 <= j < |s| && j != rplsc ==> r[j].isSC == s[j].isSC
  {
    if s[v].isSC then ShiftAll(s, k, ScIndex(s, v))
    else ShiftAll(s[rplsc := s[rplsc].(isSC := false)], k, 0)
  }

  /** Victimizing keeps the set's shape and never changes any candidate's
      validity or insertion tick; the touch history of every candidate is
      shifted from the victim's shift index (0 for a non-shepherd victim). */
  lemma VictimizedKeepsCandidates(s: seq<Line>, k: nat, v: nat, rplsc: nat)
    requires AllWellFormed(s, k) && k >= 1 && v < |s| && rplsc < |s|
    ensures |Victimized(s, k, v, rplsc)| == |s|
    ensures AllWellFormed(Victimized(s, k, v, rplsc), k)
    ensures forall j :: 0 <= j < |s| ==>
      Victimized(s, k, v, rplsc)[j].isValid == s[j].isValid &&
      Victimized(s, k, v, rplsc)[j].tickInserted == s[j].tickInserted
    ensures forall j :: 0 <= j < |s| ==>
      var scidx := if s[v].isSC then ScIndex(s, v) else 0;
      Victimized(s, k, v, rplsc)[j].isTouched == ShiftLine(s[j], k, scidx).isTouched &&
      Victimized(s, k, v, rplsc)[j].tickTouched == ShiftLine(s[j], k, scidx).tickTouched
  {
  }

  /** A shepherd victim leaves every membership flag, and so the shepherd
      count, as it was. */
  lemma ShepherdVictimKeepsCount(s: seq<Line>, k: nat, v: nat, rplsc: nat)
    requires AllWellFormed(s, k) && k >= 1 && v < |s| && rplsc < |s|
    requires s[v].isSC
    ensures forall j :: 0 <= j < |s| ==> Victimized(s, k, v, rplsc)[j].isSC == s[j].isSC
    ensures CountSC(Victimized(s, k, v, rplsc)) == CountSC(s)
  {
    CountSCSameFlags(Victimized(s, k, v, rplsc), s);
  }

  /** A victim outside the shepherd region makes exactly rplsc leave it, so
      the shepherd count drops by one. */
  lemma MainVictimGraduatesOldest(s: seq<Line>, k: nat, v: nat, rplsc: nat)
    requires AllWellFormed(s, k) && k >= 1 && v < |s| && rplsc < |s|
    requires !s[v].isSC && s[rplsc].isSC
    ensures !Victimized(s, k, v, rplsc)[rplsc].isSC
    ensures forall j :: 0 <= j < |s| && j != rplsc ==> Victimized(s, k, v, rplsc)[j].isSC == s[j].isSC
    ensures CountSC(Victimized(s, k, v, rplsc)) == CountSC(s) - 1
  {
    var u := s[rplsc := s[rplsc].(isSC := false)];
    CountSCUpdate(s, rplsc, s[rplsc].(isSC := false));
    CountSCSameFlags(Victimized(s, k, v, rplsc), u);
  }

  /** Victimizing only ever clears membership flags and keeps insertion
      ticks, so distinct shepherd ticks stay distinct. */
  lemma VictimizedKeepsDistinctTicks(s: seq<Line>, k: nat, v: nat, rplsc: nat)
    requires AllWellFormed(s, k) && k >= 1 && v < |s| && rplsc < |s|
    requires DistinctSCTicks(s)
    ensures DistinctSCTicks(Victimized(s, k, v, rplsc))
  {
    var r := Victimized(s, k, v, rplsc);
    assert forall j :: 0 <= j < |s| ==> r[j].isSC ==> s[j].isSC;
  }
}
