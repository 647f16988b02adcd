/** The SC (shepherd cache) replacement policy: the per-line replacement data
    record, updated in place, and the policy object that holds the number of
    shepherd blocks and the tie-breaking tick counter. */
module SCRP {
  import opened ReplData
  import opened VictimSelection

  /** Replacement data of one cache line. The two history arrays have one
      column per shepherd block and are allocated once, with the record. */
  class SCReplData {
    var isValid: bool
    var isSC: bool
    var tickInserted: nat
    const isTouched: array<bool>
    const tickTouched: array<nat>

    /** The record's current contents as a value. */
    ghost function View(): Line
      reads this, isTouched, tickTouched
    {
      Line(isValid, isSC, tickInserted, isTouched[..], tickTouched[..])
    }

    /** A new record for a policy with numSCBlocks shepherd blocks. */
    constructor (numSCBlocks: nat)
      ensures fresh(isTouched) && fresh(tickTouched)
      ensures View() == Fresh(numSCBlocks)
    {
      isValid, isSC, tickInserted := false, false, 0;
      isTouched := new bool[numSCBlocks](_ => false);
      tickTouched := new nat[numSCBlocks](_ => 0);
    }
  }

  /** The objects one set's candidates consist of: the records themselves. */
  ghost function Records(cands: seq<SCReplData>): set<object>
  {
    set j | 0 <= j < |cands| :: cands[j] as object
  }

  /** The history arrays of one set's candidates. */
  ghost function Histories(cands: seq<SCReplData>): set<object>
  {
    (set j | 0 <= j < |cands| :: cands[j].isTouched as object) +
    (set j | 0 <= j < |cands| :: cands[j].tickTouched as object)
  }

  /** The candidates' current contents as values. */
  ghost function Views(cands: seq<SCReplData>): (r: seq<Line>)
    reads Records(cands), Histories(cands)
    ensures |r| == |cands| && forall j :: 0 <= j < |cands| ==> r[j] == cands[j].View()
  {
    seq(|cands|, j requires 0 <= j < |cands|
                   reads Records(cands), Histories(cands)
                 => cands[j].View())
  }

  /** The candidates of one set: histories of k columns, and no record or
      history array shared between two candidates. */
  ghost predicate Candidates(cands: seq<SCReplData>, k: nat)
    reads Records(cands), Histories(cands)
  {
    AllWellFormed(Views(cands), k) &&
    (forall i, j :: 0 <= i < |cands| && 0 <= j < |cands| && i != j ==>
       cands[i] != cands[j] &&
       cands[i].isTouched != cands[j].isTouched &&
       cands[i].tickTouched != cands[j].tickTouched)
  }

  /** The SC policy: numSCBlocks is fixed at construction; timeTicks is the
      counter that stamps insertions and touches. */
  class SC {
    const numSCBlocks: nat
    var timeTicks: nat

    constructor (numSCBlocks: nat)
      ensures this.numSCBlocks == numSCBlocks && timeTicks == 0
    {
      this.numSCBlocks := numSCBlocks;
      timeTicks := 0;
    }

    /** A fresh record with one history column per shepherd block. */
    method InstantiateEntry() returns (d: SCReplData)
      ensures fresh(d) && fresh(d.isTouched) && fresh(d.tickTouched)
      ensures d.View() == Fresh(numSCBlocks)
    {
      d := new SCReplData(numSCBlocks);
    }

    /** Marks the line invalid, untouched and outside the shepherd region. */
    method Invalidate(d: SCReplData)
      modifies d, d.isTouched
      ensures d.View() == Invalidated(old(d.View()))
    {
      d.isValid := false;
      var i := 0;
      while i < d.isTouched.Length
        invariant 0 <= i <= d.isTouched.Length
        modifies d.isTouched
        invariant forall j :: 0 <= j < i ==> !d.isTouched[j]
      {
        d.isTouched[i] := false;
        i := i + 1;
      }
      d.isSC := false;
    }

    /** Sets every touch flag that is not yet set, stamping it with the
      current tick. */
    method Touch(d: SCReplData)
      requires d.isTouched.Length == numSCBlocks && d.tickTouched.Length == numSCBlocks
      modifies d.isTouched, d.tickTouched
      ensures d.View() == Touched(old(d.View()), numSCBlocks, timeTicks)
    {
      var i := 0;
      while i < numSCBlocks
        invariant 0 <= i <= numSCBlocks
        invariant forall j :: 0 <= j < i ==> d.isTouched[j]
        invariant forall j :: 0 <= j < i ==>
          d.tickTouched[j] == if old(d.isTouched[j]) then old(d.tickTouched[j]) else timeTicks
        invariant forall j :: i <= j < numSCBlocks ==>
          d.isTouched[j] == old(d.isTouched[j]) && d.tickTouched[j] == old(d.tickTouched[j])
      {
        if !d.isTouched[i] {
          d.isTouched[i] := true;
          d.tickTouched[i] := timeTicks;
        }
        i := i + 1;
      }
    }

    /** Inserts the line: advances the counter and stamps the line with it. */
    method Reset(d: SCReplData)
      modifies this, d
      ensures timeTicks == old(timeTicks) + 1
      ensures d.View() == ResetAt(old(d.View()), timeTicks)
    {
      timeTicks := timeTicks + 1;
      d.isValid := true;
      d.isSC := true;
      d.tickInserted := timeTicks;
    }

    /** The number of shepherd candidates. */
    method CountShepherds(cands: seq<SCReplData>, ghost s: seq<Line>) returns (numSC: nat)
      requires s == Views(cands)
      ensures numSC == CountSC(s)
    {
      numSC := 0;
      var i := 0;
      while i < |cands|
        invariant 0 <= i <= |cands|
        invariant numSC == CountSC(s[..i])
      {
        assert s[..i + 1][..i] == s[..i] && cands[i].View() == s[i];
        if cands[i].isSC {
          numSC := numSC + 1;
        }
        i := i + 1;
      }
      assert s[..|cands|] == s;
    }

    /** The smallest insertion tick among shepherd candidates, -1 when there
        is none (gem5's Tick(-1)). */
    method MinShepherdTick(cands: seq<SCReplData>, ghost s: seq<Line>) returns (minTick: int)
      requires s == Views(cands)
      ensures minTick == MinSCTick(s)
    {
      minTick := -1;
      var i := 0;
      while i < |cands|
        invariant 0 <= i <= |cands|
        invariant minTick == MinSCTick(s[..i])
      {
        MinSCTickStep(s, i);
        assert cands[i].View() == s[i];
        if cands[i].isSC {
          var tin := cands[i].tickInserted;
          if minTick == -1 || tin < minTick {
            minTick := tin;
          }
        }
        i := i + 1;
      }
      assert s[..|cands|] == s;
    }

    /** The last shepherd candidate inserted at tick minTick, -1 (gem5's
        nullptr) when there is none. */
    method LastShepherdAt(cands: seq<SCReplData>, ghost s: seq<Line>, minTick: int) returns (rplsc: int)
      requires s == Views(cands)
      ensures rplsc == LastSCAt(s, minTick)
    {
      rplsc := -1;
      var i := 0;
      while i < |cands|
        invariant 0 <= i <= |cands|
        invariant rplsc == LastSCAt(s[..i], minTick)
      {
        assert s[..i + 1][..i] == s[..i] && cands[i].View() == s[i];
        if cands[i].isSC {
          var tin := cands[i].tickInserted;
          if minTick == tin {
            rplsc := i;
          }
        }
        i := i + 1;
      }
      assert s[..|cands|] == s;
    }

    /** The oldest shepherd block rplsc. */
    method FindOldestShepherd(cands: seq<SCReplData>, ghost s: seq<Line>) returns (rplsc: int)
      requires s == Views(cands)
      ensures rplsc == OldestSC(s)
    {
      var minTick := MinShepherdTick(cands, s);
      rplsc := LastShepherdAt(cands, s, minTick);
    }

    /** The first invalid candidate, or |cands| when every candidate is valid. */
    method FindInvalid(cands: seq<SCReplData>, ghost s: seq<Line>) returns (r: nat)
      requires s == Views(cands)
      ensures r == FirstInvalid(s)
    {
      r := 0;
      while r < |cands|
        invariant 0 <= r <= |cands|
        invariant forall j :: 0 <= j < r ==> s[j].isValid
      {
        if !cands[r].isValid {
          return;
        }
        r := r + 1;
      }
    }

    /** The first candidate untouched in column 0; when there is none, the
        candidate with the largest column-0 touch tick, starting from the
        first candidate and moving only on a strictly larger tick. */
    method FindUntouchedOrYoungest(cands: seq<SCReplData>, ghost s: seq<Line>) returns (victim: nat)
      requires s == Views(cands) && AllWellFormed(s, numSCBlocks)
      requires numSCBlocks >= 1 && |cands| >= 1
      ensures var u := FirstUntouched(s, numSCBlocks);
              victim == if u < |s| then u else YoungestTouched(s, numSCBlocks, |s|)
    {
      victim := 0;
      var i := 0;
      while i < |cands|
        invariant 0 <= i <= |cands| && victim < |cands|
        invariant forall j :: 0 <= j < |cands| ==>
          cands[j].isTouched.Length >= 1 && cands[j].tickTouched.Length >= 1
        invariant forall j :: 0 <= j < i ==> s[j].isTouched[0]
        invariant victim == YoungestTouched(s, numSCBlocks, i)
      {
        assert cands[i].isTouched[0] == s[i].isTouched[0];
        assert cands[i].tickTouched[0] == s[i].tickTouched[0];
        assert cands[victim].tickTouched[0] == s[victim].tickTouched[0];
        if !cands[i].isTouched[0] {
          FirstUntouchedAt(s, numSCBlocks, i);
          return i;
        }
        if cands[i].tickTouched[0] > cands[victim].tickTouched[0] {
          victim := i;
        }
        i := i + 1;
      }
      FirstUntouchedAt(s, numSCBlocks, |s|);
    }

    /** Shifts one record's touch history from column scidx: ticks of columns
        scidx .. numSCBlocks-2 move down one column, the last column is
        cleared. */
    method ShiftHistory(d: SCReplData, scidx: nat)
      requires d.isTouched.Length == numSCBlocks && d.tickTouched.Length == numSCBlocks
      requires numSCBlocks >= 1
      modifies d.isTouched, d.tickTouched
      ensures d.View() == ShiftLine(old(d.View()), numSCBlocks, scidx)
    {
      var i := scidx;
      while i < numSCBlocks - 1
        invariant scidx <= i && (i <= numSCBlocks - 1 || i == scidx)
        invariant forall j :: 0 <= j < numSCBlocks ==>
          d.tickTouched[j] == if scidx <= j < i then old(d.tickTouched[j + 1]) else old(d.tickTouched[j])
        invariant d.isTouched[..] == old(d.isTouched[..])
      {
        d.tickTouched[i] := d.tickTouched[i + 1];
        i := i + 1;
      }
      d.tickTouched[numSCBlocks - 1] := 0;
      d.isTouched[numSCBlocks - 1] := false;
    }

    /** Shifts every candidate's touch history from column scidx. */
    method ShiftSC(cands: seq<SCReplData>, scidx: nat)
      requires Candidates(cands, numSCBlocks) && numSCBlocks >= 1
      modifies Histories(cands)
      ensures forall j :: 0 <= j < |cands| ==>
        cands[j].View() == ShiftLine(old(cands[j].View()), numSCBlocks, scidx)
    {
      var c := 0;
      while c < |cands|
        invariant 0 <= c <= |cands|
        invariant forall j :: 0 <= j < c ==>
          cands[j].View() == ShiftLine(old(cands[j].View()), numSCBlocks, scidx)
        invariant forall j :: c <= j < |cands| ==> cands[j].View() == old(cands[j].View())
      {
        ShiftHistory(cands[c], scidx);
        c := c + 1;
      }
    }

    /** scidx for a shepherd victim: the number of shepherd candidates
        inserted after it. */
    method ShepherdIndex(cands: seq<SCReplData>, ghost s: seq<Line>, victim: nat) returns (scidx: nat)
      requires s == Views(cands) && victim < |cands|
      ensures scidx == ScIndex(s, victim)
    {
      scidx := 0;
      var i := 0;
      while i < |cands|
        invariant 0 <= i <= |cands|
        invariant scidx == CountInsertedAfter(s[..i], s[victim].tickInserted)
      {
        assert s[..i + 1][..i] == s[..i] && cands[i].View() == s[i];
        if cands[i].isSC && cands[i].tickInserted > cands[victim].tickInserted {
          scidx := scidx + 1;
        }
        i := i + 1;
      }
      assert s[..|cands|] == s;
    }

    /** Takes candidate rplsc out of the shepherd region. */
    method Graduate(cands: seq<SCReplData>, rplsc: nat)
      requires Candidates(cands, numSCBlocks) && rplsc < |cands|
      modifies cands[rplsc]
      ensures Candidates(cands, numSCBlocks)
      ensures Views(cands) == old(Views(cands))[rplsc := old(Views(cands))[rplsc].(isSC := false)]
    {
      ghost var s := Views(cands);
      cands[rplsc].isSC := false;
      ghost var u := s[rplsc := s[rplsc].(isSC := false)];
      assert forall j :: 0 <= j < |cands| ==> cands[j].View() == u[j];
    }

    /** Victimizes candidate victim: a shepherd victim shifts the histories
        from the number of shepherd candidates inserted after it; any other
        victim makes rplsc leave the shepherd region and shifts from 0. */
    method Victimize(cands: seq<SCReplData>, victim: nat, rplsc: nat)
      requires Candidates(cands, numSCBlocks) && numSCBlocks >= 1
      requires victim < |cands| && rplsc < |cands|
      modifies Records(cands), Histories(cands)
      ensures Views(cands) == Victimized(old(Views(cands)), numSCBlocks, victim, rplsc)
    {
      ghost var s := Views(cands);
      if cands[victim].isSC {
        var scidx := ShepherdIndex(cands, s, victim);
        ShiftSC(cands, scidx);
        assert Views(cands) == ShiftAll(s, numSCBlocks, scidx);
      } else {
        Graduate(cands, rplsc);
        ghost var u := Views(cands);
        ShiftSC(cands, 0);
        assert Views(cands) == ShiftAll(u, numSCBlocks, 0);
      }
    }

    /** The victim: the first invalid candidate if there is one, otherwise
        the choice among touched and untouched candidates. */
    method ChooseVictim(cands: seq<SCReplData>, ghost s: seq<Line>) returns (victim: nat)
      requires s == Views(cands) && AllWellFormed(s, numSCBlocks)
      requires numSCBlocks >= 1 && |cands| >= 1
      ensures victim == SelectVictim(s, numSCBlocks)
    {
      var inv := FindInvalid(cands, s);
      if inv < |cands| {
        return inv;
      }
      victim := FindUntouchedOrYoungest(cands, s);
    }

    /** The read-only half of getVictim: checks the shepherd count, finds
        the oldest shepherd block and chooses the victim. */
    method SelectCandidates(cands: seq<SCReplData>, ghost s: seq<Line>) returns (victim: nat, rplsc: nat)
      requires s == Views(cands) && AllWellFormed(s, numSCBlocks)
      requires |cands| > numSCBlocks
      requires CountSC(s) == numSCBlocks
      requires numSCBlocks >= 1
      ensures victim == SelectVictim(s, numSCBlocks)
      ensures rplsc == OldestSC(s)
    {
      var numSC := CountShepherds(cands, s);
      assert numSC == numSCBlocks;
      var oldest := FindOldestShepherd(cands, s);
      OldestSCExists(s);
      rplsc := oldest;
      victim := ChooseVictim(cands, s);
    }

    /** Chooses the victim among one set's candidates and victimizes it. */
    method GetVictim(cands: seq<SCReplData>) returns (victim: nat)
      requires Candidates(cands, numSCBlocks)
      requires |cands| > 0
      requires |cands| > numSCBlocks
      requires CountSC(Views(cands)) == numSCBlocks
      requires numSCBlocks >= 1
      modifies Records(cands), Histories(cands)
      ensures victim == SelectVictim(old(Views(cands)), numSCBlocks)
      ensures var s := old(Views(cands));
              var rplsc := OldestSC(s);
              0 <= rplsc && Views(cands) == Victimized(s, numSCBlocks, victim, rplsc)
      ensures Candidates(cands, numSCBlocks)
    {
      ghost var s := Views(cands);
      var rplsc;
      victim, rplsc := SelectCandidates(cands, s);
      assert Views(cands) == s;
      assert Candidates(cands, numSCBlocks);
      Victimize(cands, victim, rplsc);
      VictimizedKeepsCandidates(s, numSCBlocks, victim, rplsc);
    }
  }
}
