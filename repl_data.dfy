/** The replacement data the SC policy keeps for one cache line, as a value,
    and the updates that the policy's per-line operations make to it. */
module ReplData {

  /** One line's replacement data: validity, membership of the shepherd
      ("SC") region, the tick of its last insertion, and a touch history of
      numSCBlocks columns (a flag and the tick it was set at, per column). */
  datatype Line = Line(
    isValid: bool,
    isSC: bool,
    tickInserted: nat,
    isTouched: seq<bool>,
    tickTouched: seq<nat>)

  /** Both history columns have the policy's length k = numSCBlocks. */
  predicate WellFormed(l: Line, k: nat)
  {
    |l.isTouched| == k && |l.tickTouched| == k
  }

  /** The data of a freshly instantiated entry for a policy with k shepherd
      blocks: invalid, outside the shepherd region, inserted at tick 0, with
      an untouched history. */
  function Fresh(k: nat): (r: Line)
    ensures WellFormed(r, k) && r.tickInserted == 0
  {
    Line(false, false, 0, seq(k, _ => false), seq(k, _ => 0))
  }

  /** invalidate: clears validity, every touch flag and shepherd membership;
      the insertion tick and the touch ticks stay as they were. */
  function Invalidated(l: Line): (r: Line)
    ensures !r.isValid && !r.isSC
    ensures |r.isTouched| == |l.isTouched| && forall i :: 0 <= i < |r.isTouched| ==> !r.isTouched[i]
    ensures r.tickInserted == l.tickInserted && r.tickTouched == l.tickTouched
  {
    l.(isValid := false, isSC := false, isTouched := seq(|l.isTouched|, _ => false))
  }

  /** touch at tick now: every flag that was not yet set is set and stamped
      with now; flags that were already set keep their tick. */
  function Touched(l: Line, k: nat, now: nat): (r: Line)
    requires WellFormed(l, k)
    ensures WellFormed(r, k)
    ensures r.isValid == l.isValid && r.isSC == l.isSC && r.tickInserted == l.tickInserted
  {
    l.(isTouched := seq(k, _ => true),
       tickTouched := seq(k, i requires 0 <= i < k =>
                            if l.isTouched[i] then l.tickTouched[i] else now))
  }

  /** reset (insertion) at tick: valid, in the shepherd region, inserted at
      tick; the touch history is left as it was. */
  function ResetAt(l: Line, tick: nat): (r: Line)
    ensures r.isValid && r.isSC && r.tickInserted == tick
    ensures r.isTouched == l.isTouched && r.tickTouched == l.tickTouched
  {
    l.(isValid := true, isSC := true, tickInserted := tick)
  }

  /** The history shift one victimization applies to every candidate: the
      touch ticks of columns scidx .. k-2 move one column down, the last
      column is cleared (tick 0, flag false), columns below scidx stay. */
  function ShiftLine(l: Line, k: nat, scidx: nat): (r: Line)
    requires WellFormed(l, k) && k >= 1
    ensures WellFormed(r, k)
    ensures !r.isTouched[k - 1] && r.tickTouched[k - 1] == 0
    ensures forall i :: 0 <= i < k - 1 ==> r.isTouched[i] == l.isTouched[i]
    ensures forall i :: 0 <= i < scidx && i < k - 1 ==> r.tickTouched[i] == l.tickTouched[i]
  {
    l.(tickTouched := seq(k, i requires 0 <= i < k =>
                            if i == k - 1 then 0
                            else if scidx <= i then l.tickTouched[i + 1]
                            else l.tickTouched[i]),
       isTouched := l.isTouched[k - 1 := false])
  }

  lemma FreshIsUntouchedAtTickZero(k: nat)
    ensures WellFormed(Fresh(k), k)
    ensures Fresh(k).tickInserted == 0 && !Fresh(k).isValid && !Fresh(k).isSC
    ensures forall i :: 0 <= i < k ==> !Fresh(k).isTouched[i] && Fresh(k).tickTouched[i] == 0
  {
  }

  /** After a touch every flag is set; a flag that was set keeps its tick, a
      newly set one carries the current tick; nothing else changes. */
  lemma TouchSetsEveryFlag(l: Line, k: nat, now: nat)
    requires WellFormed(l, k)
    ensures WellFormed(Touched(l, k, now), k)
    ensures forall i :: 0 <= i < k ==> Touched(l, k, now).isTouched[i]
    ensures forall i :: 0 <= i < k && l.isTouched[i] ==> Touched(l, k, now).tickTouched[i] == l.tickTouched[i]
    ensures forall i :: 0 <= i < k && !l.isTouched[i] ==> Touched(l, k, now).tickTouched[i] == now
    ensures Touched(l, k, now).isValid == l.isValid && Touched(l, k, now).isSC == l.isSC
    ensures Touched(l, k, now).tickInserted == l.tickInserted
  {
  }

  /** A second touch changes nothing, whatever the tick it happens at. */
  lemma TouchIdempotent(l: Line, k: nat, now: nat, later: nat)
    requires WellFormed(l, k)
    ensures Touched(Touched(l, k, now), k, later) == Touched(l, k, now)
  {
    var t := Touched(l, k, now);
    var u := Touched(t, k, later);
    assert u.isTouched == t.isTouched;
    assert u.tickTouched == t.tickTouched;
  }

  /** The shift (scidx below k) removes column scidx of the touch ticks and
      appends a cleared column; only the last touch flag is cleared. */
  lemma ShiftRemovesColumn(l: Line, k: nat, scidx: nat)
    requires WellFormed(l, k) && k >= 1 && scidx < k
    ensures ShiftLine(l, k, scidx).tickTouched
            == l.tickTouched[..scidx] + l.tickTouched[scidx + 1..] + [0]
    ensures ShiftLine(l, k, scidx).isTouched == l.isTouched[..k - 1] + [false]
  {
    var r := ShiftLine(l, k, scidx);
    var want := l.tickTouched[..scidx] + l.tickTouched[scidx + 1..] + [0];
    assert |want| == k;
    forall i | 0 <= i < k
      ensures r.tickTouched[i] == want[i]
    {
      if i < scidx {
        assert want[i] == l.tickTouched[i];
      } else if i < k - 1 {
        assert want[i] == l.tickTouched[i + 1];
      }
    }
    assert r.isTouched == l.isTouched[..k - 1] + [false];
  }

  /** A shift from column k-1 or above only clears the last column. */
  lemma ShiftFromLastClearsLast(l: Line, k: nat, scidx: nat)
    requires WellFormed(l, k) && k >= 1 && scidx >= k - 1
    ensures ShiftLine(l, k, scidx).tickTouched == l.tickTouched[k - 1 := 0]
  {
  }

  /** The shift never changes validity, membership or insertion tick. */
  lemma ShiftKeepsIdentity(l: Line, k: nat, scidx: nat)
    requires WellFormed(l, k) && k >= 1
    ensures WellFormed(ShiftLine(l, k, scidx), k)
    ensures ShiftLine(l, k, scidx).isValid == l.isValid
    ensures ShiftLine(l, k, scidx).isSC == l.isSC
    ensures ShiftLine(l, k, scidx).tickInserted == l.tickInserted
  {
  }

  /** reset after invalidate gives a valid shepherd line stamped with the
      new tick, keeping the (cleared) touch flags of the invalidation. */
  lemma InvalidateThenReset(l: Line, tick: nat)
    ensures ResetAt(Invalidated(l), tick).isValid && ResetAt(Invalidated(l), tick).isSC
    ensures ResetAt(Invalidated(l), tick).tickInserted == tick
    ensures forall i :: 0 <= i < |l.isTouched| ==> !ResetAt(Invalidated(l), tick).isTouched[i]
  {
  }
}
