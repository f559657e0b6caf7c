/** The penalty countdown a player sees after a wrong answer: whole seconds left
    until the penalty end, re-read on every tick until it reaches zero. Times
    are milliseconds since the epoch. */
module PenaltyTimer {
  import opened Basics

  /** `calculateRemaining`: the whole seconds, rounded up, from `now` to the
      penalty end, and never below zero; no penalty end means nothing left. */
  function CalculateRemaining(penaltyUntil: Option<int>, now: int): (r: nat)
    ensures penaltyUntil.None? ==> r == 0
    ensures penaltyUntil.Some? ==>
              var d := penaltyUntil.value - now;
              && (r > 0 <==> d > 0)
              && (r > 0 ==> (r - 1) * 1000 < d <= r * 1000)
  {
    if penaltyUntil.None? then 0
    else
      var d := penaltyUntil.value - now;
      var seconds := -((-d) / 1000);
      if seconds > 0 then seconds else 0
  }

  /** Time only makes the count go down. */
  lemma RemainingNeverGrows(penaltyUntil: Option<int>, t1: int, t2: int)
    requires t1 <= t2
    ensures CalculateRemaining(penaltyUntil, t2) <= CalculateRemaining(penaltyUntil, t1)
  {
    if penaltyUntil.Some? {
      var r1 := CalculateRemaining(penaltyUntil, t1);
      var r2 := CalculateRemaining(penaltyUntil, t2);
      if r2 > 0 {
        assert (r2 - 1) * 1000 < r1 * 1000;
      }
    }
  }

  /** A penalty of `seconds` set at `now` reads as exactly `seconds` at that instant. */
  lemma FreshPenaltyShowsItsLength(now: int, seconds: nat)
    ensures CalculateRemaining(Some(now + seconds * 1000), now) == seconds
  {
    var r := CalculateRemaining(Some(now + seconds * 1000), now);
    if seconds > 0 {
      assert (r - 1) * 1000 < seconds * 1000 <= r * 1000;
    }
  }

  class Countdown {
    var penaltyUntil: Option<int>
    var secondsRemaining: int
    var isInPenalty: bool
    /** Whether the interval is running. */
    var ticking: bool

    /** In penalty exactly while seconds remain, and the interval runs exactly then. */
    predicate Valid()
      reads this
    {
      && secondsRemaining >= 0
      && (isInPenalty <==> secondsRemaining > 0)
      && ticking == isInPenalty
    }

    constructor ()
      ensures Valid() && penaltyUntil.None? && secondsRemaining == 0 && !isInPenalty && !ticking
    {
      penaltyUntil := None;
      secondsRemaining := 0;
      isInPenalty := false;
      ticking := false;
    }

    /** The effect run when the penalty end changes (a running interval is
        cleared first): the count is read once, and the interval starts only
        if seconds remain. */
    method Start(until: Option<int>, now: int)
      modifies this
      ensures Valid()
      ensures penaltyUntil == until
      ensures secondsRemaining == CalculateRemaining(until, now)
      ensures isInPenalty <==> CalculateRemaining(until, now) > 0
    {
      penaltyUntil := until;
      var remaining := CalculateRemaining(until, now);
      secondsRemaining := remaining;
      isInPenalty := remaining > 0;
      ticking := remaining > 0;
    }

    /** One interval tick at `now`: the count is re-read; at zero the penalty
        ends, the interval stops and `ended` reports the end callback. */
    method Tick(now: int) returns (ended: bool)
      requires Valid() && ticking
      modifies this
      ensures Valid()
      ensures penaltyUntil == old(penaltyUntil)
      ensures secondsRemaining == CalculateRemaining(penaltyUntil, now)
      ensures ended <==> CalculateRemaining(penaltyUntil, now) == 0
      ensures ended ==> !isInPenalty && !ticking
      ensures !ended ==> isInPenalty && ticking
    {
      var newRemaining := CalculateRemaining(penaltyUntil, now);
      secondsRemaining := newRemaining;
      if newRemaining <= 0 {
        isInPenalty := false;
        ticking := false;
        return true;
      }
      ended := false;
    }
  }

  /** Once the penalty end has passed, the next tick ends the penalty. */
  lemma PenaltyEndsOnTime(penaltyUntil: int, now: int)
    requires now >= penaltyUntil
    ensures CalculateRemaining(Some(penaltyUntil), now) == 0
  {
  }
}
