/** The frames of a ten-pin bowling game: the rolls each frame records, the
    10-pin ceiling it enforces on them, and the score it contributes,
    strike and spare bonuses included. */
module Frames {
  import opened Wrappers
  import opened BowlingErrors

  /** A frame. Normal frames (the first nine) record up to two rolls; the
      tenth frame also has a slot for one extra roll. A roll is just its
      pin count, an unconstrained integer: nothing rejects a negative count. */
  datatype Frame = Normal(rolls: seq<int>) | Tenth(rolls: seq<int>, extra: Option<int>)

  /** The sum of a sequence of pin counts. */
  function Sum(s: seq<int>): int
  {
    if s == [] then 0 else s[0] + Sum(s[1..])
  }

  lemma {:induction false} SumAppend(s: seq<int>, x: int)
    ensures Sum(s + [x]) == Sum(s) + x
  {
    if s == [] {
      assert s + [x] == [x];
    } else {
      assert (s + [x])[1..] == s[1..] + [x];
      SumAppend(s[1..], x);
    }
  }

  /** The sum of at most two pin counts, written out. */
  lemma SumOfShort(s: seq<int>)
    requires |s| <= 2
    ensures |s| == 0 ==> Sum(s) == 0
    ensures |s| == 1 ==> Sum(s) == s[0]
    ensures |s| == 2 ==> Sum(s) == s[0] + s[1]
  {
  }

  /** Pins knocked down by the frame's rolls (the tenth frame's extra roll excluded). */
  function TotalPins(f: Frame): int
  {
    Sum(f.rolls)
  }

  /** A strike: the first roll knocked down all ten pins. */
  predicate Strike(f: Frame)
  {
    |f.rolls| > 0 && f.rolls[0] == 10
  }

  /** A spare: exactly two rolls that together knocked down ten pins. */
  predicate Spare(f: Frame)
  {
    |f.rolls| == 2 && f.rolls[0] + f.rolls[1] == 10
  }

  /** A spare's frame has knocked down exactly ten pins. */
  lemma SpareKnocksDownTen(f: Frame)
    requires Spare(f)
    ensures TotalPins(f) == 10
  {
    SumOfShort(f.rolls);
  }

  /** Every roll the frame has recorded, the tenth frame's extra roll last. */
  function Recorded(f: Frame): seq<int>
  {
    match f
    case Normal(rolls) => rolls
    case Tenth(rolls, extra) => if extra.Some? then rolls + [extra.value] else rolls
  }

  // ---------------------------------------------------------------------------
  // Recording a roll

  /** Recording a roll in a normal frame. A roll that would take the frame
      past 10 pins is refused; otherwise it is appended, except that a frame
      already holding two rolls silently ignores it. */
  function NormalAddRoll(f: Frame, pins: int): (r: Result<Frame, BowlingError>)
    requires f.Normal?
    ensures r.Failure? <==> pins + TotalPins(f) > 10
    ensures r.Failure? ==> r.error == FramePinsExceeded
    ensures r.Success? ==> r.value.Normal?
    ensures r.Success? && |f.rolls| < 2 ==> r.value.rolls == f.rolls + [pins]
    ensures r.Success? && |f.rolls| >= 2 ==> r.value == f
  {
    if pins + TotalPins(f) > 10 then Failure(FramePinsExceeded)
    else if |f.rolls| < 2 then Success(Normal(f.rolls + [pins]))
    else Success(f)
  }

  /** Recording a roll in the tenth frame. The 10-pin ceiling is enforced
      only while the frame is not a strike (a spare does not lift it). The
      first two rolls are appended; a later roll goes into the extra slot,
      overwriting it, when the frame is a strike or a spare, and is refused
      when the frame is open. */
  function TenthAddRoll(f: Frame, pins: int): (r: Result<Frame, BowlingError>)
    requires f.Tenth?
    ensures r == Failure(FramePinsExceeded) <==> !Strike(f) && pins + TotalPins(f) > 10
    ensures r == Failure(ExtraRollWithOpenTenthFrame) <==>
              |f.rolls| >= 2 && !Strike(f) && !Spare(f) && pins + TotalPins(f) <= 10
    ensures r.Success? && |f.rolls| < 2 ==> r.value == Tenth(f.rolls + [pins], f.extra)
    ensures r.Success? && |f.rolls| >= 2 ==> (Strike(f) || Spare(f)) && r.value == Tenth(f.rolls, Some(pins))
  {
    if !Strike(f) && pins + TotalPins(f) > 10 then Failure(FramePinsExceeded)
    else if |f.rolls| < 2 then Success(Tenth(f.rolls + [pins], f.extra))
    else if Strike(f) || Spare(f) then Success(Tenth(f.rolls, Some(pins)))
    else Failure(ExtraRollWithOpenTenthFrame)
  }

  /** Recording a roll in a frame of either kind. */
  function AddRoll(f: Frame, pins: int): (r: Result<Frame, BowlingError>)
    ensures r.Success? ==> r.value.Normal? == f.Normal?
    ensures r.Success? ==> f.rolls <= r.value.rolls && |r.value.rolls| <= |f.rolls| + 1
    ensures r.Failure? ==> r.error != IndexOutOfRange
  {
    match f
    case Normal(_) => NormalAddRoll(f, pins)
    case Tenth(_, _) => TenthAddRoll(f, pins)
  }

  // ---------------------------------------------------------------------------
  // What recording keeps true

  /** The invariant of a normal frame: at most two rolls and at most ten pins. */
  predicate NormalInv(f: Frame)
  {
    f.Normal? && |f.rolls| <= 2 && TotalPins(f) <= 10
  }

  /** The invariant of the tenth frame: at most two rolls in `rolls`, at most
      ten pins in them unless the frame opened with a strike, and an extra roll
      only after two rolls that made a strike or a spare. */
  predicate TenthInv(f: Frame)
  {
    f.Tenth? && |f.rolls| <= 2 &&
    (!Strike(f) ==> TotalPins(f) <= 10) &&
    (f.extra.Some? ==> |f.rolls| == 2 && (Strike(f) || Spare(f)))
  }

  predicate FrameInv(f: Frame)
  {
    if f.Normal? then NormalInv(f) else TenthInv(f)
  }

  lemma NormalAddRollKeepsInv(f: Frame, pins: int)
    requires NormalInv(f)
    ensures NormalAddRoll(f, pins).Success? ==> NormalInv(NormalAddRoll(f, pins).value)
  {
    SumAppend(f.rolls, pins);
  }

  lemma TenthAddRollKeepsInv(f: Frame, pins: int)
    requires TenthInv(f)
    ensures TenthAddRoll(f, pins).Success? ==> TenthInv(TenthAddRoll(f, pins).value)
  {
    SumAppend(f.rolls, pins);
    if |f.rolls| == 1 {
      assert (f.rolls + [pins])[0] == f.rolls[0];
    }
  }

  lemma AddRollKeepsInv(f: Frame, pins: int)
    requires FrameInv(f)
    ensures AddRoll(f, pins).Success? ==> FrameInv(AddRoll(f, pins).value)
  {
    if f.Normal? {
      NormalAddRollKeepsInv(f, pins);
    } else {
      TenthAddRollKeepsInv(f, pins);
    }
  }

  /** Once the tenth frame opens with a strike, every roll is accepted. */
  lemma TenthAfterStrikeAcceptsAny(f: Frame, pins: int)
    requires f.Tenth? && Strike(f)
    ensures TenthAddRoll(f, pins).Success?
  {
  }

  /** On a tenth frame with a spare (and no strike), the ceiling still holds
      against the ten pins already down, so an extra roll is accepted exactly
      when it knocks down no pins. */
  lemma TenthSpareExtraRoll(f: Frame, pins: int)
    requires f.Tenth? && Spare(f) && !Strike(f)
    ensures TenthAddRoll(f, pins).Success? <==> pins <= 0
    ensures TenthAddRoll(f, pins).Success? ==> TenthAddRoll(f, pins).value.extra == Some(pins)
  {
    SumOfShort(f.rolls);
  }

  /** On a full tenth frame, accepted rolls keep replacing the extra roll:
      there is no error for a second extra roll. */
  lemma TenthExtraRollOverwrites(f: Frame, first: int, second: int)
    requires f.Tenth? && |f.rolls| == 2
    requires TenthAddRoll(f, first).Success?
    ensures var g := TenthAddRoll(f, first).value;
            TenthAddRoll(g, second).Success? ==>
              TenthAddRoll(g, second).value == Tenth(f.rolls, Some(second))
  {
  }

  // ---------------------------------------------------------------------------
  // Scoring

  /** How many of the rolls that follow a frame count as its bonus: two for
      a strike and one for a spare, but none while the next frame is empty,
      and none for a strike whose next frame holds more than two rolls. */
  function BonusRolls(f: Frame, next: Frame): nat
  {
    if next.rolls == [] then 0
    else if Strike(f) then (if |next.rolls| <= 2 then 2 else 0)
    else if Spare(f) then 1
    else 0
  }

  /** The score of a normal frame. Its bonus is read through its successor
      `next` and, for a strike followed by a single roll, through the
      successor's own successor `after` (None when `next` is the last frame).
      A strike is tested before a spare. The score is the frame's own pins
      plus the first `BonusRolls` of the rolls that follow it. */
  function NormalScore(f: Frame, next: Frame, after: Option<Frame>): (points: int)
    requires f.Normal?
    ensures points == TotalPins(f) + Sum(Take(Upcoming(next, after), BonusRolls(f, next)))
  {
    UpcomingSums(next, after);
    var points := TotalPins(f);
    if Strike(f) then
      if |next.rolls| == 2 then points + TotalPins(next)
      else if |next.rolls| == 1 then
        points + next.rolls[0] + (if after.Some? && |after.value.rolls| > 0 then after.value.rolls[0] else 0)
      else points
    else if Spare(f) then
      if |next.rolls| > 0 then points + next.rolls[0] else points
    else points
  }

  /** The score of the tenth frame: all of its pins, with no lookahead. */
  function TenthScore(f: Frame): (points: int)
    requires f.Tenth?
    ensures points == Sum(Recorded(f))
  {
    var points := TotalPins(f);
    if f.extra.Some? then
      SumAppend(f.rolls, f.extra.value);
      points + f.extra.value
    else points
  }

  /** The rolls that come after a frame, in order: its successor's, then
      those of the frame after that. */
  function Upcoming(next: Frame, after: Option<Frame>): seq<int>
  {
    next.rolls + (if after.Some? then after.value.rolls else [])
  }

  /** The first `n` elements of `s`, or all of `s` when it is shorter. */
  function Take(s: seq<int>, n: nat): (t: seq<int>)
    ensures |t| <= n && t <= s
    ensures |s| >= n ==> |t| == n
  {
    if |s| <= n then s else s[..n]
  }

  /** An open frame scores its own pins, whatever follows it. */
  lemma OpenFrameScoresItsPins(f: Frame, next: Frame, after: Option<Frame>)
    requires f.Normal? && !Strike(f) && !Spare(f)
    ensures NormalScore(f, next, after) == TotalPins(f)
  {
  }

  /** Once the next frame has a roll, a strike's bonus is the next two rolls
      that follow it, spilling into the frame after when the next frame has
      only one. */
  lemma StrikeBonusIsNextTwoRolls(f: Frame, next: Frame, after: Option<Frame>)
    requires f.Normal? && Strike(f)
    requires 1 <= |next.rolls| <= 2
    ensures NormalScore(f, next, after) == TotalPins(f) + Sum(Take(Upcoming(next, after), 2))
  {
  }

  /** Once the next frame has a roll, a spare's bonus is that one roll, and
      the frame scores ten plus it. */
  lemma SpareBonusIsNextRoll(f: Frame, next: Frame, after: Option<Frame>)
    requires f.Normal? && Spare(f) && !Strike(f)
    requires |next.rolls| >= 1
    ensures NormalScore(f, next, after) == 10 + Sum(Take(Upcoming(next, after), 1))
  {
    SpareKnocksDownTen(f);
  }

  /** The sums of the first rolls that follow a frame, written out. */
  lemma UpcomingSums(next: Frame, after: Option<Frame>)
    ensures Sum(Take(Upcoming(next, after), 0)) == 0
    ensures |next.rolls| >= 1 ==> Sum(Take(Upcoming(next, after), 1)) == next.rolls[0]
    ensures |next.rolls| == 2 ==> Sum(Take(Upcoming(next, after), 2)) == TotalPins(next)
    ensures |next.rolls| == 1 ==>
              Sum(Take(Upcoming(next, after), 2)) ==
              next.rolls[0] + (if after.Some? && |after.value.rolls| > 0 then after.value.rolls[0] else 0)
  {
    var up := Upcoming(next, after);
    assert Take(up, 0) == [];
    if |next.rolls| >= 1 {
      assert Take(up, 1) == [next.rolls[0]];
      SumOfShort(Take(up, 1));
    }
    if |next.rolls| == 2 {
      assert Take(up, 2) == next.rolls;
    } else if |next.rolls| == 1 {
      if after.Some? && |after.value.rolls| > 0 {
        assert Take(up, 2) == [next.rolls[0], after.value.rolls[0]];
      } else {
        assert Take(up, 2) == next.rolls;
      }
      SumOfShort(Take(up, 2));
    }
  }

  /** While the next frame is empty, no bonus is credited: the frame after
      it is not consulted, even when it already holds rolls. */
  lemma NoBonusBeforeNextFrame(f: Frame, next: Frame, after: Option<Frame>)
    requires f.Normal? && next.rolls == []
    ensures NormalScore(f, next, after) == TotalPins(f)
  {
  }

  /** A ten followed by a zero is both a strike and a spare; it is scored
      as a strike, taking both rolls of a full next frame. */
  lemma TenThenZeroScoresAsStrike(next: Frame, after: Option<Frame>)
    requires |next.rolls| == 2
    ensures Strike(Normal([10, 0])) && Spare(Normal([10, 0]))
    ensures NormalScore(Normal([10, 0]), next, after) == 10 + TotalPins(next)
  {
  }
}
