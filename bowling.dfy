/** A ten-pin bowling game: ten chained frames, the index of the frame that
    takes the next roll, and the total score.

    The routing is modelled as the code has it: the frame index advances
    after every accepted roll (by two after a strike), and nothing bounds it,
    so a roll past the last frame fails. A consequence, proved below, is that
    through the game each frame receives at most one roll, no frame ever
    earns a bonus, and the score is the plain sum of the pins of the accepted
    rolls. */
module Bowling {
  import opened Wrappers
  import opened BowlingErrors
  import opened Frames

  const FrameCount := 10

  /** The frames of a new game: nine empty normal frames, then an empty tenth frame. */
  function FreshFrames(): (frames: seq<Frame>)
    ensures WellFormed(frames)
    ensures forall i :: 0 <= i < |frames| ==> Recorded(frames[i]) == []
  {
    seq(FrameCount, i => if i < FrameCount - 1 then Normal([]) else Tenth([], None))
  }

  /** Ten frames, the first nine normal and the last the tenth frame. */
  predicate WellFormed(frames: seq<Frame>)
  {
    |frames| == FrameCount &&
    (forall i :: 0 <= i < FrameCount - 1 ==> frames[i].Normal?) &&
    frames[FrameCount - 1].Tenth?
  }

  /** The frame that frame `i` links to as its next frame; the last frame links to nothing. */
  function NextFrame(frames: seq<Frame>, i: nat): (next: Option<Frame>)
    requires i < |frames|
    ensures next.Some? <==> i < |frames| - 1
  {
    if i + 1 < |frames| then Some(frames[i + 1]) else None
  }

  /** The score of frame `i`, looking ahead through the chain when it is a normal frame. */
  function FrameScore(frames: seq<Frame>, i: nat): int
    requires WellFormed(frames) && i < |frames|
  {
    match frames[i]
    case Normal(_) => NormalScore(frames[i], NextFrame(frames, i).value, NextFrame(frames, i + 1))
    case Tenth(_, _) => TenthScore(frames[i])
  }

  /** Every frame scores its own recorded pins plus, for a normal frame, the
      first `BonusRolls` of the rolls recorded in the two frames after it. */
  lemma FrameScoreIsPinsPlusBonus(frames: seq<Frame>, i: nat)
    requires WellFormed(frames) && i < |frames|
    ensures FrameScore(frames, i) == Sum(Recorded(frames[i])) +
              if frames[i].Tenth? then 0
              else Sum(Take(Upcoming(frames[i + 1], NextFrame(frames, i + 1)), BonusRolls(frames[i], frames[i + 1])))
  {
  }

  /** The sum of the scores of frames `k` to the last. */
  function ScoresFrom(frames: seq<Frame>, k: nat): int
    requires WellFormed(frames) && k <= |frames|
    decreases |frames| - k
  {
    if k == |frames| then 0 else FrameScore(frames, k) + ScoresFrom(frames, k + 1)
  }

  /** The game's score: the sum of the ten frame scores. */
  function GameScore(frames: seq<Frame>): int
    requires WellFormed(frames)
  {
    ScoresFrom(frames, 0)
  }

  /** The pins of every roll recorded in frames `k` to the last. */
  function PinsFrom(frames: seq<Frame>, k: nat): int
    requires k <= |frames|
    decreases |frames| - k
  {
    if k == |frames| then 0 else Sum(Recorded(frames[k])) + PinsFrom(frames, k + 1)
  }

  /** The pins of every roll recorded anywhere in the game. */
  function PinsDown(frames: seq<Frame>): int
  {
    PinsFrom(frames, 0)
  }

  // ---------------------------------------------------------------------------
  // Construction

  /** Frames that all hold nothing score nothing. */
  lemma {:induction false} EmptyFramesScoreNothing(frames: seq<Frame>, k: nat)
    requires WellFormed(frames) && k <= |frames|
    requires forall i :: 0 <= i < |frames| ==> Recorded(frames[i]) == []
    ensures ScoresFrom(frames, k) == 0
    decreases |frames| - k
  {
    if k < |frames| {
      EmptyFramesScoreNothing(frames, k + 1);
    }
  }

  /** A new game scores 0. */
  lemma FreshScoreIsZero()
    ensures WellFormed(FreshFrames()) && GameScore(FreshFrames()) == 0
  {
  }

  lemma MulSucc(c: int, n: nat)
    ensures c * (n + 1) == c + c * n
  {
  }

  /** Frames whose every score is `c` sum to `c` per frame. */
  lemma {:induction false} EqualFrameScores(frames: seq<Frame>, k: nat, c: int)
    requires WellFormed(frames) && k <= |frames|
    requires forall i :: k <= i < |frames| ==> FrameScore(frames, i) == c
    ensures ScoresFrom(frames, k) == c * (|frames| - k)
    decreases |frames| - k
  {
    if k < |frames| {
      EqualFrameScores(frames, k + 1, c);
      MulSucc(c, |frames| - (k + 1));
    }
  }

  /** The scoring rules credit both bonuses of a strike when every frame is
      filled as in a perfect game: twelve strikes score 300. */
  lemma PerfectFramesScore300()
    ensures var frames := seq(FrameCount, i => if i < FrameCount - 1 then Normal([10]) else Tenth([10, 10], Some(10)));
            WellFormed(frames) && GameScore(frames) == 300
  {
    var frames := seq(FrameCount, i => if i < FrameCount - 1 then Normal([10]) else Tenth([10, 10], Some(10)));
    SumOfShort([10, 10]);
    forall i | 0 <= i < FrameCount
      ensures FrameScore(frames, i) == 30
    {
      SumOfShort(frames[i].rolls);
      if i < FrameCount - 1 {
        StrikeBonusIsNextTwoRolls(frames[i], frames[i + 1], NextFrame(frames, i + 1));
        SumOfShort(Take(Upcoming(frames[i + 1], NextFrame(frames, i + 1)), 2));
      }
    }
    EqualFrameScores(frames, 0, 30);
  }

  /** Ten 5-5 spares and a final 5 score 150. */
  lemma SpareFramesScore150()
    ensures var frames := seq(FrameCount, i => if i < FrameCount - 1 then Normal([5, 5]) else Tenth([5, 5], Some(5)));
            WellFormed(frames) && GameScore(frames) == 150
  {
    var frames := seq(FrameCount, i => if i < FrameCount - 1 then Normal([5, 5]) else Tenth([5, 5], Some(5)));
    forall i | 0 <= i < FrameCount
      ensures FrameScore(frames, i) == 15
    {
      SumOfShort(frames[i].rolls);
    }
    EqualFrameScores(frames, 0, 15);
  }

  /** Ten open 9-0 frames score 90: open frames earn no bonus. */
  lemma OpenFramesScore90()
    ensures var frames := seq(FrameCount, i => if i < FrameCount - 1 then Normal([9, 0]) else Tenth([9, 0], None));
            WellFormed(frames) && GameScore(frames) == 90
  {
    var frames := seq(FrameCount, i => if i < FrameCount - 1 then Normal([9, 0]) else Tenth([9, 0], None));
    forall i | 0 <= i < FrameCount
      ensures FrameScore(frames, i) == 9
    {
      SumOfShort(frames[i].rolls);
    }
    EqualFrameScores(frames, 0, 9);
  }

  // ---------------------------------------------------------------------------
  // Rolling

  /** The state a game's roll acts on: its frames and its current frame index. */
  datatype State = State(frames: seq<Frame>, index: nat)

  /** One roll, as the game routes it: to the frame at the current index,
      failing when the index is past the last frame. An accepted roll moves
      the index on by two when the frame is now a strike, by one otherwise;
      a refused roll changes nothing. */
  function RollStep(s: State, pins: int): (r: Result<State, BowlingError>)
    requires WellFormed(s.frames)
    ensures (r.Failure? && r.error == IndexOutOfRange) <==> s.index >= |s.frames|
    ensures r.Success? ==> WellFormed(r.value.frames)
    ensures r.Success? ==>
              forall j :: 0 <= j < |s.frames| && j != s.index ==> r.value.frames[j] == s.frames[j]
    ensures r.Success? ==>
              s.index < |s.frames| &&
              r.value.index == s.index + (if Strike(r.value.frames[s.index]) then 2 else 1)
    ensures s.index < |s.frames| ==> (r.Failure? <==> AddRoll(s.frames[s.index], pins).Failure?)
    ensures r.Failure? && s.index < |s.frames| ==> r.error == AddRoll(s.frames[s.index], pins).error
    ensures r.Success? ==> r.value.frames[s.index] == AddRoll(s.frames[s.index], pins).value
  {
    if s.index >= |s.frames| then Failure(IndexOutOfRange)
    else
      match AddRoll(s.frames[s.index], pins)
      case Failure(e) => Failure(e)
      case Success(f) =>
        Success(State(s.frames[s.index := f], s.index + if Strike(f) then 2 else 1))
  }

  /** A sequence of rolls from `s`, stopping at the first one refused. */
  function RollAll(s: State, pins: seq<int>): Result<State, BowlingError>
    requires WellFormed(s.frames)
    decreases |pins|
  {
    if pins == [] then Success(s)
    else
      match RollStep(s, pins[0])
      case Failure(e) => Failure(e)
      case Success(t) => RollAll(t, pins[1..])
  }

  // ---------------------------------------------------------------------------
  // The states the routing can reach

  /** What holds of every state a game reaches from its fresh state: each
      frame holds at most one roll and no extra roll, frames from the current
      index on are empty, and a strike's frame was followed by a skip, so its
      successor is and stays empty. */
  predicate Routed(s: State)
  {
    WellFormed(s.frames) &&
    (forall i :: 0 <= i < |s.frames| ==> |s.frames[i].rolls| <= 1 && Recorded(s.frames[i]) == s.frames[i].rolls) &&
    (forall i :: s.index <= i < |s.frames| ==> s.frames[i].rolls == []) &&
    (forall i :: 0 <= i < |s.frames| && Strike(s.frames[i]) ==> i + 2 <= s.index) &&
    (forall i :: 0 <= i < |s.frames| - 1 && Strike(s.frames[i]) ==> s.frames[i + 1].rolls == [])
  }

  lemma FreshIsRouted()
    ensures Routed(State(FreshFrames(), 0))
  {
  }

  /** Every accepted roll keeps the routing invariant. */
  lemma RollKeepsRouted(s: State, pins: int)
    requires Routed(s) && RollStep(s, pins).Success?
    ensures Routed(RollStep(s, pins).value)
  {
  }

  /** In a reachable state every frame scores exactly its own pins. */
  lemma RoutedFrameScore(s: State, i: nat)
    requires Routed(s) && i < |s.frames|
    ensures FrameScore(s.frames, i) == Sum(Recorded(s.frames[i]))
  {
  }

  lemma {:induction false} RoutedScoresFrom(s: State, k: nat)
    requires Routed(s) && k <= |s.frames|
    ensures ScoresFrom(s.frames, k) == PinsFrom(s.frames, k)
    decreases |s.frames| - k
  {
    if k < |s.frames| {
      RoutedFrameScore(s, k);
      RoutedScoresFrom(s, k + 1);
    }
  }

  /** In a reachable state the score is the plain sum of the pins rolled:
      the routing never lets a bonus be credited. */
  lemma RoutedScoreIsPinsDown(s: State)
    requires Routed(s)
    ensures GameScore(s.frames) == PinsDown(s.frames)
  {
    RoutedScoresFrom(s, 0);
  }

  /** Replacing one frame changes the pins from `k` on by the difference. */
  lemma {:induction false} PinsFromUpdate(frames: seq<Frame>, k: nat, j: nat, g: Frame)
    requires k <= j < |frames|
    ensures PinsFrom(frames[j := g], k) == PinsFrom(frames, k) - Sum(Recorded(frames[j])) + Sum(Recorded(g))
    decreases |frames| - k
  {
    var fs := frames[j := g];
    if k == j {
      assert forall m :: k < m < |frames| ==> fs[m] == frames[m];
      PinsFromSame(fs, frames, k + 1);
    } else {
      PinsFromUpdate(frames, k + 1, j, g);
    }
  }

  lemma {:induction false} PinsFromSame(a: seq<Frame>, b: seq<Frame>, k: nat)
    requires |a| == |b| && k <= |a|
    requires forall m :: k <= m < |a| ==> a[m] == b[m]
    ensures PinsFrom(a, k) == PinsFrom(b, k)
    decreases |a| - k
  {
    if k < |a| {
      PinsFromSame(a, b, k + 1);
    }
  }

  /** In a reachable state an accepted roll adds exactly its pins to the score. */
  lemma RollAddsItsPins(s: State, pins: int)
    requires Routed(s) && RollStep(s, pins).Success?
    ensures Routed(RollStep(s, pins).value)
    ensures GameScore(RollStep(s, pins).value.frames) == GameScore(s.frames) + pins
  {
    var t := RollStep(s, pins).value;
    RollKeepsRouted(s, pins);
    assert s.frames[s.index].rolls == [];
    assert Recorded(t.frames[s.index]) == [pins];
    assert t.frames == s.frames[s.index := t.frames[s.index]];
    PinsFromUpdate(s.frames, 0, s.index, t.frames[s.index]);
    RoutedScoreIsPinsDown(s);
    RoutedScoreIsPinsDown(t);
  }

  /** From a fresh game, twelve strikes: the first five are accepted (frames
      0, 2, 4, 6 and 8, each strike skipping a frame), the sixth runs past the
      last frame, and the score is 50. */
  lemma TwelveStrikesAsRouted()
    ensures WellFormed(FreshFrames())
    ensures RollAll(State(FreshFrames(), 0), [10, 10, 10, 10, 10]).Success?
    ensures RollAll(State(FreshFrames(), 0), [10, 10, 10, 10, 10]).value.index == 10
    ensures RollAll(State(FreshFrames(), 0), seq(12, _ => 10)) == Failure(IndexOutOfRange)
    ensures GameScore(RollAll(State(FreshFrames(), 0), [10, 10, 10, 10, 10]).value.frames) == 50
  {
    var s := State(FreshFrames(), 0);
    FreshIsRouted();
    FreshScoreIsZero();
    var s1 := RollStep(s, 10).value;
    RollAddsItsPins(s, 10);
    var s2 := RollStep(s1, 10).value;
    RollAddsItsPins(s1, 10);
    var s3 := RollStep(s2, 10).value;
    RollAddsItsPins(s2, 10);
    var s4 := RollStep(s3, 10).value;
    RollAddsItsPins(s3, 10);
    var s5 := RollStep(s4, 10).value;
    RollAddsItsPins(s4, 10);
    assert s5.index == 10;
    assert RollAll(s5, []) == Success(s5);
    assert RollAll(s4, [10]) == Success(s5);
    assert RollAll(s3, [10, 10]) == Success(s5);
    assert RollAll(s2, [10, 10, 10]) == Success(s5);
    assert RollAll(s1, [10, 10, 10, 10]) == Success(s5);
    var tw := seq(12, _ => 10);
    assert RollAll(s5, tw[5..]) == Failure(IndexOutOfRange);
    assert RollAll(s4, tw[4..]) == Failure(IndexOutOfRange);
    assert RollAll(s3, tw[3..]) == Failure(IndexOutOfRange);
    assert RollAll(s2, tw[2..]) == Failure(IndexOutOfRange);
    assert RollAll(s1, tw[1..]) == Failure(IndexOutOfRange);
  }

  // ---------------------------------------------------------------------------
  // The game object

  class BowlingGame {
    var frames: seq<Frame>
    var currentFrameIndex: nat

    ghost predicate Valid()
      reads this
    {
      Routed(State(frames, currentFrameIndex))
    }

    /** A new game: ten empty chained frames and index 0. */
    constructor ()
      ensures Valid()
      ensures frames == FreshFrames() && currentFrameIndex == 0
      ensures Score() == 0
    {
      frames := [];
      new;
      InitFrames();
      currentFrameIndex := 0;
      FreshIsRouted();
      FreshScoreIsZero();
    }

    /** Appends the ten frames of a new game, building each normal frame
        before the frame it links to. */
    method InitFrames()
      modifies this
      ensures frames == old(frames) + FreshFrames()
      ensures currentFrameIndex == old(currentFrameIndex)
    {
      var frame := Normal([]);
      for i := 0 to FrameCount - 1
        invariant frames == old(frames) + FreshFrames()[..i]
        invariant frame == FreshFrames()[i]
        invariant currentFrameIndex == old(currentFrameIndex)
      {
        var next := if i < FrameCount - 2 then Normal([]) else Tenth([], None);
        // frame's next_frame is `next`, which becomes frames[i + 1]
        frames := frames + [frame];
        frame := next;
      }
      frames := frames + [frame];
      assert FreshFrames()[..FrameCount - 1] + [FreshFrames()[FrameCount - 1]] == FreshFrames();
    }

    /** Routes one roll to the frame at the current index. */
    method Roll(pins: int) returns (outcome: Outcome<BowlingError>)
      requires Valid()
      modifies this
      ensures Valid()
      ensures var step := RollStep(old(State(frames, currentFrameIndex)), pins);
              if step.Success? then
                outcome == Pass && frames == step.value.frames && currentFrameIndex == step.value.index
              else
                outcome == Fail(step.error) && frames == old(frames) && currentFrameIndex == old(currentFrameIndex)
      ensures outcome.Pass? ==> Score() == old(Score()) + pins
    {
      ghost var s := State(frames, currentFrameIndex);
      if currentFrameIndex >= |frames| {
        return Fail(IndexOutOfRange);
      }
      var current := frames[currentFrameIndex];
      var added := AddRoll(current, pins);
      if added.Failure? {
        return Fail(added.error);
      }
      current := added.value;
      frames := frames[currentFrameIndex := current];
      if Strike(current) {
        currentFrameIndex := currentFrameIndex + 2;
      } else {
        currentFrameIndex := currentFrameIndex + 1;
      }
      RollAddsItsPins(s, pins);
      outcome := Pass;
    }

    /** The game's score; in every state of a game, the pins rolled so far. */
    function Score(): (points: int)
      reads this
      requires Valid()
      ensures points == PinsDown(frames)
    {
      RoutedScoreIsPinsDown(State(frames, currentFrameIndex));
      GameScore(frames)
    }
  }
}
