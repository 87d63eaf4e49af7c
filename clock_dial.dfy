/**
 * The integer part of the clock dial. Dial positions are counted in ticks clockwise from
 * straight up, the way `generateClock` and `_resetClock` place them: tick t of a dial with
 * `turn` ticks sits at (sin θ, −cos θ) times the radius, θ = 2π t / turn, with the screen's y
 * growing downward. The angles, radii and pointer coordinates themselves are floating point
 * and are not modelled; what is modelled is which tick, index and value each step lands on.
 */
module ClockDial {

  /** Ticks in a full turn: `Math.PI / 6` per tick on the hour dial, `Math.PI / 30` on the minute dial. */
  const HourTicks := 12
  const MinuteTicks := 60

  predicate IsTurn(turn: int)
  {
    turn == HourTicks || turn == MinuteTicks
  }

  /** The hour a snapped index selects, inner ring 1..12, outer ring 0 and 13..23 (`_setClockHand`). */
  function HourFromTick(index: int, inner: bool): (h: int)
    requires 0 <= index <= 12
    ensures 0 <= h < 24
    ensures inner ==> 1 <= h <= 12
    ensures !inner ==> h == 0 || 13 <= h <= 23
    ensures h % 12 == index % 12
  {
    var value := if index == 12 then 0 else index;
    if inner then (if value == 0 then 12 else value)
    else (if value == 0 then 0 else value + 12)
  }

  /** The minute a snapped index selects; the index at a full turn, 60, is minute 0. */
  function MinuteFromTick(index: int): (m: int)
    requires 0 <= index <= 60
    ensures 0 <= m < 60
    ensures m % 60 == index % 60
  {
    if index == 60 then 0 else index
  }

  /**
   * Where `_resetClock` draws an hour: at angle hour * 30 degrees, so on tick hour mod 12,
   * and on the inner ring (radius 66, against 99 outside) exactly for hours 1..12.
   */
  function HourTick(hour: int): (t: (int, bool))
    requires 0 <= hour < 24
    ensures 0 <= t.0 < HourTicks && t.0 == hour % 12
  {
    (hour % 12, 0 < hour < 13)
  }

  /** Half a turn of the dial, in ticks: the angle π. */
  function HalfTurn(turn: int): (h: int)
    requires IsTurn(turn)
    ensures 2 * h == turn
  {
    if turn == HourTicks then 6 else 30
  }

  /**
   * The index `_setClockHand` snaps the point at `tick` to. It takes the angle as
   * `atan2(x, y)`, raised by a full turn when negative; for the point (sin θ, −cos θ) that
   * angle is π − θ, so the index is half a turn minus the tick, plus a turn when that is
   * negative. Index 0 is therefore straight down. On the hour dial, `z < (99 + 66) / 2` then
   * picks the inner ring exactly when the point was drawn on it.
   */
  function SnapIndex(tick: int, turn: int): (i: int)
    requires IsTurn(turn) && 0 <= tick < turn
    ensures 0 <= i < turn
    ensures (i + tick) % turn == HalfTurn(turn)
  {
    var angle := HalfTurn(turn) - tick;
    if angle < 0 then angle + turn else angle
  }

  /**
   * The tick on which `_setClockHand` stores the hand for a snapped index: the hand sits at
   * (sin φ, cos φ) times the radius, φ = 2π index / turn, which is the point of tick
   * half a turn minus the index.
   */
  function HandTick(index: int, turn: int): (t: int)
    requires IsTurn(turn) && 0 <= index <= turn
    ensures 0 <= t < turn
  {
    var angle := HalfTurn(turn) - index;
    if angle < 0 then angle + turn else angle
  }

  /** The hand `_setClockHand` stores lands on the very tick `_resetClock` aimed it at. */
  lemma HandReturnsToTick(tick: int, turn: int)
    requires IsTurn(turn) && 0 <= tick < turn
    ensures HandTick(SnapIndex(tick, turn), turn) == tick
  {
    var half := HalfTurn(turn);
    var i := SnapIndex(tick, turn);
    if tick <= half {
      assert i == half - tick;
    } else {
      assert i == half - tick + turn;
      assert half - i == tick - turn;
    }
  }

  /** The hour `_setClockHand` computes, as written, for the point `_resetClock` draws for `hour`. */
  function HourValueAsWritten(hour: int): int
    requires 0 <= hour < 24
  {
    var t := HourTick(hour);
    HourFromTick(SnapIndex(t.0, HourTicks), t.1)
  }

  /** The minute `_setClockHand` computes, as written, for the point `_resetClock` draws for `minute`. */
  function MinuteValueAsWritten(minute: int): int
    requires 0 <= minute < 60
  {
    MinuteFromTick(SnapIndex(minute, MinuteTicks))
  }

  /**
   * As written, the computed hour is the mirror image of the drawn one: an hour comes back as
   * itself only for 3, 9, 15 and 21.
   */
  lemma HourValueMirrored(hour: int)
    requires 0 <= hour < 24
    ensures HourValueAsWritten(hour) == hour <==> hour % 6 == 3
  {
    var t := HourTick(hour);
    var i := SnapIndex(t.0, HourTicks);
    var v := HourFromTick(i, t.1);
    assert v == HourValueAsWritten(hour);
    // Within one ring an hour is determined by its tick.
    TickRoundTrip(i, t.1);
    HourRoundTrip(hour);
    HandReturnsToTick(t.0, HourTicks);
    assert HourFromTick(t.0, t.1) == hour;
    assert i % 12 == i;
    assert v == hour <==> i == t.0;
    assert hour % 6 == 3 <==> t.0 == 3 || t.0 == 9;
    if t.0 <= 6 {
      assert i == 6 - t.0;
    } else {
      assert i == 18 - t.0;
    }
  }

  /** As written, the computed minute comes back as itself only for 15 and 45. */
  lemma MinuteValueMirrored(minute: int)
    requires 0 <= minute < 60
    ensures MinuteValueAsWritten(minute) == minute <==> minute % 30 == 15
  {
    if minute <= 30 {
      assert SnapIndex(minute, MinuteTicks) == 30 - minute;
    } else {
      assert SnapIndex(minute, MinuteTicks) == 90 - minute;
    }
  }

  /** The top of the dial, as written: midnight comes back as 18, noon as 6 and minute 0 as 30. */
  lemma TopOfDialAsWritten()
    ensures HourValueAsWritten(0) == 18 && HourValueAsWritten(12) == 6
    ensures HourValueAsWritten(1) == 5 && HourValueAsWritten(13) == 17
    ensures MinuteValueAsWritten(0) == 30
  {
  }

  /**
   * The value read from the tick the hand is stored on, that is, from the angle measured
   * clockwise from straight up (`atan2(x, -y)`), which the drawing code uses.
   */
  function HourValue(hour: int): int
    requires 0 <= hour < 24
  {
    var t := HourTick(hour);
    HourFromTick(HandTick(SnapIndex(t.0, HourTicks), HourTicks), t.1)
  }

  function MinuteValue(minute: int): int
    requires 0 <= minute < 60
  {
    MinuteFromTick(HandTick(SnapIndex(minute, MinuteTicks), MinuteTicks))
  }

  /** Read from the stored hand, every drawn hour comes back as itself. */
  lemma HourRoundTrip(hour: int)
    requires 0 <= hour < 24
    ensures HourValue(hour) == hour
  {
    HandReturnsToTick(hour % 12, HourTicks);
  }

  /** Read from the stored hand, every drawn minute comes back as itself. */
  lemma MinuteRoundTrip(minute: int)
    requires 0 <= minute < 60
    ensures MinuteValue(minute) == minute
  {
    HandReturnsToTick(minute, MinuteTicks);
  }

  /**
   * The other direction, for an index measured from straight up: the hour a tick and ring
   * select is drawn back on that tick and ring.
   */
  lemma TickRoundTrip(index: int, inner: bool)
    requires 0 <= index <= 12
    ensures HourTick(HourFromTick(index, inner)) == (index % 12, inner)
  {
  }
}
