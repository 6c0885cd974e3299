/** The SuperMemo SM-2 scheduler of calculateSM2.ts, with the 0-5 quality
    scale collapsed to "correct" and "incorrect". Easiness factors are exact
    reals; timestamps are milliseconds since the epoch, and the clock read is
    the parameter `now`. */
module SM2 {

  /** Quality recorded for a correct answer (top of the 0-5 scale). */
  const CorrectQuality: int := 5
  /** Quality recorded for an incorrect answer (bottom of the scale). */
  const IncorrectQuality: int := 0
  /** Lowest easiness factor the algorithm allows. */
  const EfFloor: real := 1.3
  /** One day in milliseconds: 24 hours of 60 minutes of 60 seconds of 1000 ms. */
  const DayInMs: int := 24 * 60 * 60 * 1000

  /** The three fields the scheduler reads from a progress row. */
  datatype Progress = Progress(interval: int, repetition: int, ef: real)

  /** The four fields the scheduler returns. */
  datatype Schedule = Schedule(interval: int, repetition: int, ef: real, nextReview: int)

  /** `Math.max` on two numbers. */
  function MaxReal(a: real, b: real): real { if a >= b then a else b }

  /** `Math.round`: the nearest integer, halves rounded toward +infinity;
      the bounds below pin that integer down uniquely. */
  function Round(x: real): (r: int)
    ensures x - 0.5 < r as real <= x + 0.5
  {
    (x + 0.5).Floor
  }

  function Quality(isCorrect: bool): int {
    if isCorrect then CorrectQuality else IncorrectQuality
  }

  /** `calculateSM2(progress, isCorrect)` evaluated at time `now`. */
  function CalculateSM2(p: Progress, isCorrect: bool, now: int): (s: Schedule)
    // the easiness floor holds whatever easiness came in
    ensures s.ef >= EfFloor
    // a correct answer adds 0.1, an incorrect one subtracts 0.8, then the floor
    ensures isCorrect ==> s.ef == MaxReal(EfFloor, p.ef + 0.1)
    ensures !isCorrect ==> s.ef == MaxReal(EfFloor, p.ef - 0.8)
    // failure resets the streak and brings the card back tomorrow
    ensures !isCorrect ==> s.repetition == 0 && s.interval == 1
    // success extends the streak by one
    ensures isCorrect ==> s.repetition == p.repetition + 1
    // the interval ladder: 1 day, then 6 days, then the previous interval times the new easiness
    ensures s.repetition == 0 || s.repetition == 1 ==> s.interval == 1
    ensures s.repetition == 2 ==> s.interval == 6
    ensures s.repetition != 0 && s.repetition != 1 && s.repetition != 2 ==>
              s.interval == Round(p.interval as real * s.ef)
    // the next review is counted from the clock, not from the previous due date
    ensures s.nextReview == now + s.interval * DayInMs
  {
    var q := Quality(isCorrect);
    var diff := (CorrectQuality - q) as real;
    var newEf := MaxReal(1.3, p.ef + (0.1 - diff * (0.08 + diff * 0.02)));
    var newRepetition := if q < 3 then 0 else p.repetition + 1;
    var newInterval :=
      if newRepetition == 0 then 1
      else if newRepetition == 1 then 1
      else if newRepetition == 2 then 6
      else Round(p.interval as real * newEf);
    Schedule(newInterval, newRepetition, newEf, now + newInterval * DayInMs)
  }

  /** From the third consecutive success on, intervals never shrink and stay
      at least one day: the easiness floor of 1.3 outweighs the rounding. */
  lemma IntervalNeverShrinks(p: Progress, now: int)
    requires p.repetition >= 2 && p.interval >= 1
    ensures CalculateSM2(p, true, now).interval >= p.interval
    ensures CalculateSM2(p, true, now).interval >= 1
  {
    var s := CalculateSM2(p, true, now);
    var i := p.interval as real;
    var slack := s.ef - 1.3;
    ProductNonNegative(i, slack);
    assert i * s.ef == i * 1.3 + i * slack;
    assert i >= 1.0;
    assert i * s.ef >= i + 0.3;
    assert s.interval as real > i - 0.2;
  }

  lemma ProductNonNegative(a: real, b: real)
    requires a >= 0.0 && b >= 0.0
    ensures a * b >= 0.0
  {
  }

  /** A card answered correctly three times from the usual starting state
      (interval 0, no streak, easiness 2.5) is scheduled 1, 6 and 17 days out;
      one wrong answer then resets it to tomorrow. */
  lemma LadderFromFreshCard(now: int)
    ensures var s1 := CalculateSM2(Progress(0, 0, 2.5), true, now);
            s1 == Schedule(1, 1, 2.6, now + DayInMs)
    ensures var s2 := CalculateSM2(Progress(1, 1, 2.6), true, now);
            s2 == Schedule(6, 2, 2.7, now + 6 * DayInMs)
    ensures var s3 := CalculateSM2(Progress(6, 2, 2.7), true, now);
            s3 == Schedule(17, 3, 2.8, now + 17 * DayInMs)
    ensures var s4 := CalculateSM2(Progress(17, 3, 2.8), false, now);
            s4 == Schedule(1, 0, 2.0, now + DayInMs)
  {
    assert Round(6.0 * 2.8) == 17;
  }
}
