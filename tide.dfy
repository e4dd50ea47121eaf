/** The tide predictor: from a reference high-tide instant and the current
    instant, both in epoch milliseconds, it derives whether the tide is
    rising, falling, at high or at low, the time until the next named event,
    and the next high and next low instants, by fixed-period arithmetic on a
    semidiurnal cycle of 12 hours 25 minutes. */
module Tide {
  import opened Wrappers
  import opened JsText

  /** TIDE_CYCLE_MINUTES: 12 hours 25 minutes. */
  const CycleMinutes: int := 12 * 60 + 25
  const MsPerMinute: int := 60 * 1000

  /** The cycle, its half (372.5 minutes) and the 5-minute override margin,
      all as exact whole milliseconds. */
  const PeriodMs: int := 44_700_000
  const HalfPeriodMs: int := 22_350_000
  const MarginMs: int := 300_000

  lemma ConstantsAgree()
    ensures PeriodMs == CycleMinutes * MsPerMinute
    ensures 2 * HalfPeriodMs == PeriodMs
    ensures MarginMs == 5 * MsPerMinute
  {
  }

  datatype Status = Falling | Rising | HighTide | LowTide

  /** What one refresh of the clock shows: either the request for a
      reference, or a status with the countdown and the two next instants. */
  datatype Prediction =
    | NoReference
    | Tide(status: Status, timeUntilNext: int, nextHigh: int, nextLow: int)

  /** The text the status line shows; only the missing reference asks to set one. */
  function StatusText(p: Prediction): (r: string)
    ensures r == "Please set a reference high tide." <==> p.NoReference?
  {
    match p
    case NoReference => "Please set a reference high tide."
    case Tide(s, _, _, _) =>
      match s
      case Falling => "Falling"
      case Rising => "Rising"
      case HighTide => "High Tide"
      case LowTide => "Low Tide"
  }

  /** Different statuses are shown as different texts. */
  lemma StatusTextInjective(p: Prediction, q: Prediction)
    requires StatusText(p) == StatusText(q)
    ensures p.NoReference? <==> q.NoReference?
    ensures p.Tide? && q.Tide? ==> p.status == q.status
  {
  }

  /** JavaScript truthiness of the stored timestamp: null and 0 both count
      as "no reference". */
  predicate HasReference(ref: Option<int>)
    ensures ref.None? ==> !HasReference(ref)
    ensures ref == Some(0) ==> !HasReference(ref)
    ensures ref.Some? && ref.value != 0 ==> HasReference(ref)
  {
    ref.Some? && ref.value != 0
  }

  /** The first instant `start + k * PeriodMs`, k >= 0, that is at or after `now`. */
  function NextOccurrence(start: int, now: int): (t: int)
    ensures t >= now && t >= start
    ensures (t - start) % PeriodMs == 0
    ensures t > start ==> t - PeriodMs < now
  {
    if now <= start then start
    else start + ((now - start + PeriodMs - 1) / PeriodMs) * PeriodMs
  }

  /** The three properties of NextOccurrence pin it down: the grid instant
      `start + k * PeriodMs`, k >= 0, that is at or after `now` while its
      predecessor on the grid is before `now`, is NextOccurrence itself. */
  lemma NextOccurrenceUnique(start: int, now: int, k: int)
    requires k >= 0 && start + k * PeriodMs >= now
    requires k > 0 ==> start + k * PeriodMs - PeriodMs < now
    ensures start + k * PeriodMs == NextOccurrence(start, now)
  {
    var u := NextOccurrence(start, now);
    var j := (u - start) / PeriodMs;
    assert u == start + j * PeriodMs;
  }

  /** The phase test of the source, stated on the Euclidean remainder: for a
      reference in the past the first half of the cycle is falling; for a
      reference in the future only an exact whole number of cycles counts
      as falling (the truncated remainder is then 0, otherwise negative). */
  predicate InFallingHalf(elapsed: int)
    ensures InFallingHalf(elapsed) ==> elapsed % PeriodMs < HalfPeriodMs
    ensures elapsed % PeriodMs == 0 ==> InFallingHalf(elapsed)
  {
    if elapsed >= 0 then elapsed % PeriodMs < HalfPeriodMs else elapsed % PeriodMs == 0
  }

  /** `cyclePosition >= 0 && cyclePosition < HALF_TIDE_CYCLE_MINUTES`, with
      JavaScript's truncated `%`, is exactly InFallingHalf. */
  lemma CyclePositionTest(elapsed: int)
    ensures (0 <= JsRem(elapsed, PeriodMs) < HalfPeriodMs) <==> InFallingHalf(elapsed)
  {
    if elapsed < 0 {
      var m := -elapsed;
      var q := m / PeriodMs;
      assert m == q * PeriodMs + m % PeriodMs;
      assert elapsed == (-q) * PeriodMs - m % PeriodMs;
      if m % PeriodMs == 0 {
        assert elapsed == (-q) * PeriodMs;
      } else {
        assert elapsed == (-q - 1) * PeriodMs + (PeriodMs - m % PeriodMs);
      }
    }
  }

  /** The override of the source: within the margin before the next high it
      is high tide, otherwise within the margin before the next low it is
      low tide, otherwise the phase decides. */
  function Classify(toHigh: int, toLow: int, falling: bool): (s: Status)
    ensures s == HighTide <==> toHigh < MarginMs
    ensures s == LowTide <==> toHigh >= MarginMs && toLow < MarginMs
    ensures s == Falling ==> falling
    ensures s == Rising ==> !falling
  {
    if toHigh < MarginMs then HighTide
    else if toLow < MarginMs then LowTide
    else if falling then Falling
    else Rising
  }

  /** The prediction as a function of the reference and the current instant. */
  function Predict(ref: Option<int>, now: int): (p: Prediction)
    ensures p.NoReference? <==> !HasReference(ref)
    ensures p.Tide? ==> p.nextHigh >= now && p.nextLow >= now && p.timeUntilNext >= 0
  {
    if !HasReference(ref) then NoReference
    else
      var r := ref.value;
      var high := NextOccurrence(r, now);
      var low := NextOccurrence(r + HalfPeriodMs, now);
      var falling := InFallingHalf(now - r);
      Tide(Classify(high - now, low - now, falling), if falling then low - now else high - now, high, low)
  }

  /** updateTideClock without its display writes: the phase by truncated
      remainder, two loops that step the next high and next low forward by
      whole cycles until they are not before `now`, the half-cycle
      classification and then the 5-minute override. */
  method UpdateTideClock(ref: Option<int>, now: int) returns (p: Prediction)
    ensures p == Predict(ref, now)
  {
    if ref.None? || ref.value == 0 {
      return NoReference;
    }
    var r := ref.value;
    var cyclePosition := JsRem(now - r, PeriodMs);

    var status: Status;
    var timeUntilNext := 0;
    var nextHighTime := r;
    var nextLowTime := r + HalfPeriodMs;

    ghost var highSteps, lowSteps := 0, 0;
    while nextHighTime < now
      invariant nextHighTime == r + highSteps * PeriodMs && highSteps >= 0
      invariant highSteps > 0 ==> nextHighTime - PeriodMs < now
      decreases now - nextHighTime
    {
      nextHighTime := nextHighTime + PeriodMs;
      highSteps := highSteps + 1;
    }
    while nextLowTime < now
      invariant nextLowTime == r + HalfPeriodMs + lowSteps * PeriodMs && lowSteps >= 0
      invariant lowSteps > 0 ==> nextLowTime - PeriodMs < now
      decreases now - nextLowTime
    {
      nextLowTime := nextLowTime + PeriodMs;
      lowSteps := lowSteps + 1;
    }
    NextOccurrenceUnique(r, now, highSteps);
    NextOccurrenceUnique(r + HalfPeriodMs, now, lowSteps);
    ghost var expected := Predict(ref, now);
    assert expected.nextHigh == nextHighTime && expected.nextLow == nextLowTime;

    ghost var falling := InFallingHalf(now - r);
    CyclePositionTest(now - r);
    if cyclePosition >= 0 && cyclePosition < HalfPeriodMs {
      status := Falling;
      timeUntilNext := nextLowTime - now;
      assert falling && expected.timeUntilNext == timeUntilNext;
    } else {
      status := Rising;
      timeUntilNext := nextHighTime - now;
      assert !falling && expected.timeUntilNext == timeUntilNext;
    }

    var timeToNextHigh := nextHighTime - now;
    var timeToNextLow := nextLowTime - now;
    assert Abs(timeToNextHigh) == timeToNextHigh && Abs(timeToNextLow) == timeToNextLow;
    if Abs(timeToNextHigh) < MarginMs {
      status := HighTide;
    } else if Abs(timeToNextLow) < MarginMs {
      status := LowTide;
    }
    assert expected.status == status;
    p := Tide(status, timeUntilNext, nextHighTime, nextLowTime);
  }

  /** For a reference in the past, the next high is reached when the phase
      (time since the reference, modulo the cycle) comes round to zero. */
  lemma NextHighByPhase(r: int, now: int)
    requires now >= r
    ensures var pos := (now - r) % PeriodMs;
      NextOccurrence(r, now) == now + (if pos == 0 then 0 else PeriodMs - pos)
  {
    var pos, q := (now - r) % PeriodMs, (now - r) / PeriodMs;
    assert now - r == q * PeriodMs + pos;
    NextOccurrenceUnique(r, now, if pos == 0 then q else q + 1);
  }

  /** For a reference in the past, the next low is reached when the phase
      comes round to half a cycle. */
  lemma NextLowByPhase(r: int, now: int)
    requires now >= r
    ensures var pos := (now - r) % PeriodMs;
      NextOccurrence(r + HalfPeriodMs, now) ==
        now + (if pos <= HalfPeriodMs then HalfPeriodMs - pos else PeriodMs + HalfPeriodMs - pos)
  {
    var pos, q := (now - r) % PeriodMs, (now - r) / PeriodMs;
    assert now - r == q * PeriodMs + pos;
    NextOccurrenceUnique(r + HalfPeriodMs, now, if pos <= HalfPeriodMs then q else q + 1);
  }

  /** The whole prediction for a reference in the past, read off the phase
      `pos` = (now - ref) mod cycle: high tide at the reference phase and in
      the 5 minutes before it, low tide at half a cycle and in the 5 minutes
      before it, falling in between on the way down and rising on the way
      up; the countdown runs to the next low while falling and to the next
      high while rising, and is never more than half a cycle. */
  lemma StatusByPhase(r: int, now: int)
    requires HasReference(Some(r)) && now >= r
    ensures var p, pos := Predict(Some(r), now), (now - r) % PeriodMs;
      p.status == (if pos == 0 || pos > PeriodMs - MarginMs then HighTide
                   else if HalfPeriodMs - MarginMs < pos <= HalfPeriodMs then LowTide
                   else if pos < HalfPeriodMs then Falling
                   else Rising) &&
      p.timeUntilNext == (if pos < HalfPeriodMs then HalfPeriodMs - pos else PeriodMs - pos) &&
      0 < p.timeUntilNext <= HalfPeriodMs
  {
    NextHighByPhase(r, now);
    NextLowByPhase(r, now);
  }

  /** At the reference instant itself the clock shows high tide. */
  lemma ReferenceInstantIsHighTide(r: int)
    requires HasReference(Some(r))
    ensures Predict(Some(r), r).status == HighTide
  {
    StatusByPhase(r, r);
  }

  /** Half a cycle after the reference the clock shows low tide, and so it
      does 372 minutes after it, inside the 5-minute margin. */
  lemma HalfCycleLaterIsLowTide(r: int)
    requires HasReference(Some(r))
    ensures Predict(Some(r), r + HalfPeriodMs).status == LowTide
    ensures Predict(Some(r), r + 372 * MsPerMinute).status == LowTide
  {
    StatusByPhase(r, r + HalfPeriodMs);
    StatusByPhase(r, r + 372 * MsPerMinute);
  }

  /** The next high and next low are always exactly half a cycle apart. */
  lemma HighLowHalfCycleApart(r: int, now: int)
    requires HasReference(Some(r))
    ensures var p := Predict(Some(r), now);
      p.nextLow - p.nextHigh == HalfPeriodMs || p.nextHigh - p.nextLow == HalfPeriodMs
  {
    if now >= r {
      NextHighByPhase(r, now);
      NextLowByPhase(r, now);
    }
  }

  /** A reference in the future: the next high is the reference itself and
      the next low half a cycle after it; the phase test sees a negative
      truncated remainder and so says rising, except when the reference is
      a whole number of cycles ahead, where the remainder is zero and it
      says falling; only the high-tide override can apply. */
  lemma FutureReference(r: int, now: int)
    requires HasReference(Some(r)) && now < r
    ensures var p := Predict(Some(r), now);
      var whole := (r - now) % PeriodMs == 0;
      p.nextHigh == r && p.nextLow == r + HalfPeriodMs &&
      p.status == (if r - now < MarginMs then HighTide else if whole then Falling else Rising) &&
      p.timeUntilNext == (if whole then r + HalfPeriodMs - now else r - now)
  {
    var d := r - now;
    var q := d / PeriodMs;
    assert d == q * PeriodMs + d % PeriodMs;
    if d % PeriodMs == 0 {
      assert now - r == (-q) * PeriodMs;
    } else {
      assert now - r == (-q - 1) * PeriodMs + (PeriodMs - d % PeriodMs);
    }
  }

  /** One cycle later the clock shows the same status and countdown, with
      both next instants one cycle later. */
  lemma Periodicity(r: int, now: int)
    requires HasReference(Some(r)) && now >= r
    ensures var p, p' := Predict(Some(r), now), Predict(Some(r), now + PeriodMs);
      p'.status == p.status && p'.timeUntilNext == p.timeUntilNext &&
      p'.nextHigh == p.nextHigh + PeriodMs && p'.nextLow == p.nextLow + PeriodMs
  {
    var later := now + PeriodMs;
    assert (later - r) % PeriodMs == (now - r) % PeriodMs;
    StatusByPhase(r, now);
    StatusByPhase(r, later);
    NextHighByPhase(r, now);
    NextHighByPhase(r, later);
    NextLowByPhase(r, now);
    NextLowByPhase(r, later);
  }
}
