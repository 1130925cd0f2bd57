/**
 * Wall clock and UTC, as `src/utils/timezone.ts` computes them: the offset of the zone is read once, at the instant
 * that UTC would show for the wall time, and a business day is 24 hours long whatever the zone does.
 * Instants are milliseconds since the epoch; a date is its day number (module CivilDate).
 */
module TimeZone {

  /** Milliseconds that the zone's wall clock is ahead of UTC at an instant. */
  type Zone = int -> int

  const DAY_MS := 86_400_000
  const HOUR_MS := 3_600_000
  const MINUTE_MS := 60_000

  /** The date on the wall at instant `t`. */
  function LocalDay(z: Zone, t: int): int {
    (t + z(t)) / DAY_MS
  }

  /** Milliseconds since midnight on the wall at instant `t`. */
  function TimeOfDay(z: Zone, t: int): int {
    (t + z(t)) % DAY_MS
  }

  /** `localWallTimeToUtc`; `minutes` may go past 24:00. */
  function WallToUtc(z: Zone, day: int, minutes: int): int {
    var approx := day * DAY_MS + minutes * MINUTE_MS;
    approx - z(approx)
  }

  /** `businessDateStartUtc`. */
  function DayStart(z: Zone, day: int): int {
    WallToUtc(z, day, 0)
  }

  /** `businessDateEndUtc`. */
  function DayEnd(z: Zone, day: int): int {
    DayStart(z, day) + DAY_MS
  }

  predicate InDay(z: Zone, day: int, t: int) {
    DayStart(z, day) <= t < DayEnd(z, day)
  }

  /** The date's window holds exactly the instants that show this date on the wall. */
  ghost predicate RegularOn(z: Zone, day: int) {
    forall t: int :: InDay(z, day, t) <==> LocalDay(z, t) == day
  }

  ghost predicate Regular(z: Zone) {
    forall day: int :: RegularOn(z, day)
  }

  lemma FixedOffsetIsRegular(z: Zone, offset: int)
    requires forall t :: z(t) == offset
    ensures Regular(z)
  {
    forall day: int, t: int
      ensures InDay(z, day, t) <==> LocalDay(z, t) == day
    {
      FloorIs(t + offset, day);
    }
  }

  lemma FloorIs(x: int, q: int)
    ensures q * DAY_MS <= x < (q + 1) * DAY_MS <==> x / DAY_MS == q
  {
  }

  /**
   * An instant falls in the window of its own date exactly when its time of day, moved by the change of offset
   * since the date's midnight, still is a time of that day.
   */
  lemma InOwnDay(z: Zone, t: int)
    ensures InDay(z, LocalDay(z, t), t)
       <==> 0 <= TimeOfDay(z, t) + z(LocalDay(z, t) * DAY_MS) - z(t) < DAY_MS
  {
    assert t + z(t) == LocalDay(z, t) * DAY_MS + TimeOfDay(z, t);
  }

  /** A zone with one offset until an instant and another from then on. */
  function ChangesAt(change: int, from: int, to: int): Zone {
    t => if t < change then from else to
  }

  /** One hour ahead until an instant, and at UTC from then on, as in autumn. */
  function FallsBackAt(change: int): Zone {
    ChangesAt(change, HOUR_MS, 0)
  }

  /** On the day the clock falls back, the last hour on the wall lies outside the day's window. */
  lemma LastHourOfALongDay()
    ensures var z := FallsBackAt(HOUR_MS);
            var t := 23 * HOUR_MS + 30 * MINUTE_MS;
            LocalDay(z, t) == 0 && !InDay(z, 0, t) && !RegularOn(z, 0)
  {
    var z := FallsBackAt(HOUR_MS);
    var t := 23 * HOUR_MS + 30 * MINUTE_MS;
    assert LocalDay(z, t) == 0 && !InDay(z, 0, t);
  }

  /**
   * A zone that changes its offset once is regular on a date exactly when the change is over by the first of the
   * midnights that any of its offsets or UTC gives the date, or comes after the date in both offsets.
   */
  lemma RegularBesidesTheChange(change: int, from: int, to: int, day: int)
    requires from != to && -DAY_MS < from < DAY_MS && -DAY_MS < to < DAY_MS && -DAY_MS < to - from < DAY_MS
    ensures var midnight := day * DAY_MS;
            RegularOn(ChangesAt(change, from, to), day) <==>
              if change <= midnight then change <= midnight - from && change <= midnight - to
              else midnight + DAY_MS - from <= change && midnight + DAY_MS - to <= change
  {
    var z, midnight := ChangesAt(change, from, to), day * DAY_MS;
    forall t: int
      ensures LocalDay(z, t) == day <==> midnight <= t + z(t) < midnight + DAY_MS
    {
      FloorIs(t + z(t), day);
    }
    hide LocalDay;
    var early, late := midnight - from, midnight - to;
    if change <= midnight && (early < change || late < change) {
      var t := if early < change <= late then change - 1 else if from < to then late else late - 1;
      assert LocalDay(z, t) == day <==> !InDay(z, day, t);
    } else if midnight < change && (change < early + DAY_MS || change < late + DAY_MS) {
      var t := if early + DAY_MS <= change then change else if from < to then early + DAY_MS - 1 else early + DAY_MS;
      assert LocalDay(z, t) == day <==> !InDay(z, day, t);
    }
  }

  /** The windows of neighbouring dates share instants exactly when the clock goes ahead between their UTC midnights. */
  lemma NeighboursOverlap(z: Zone, day: int)
    requires var change := z((day + 1) * DAY_MS) - z(day * DAY_MS); -DAY_MS < change < DAY_MS
    ensures (exists t :: InDay(z, day, t) && InDay(z, day + 1, t)) <==> z(day * DAY_MS) < z((day + 1) * DAY_MS)
    ensures DayEnd(z, day) - DayStart(z, day + 1) == z((day + 1) * DAY_MS) - z(day * DAY_MS)
  {
    var t := DayStart(z, day + 1);
    if z(day * DAY_MS) < z((day + 1) * DAY_MS) { assert InDay(z, day, t) && InDay(z, day + 1, t); }
  }

  // ---------------------------------------------------------------- midnight printed as 24

  /** The offset `getTimeZoneOffsetMinutes` gives where the hour from midnight on is printed as 24 of the same date. */
  function MidnightAs24(z: Zone): Zone {
    t => z(t) + if TimeOfDay(z, t) < HOUR_MS then DAY_MS else 0
  }

  /**
   * With such offsets and a fixed wall offset, a date's window holds the date's instants, or else, if the wall shows
   * the hour from midnight on when it is midnight in UTC, those of the date before.
   */
  lemma MidnightAs24Windows(z: Zone, offset: int, day: int, t: int)
    requires forall u :: z(u) == offset
    ensures InDay(MidnightAs24(z), day, t) <==>
              LocalDay(z, t) == if offset % DAY_MS < HOUR_MS then day - 1 else day
  {
    var midnight := day * DAY_MS;
    assert (midnight + offset) % DAY_MS == offset % DAY_MS;
    FloorIs(t + offset, day);
    FloorIs(t + offset, day - 1);
  }
}
