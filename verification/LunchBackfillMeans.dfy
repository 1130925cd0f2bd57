/** The lunch backfill said without the script's own terms: who gets a lunch, when, and what is counted. */
module LunchBackfillMeans {
  import opened Common
  import opened AttendanceEvents
  import opened LunchBackfill
  import opened LunchBackfillRun
  import CivilDate
  import TimeZone

  const HOUR_MS := 3_600_000

  // ---------------------------------------------------------------- who gets a lunch

  /**
   * With a first check-in and a last check-out of the day, a day is complete when they come in order, and eligible when
   * they are more than an hour apart and have the lunch window between them.
   */
  lemma WhoIsEligible(m: multiset<Event>, p: DayPlan, b: Id, k: Id, i: int, o: int)
    requires IsFirst(TimesOf(m, p, b, k, CheckIn), i) && IsLast(TimesOf(m, p, b, k, CheckOut), o)
    ensures Complete(m, p, b, k) <==> i < o
    ensures Eligible(m, p, b, k) <==> HOUR_MS < o - i && i < p.lunchOut && p.lunchIn < o
  {
    hide TimesOf;
    if HOUR_MS < o - i && i < p.lunchOut && p.lunchIn < o { assert Fits(p, i, o); }
  }

  /** Around an hour of lunch it is enough that the window lies between them. */
  lemma WhoFitsAnHour(m: multiset<Event>, p: DayPlan, b: Id, k: Id, i: int, o: int)
    requires IsFirst(TimesOf(m, p, b, k, CheckIn), i) && IsLast(TimesOf(m, p, b, k, CheckOut), o)
    requires p.lunchIn - p.lunchOut == HOUR_MS
    ensures Eligible(m, p, b, k) <==> i < p.lunchOut && p.lunchIn < o
  {
    WhoIsEligible(m, p, b, k, i, o);
  }

  /** Without a check-in or without a check-out nobody is eligible. */
  lemma WhoIsIncomplete(m: multiset<Event>, p: DayPlan, b: Id, k: Id)
    requires TimesOf(m, p, b, k, CheckIn) == {} || TimesOf(m, p, b, k, CheckOut) == {}
    ensures !Complete(m, p, b, k) && !Eligible(m, p, b, k)
  {
  }

  /** The times of a type are those of the employee's events of the business and the day's half-open range. */
  lemma TimesAre(m: multiset<Event>, p: DayPlan, b: Id, k: Id, t: EventType, at: int)
    ensures at in TimesOf(m, p, b, k, t) <==>
              p.lo <= at < p.hi && exists place :: Event(b, k, t, at, place) in m
  {
    if at in TimesOf(m, p, b, k, t) {
      var e :| e in m && InWindow(e, b, k, t, p.lo, p.hi) && e.at == at;
      assert e == Event(b, k, t, at, e.place);
    }
    if p.lo <= at < p.hi && exists place :: Event(b, k, t, at, place) in m {
      var place :| Event(b, k, t, at, place) in m;
      assert InWindow(Event(b, k, t, at, place), b, k, t, p.lo, p.hi);
    }
  }

  // ---------------------------------------------------------------- what a run leaves

  /** The row the script makes up: in the middle of nowhere, within the allowed radius. */
  function Made(b: Id, k: Id, t: EventType, at: int): Event {
    Event(b, k, t, at, Place(0.0, 0.0, 0.0, true))
  }

  /** A run replaces the day's lunch rows by the window's two where there is time for them, and changes no other row. */
  lemma BackfilledMeans(m: multiset<Event>, m1: multiset<Event>, run: Run, settings: seq<Settings>, b: Id, k: Id,
                        i: int, o: int, e: Event)
    requires Backfilled(m1, m, run, settings) && PlanFor(run, settings, b).Some?
    requires var p := PlanFor(run, settings, b).value;
             IsFirst(TimesOf(m, p, b, k, CheckIn), i) && IsLast(TimesOf(m, p, b, k, CheckOut), o)
    requires e.businessId == b && e.employeeId == k
    ensures var p := PlanFor(run, settings, b).value;
            m1[e] == if HOUR_MS < o - i && i < p.lunchOut && p.lunchIn < o then
                       (if (e.eventType == LunchOut || e.eventType == LunchIn) && p.lo <= e.at < p.hi then 0 else m[e])
                       + (if e == Made(b, k, LunchOut, p.lunchOut) || e == Made(b, k, LunchIn, p.lunchIn) then 1 else 0)
                     else m[e]
  {
    hide TimesOf, Eligible, PlanFor;
    WhoIsEligible(m, PlanFor(run, settings, b).value, b, k, i, o);
  }

  /** Without check-in or check-out in the day, or without settings, every row stays. */
  lemma BackfilledKeeps(m: multiset<Event>, m1: multiset<Event>, run: Run, settings: seq<Settings>, e: Event)
    requires Backfilled(m1, m, run, settings)
    requires match PlanFor(run, settings, e.businessId)
             case None => true
             case Some(p) => TimesOf(m, p, e.businessId, e.employeeId, CheckIn) == {}
                             || TimesOf(m, p, e.businessId, e.employeeId, CheckOut) == {}
    ensures m1[e] == m[e]
  {
    hide TimesOf, Eligible, PlanFor;
    if PlanFor(run, settings, e.businessId).Some? {
      WhoIsIncomplete(m, PlanFor(run, settings, e.businessId).value, e.businessId, e.employeeId);
    }
  }

  // ---------------------------------------------------------------- what is counted

  /** The employees with events of the business in the day. */
  ghost function Present(m: multiset<Event>, p: DayPlan, b: Id): set<Id> {
    set e | e in m && e.businessId == b && p.lo <= e.at < p.hi :: e.employeeId
  }

  /** The day has a lunch row already. */
  ghost predicate HadLunch(m: multiset<Event>, p: DayPlan, b: Id, k: Id) {
    exists e :: e in m && e.businessId == b && e.employeeId == k && p.lo <= e.at < p.hi
             && (e.eventType == LunchOut || e.eventType == LunchIn)
  }

  lemma HadLunchIs(m: multiset<Event>, p: DayPlan, b: Id, k: Id)
    ensures HasLunch(m, p, b, k) <==> HadLunch(m, p, b, k)
  {
    if HasLunch(m, p, b, k) {
      var e :| e in m && IsLunchInRange(e, b, k, p.lo, p.hi);
      assert e.businessId == b && e.employeeId == k && p.lo <= e.at < p.hi;
    }
    if HadLunch(m, p, b, k) {
      var e :| e in m && e.businessId == b && e.employeeId == k && p.lo <= e.at < p.hi
               && (e.eventType == LunchOut || e.eventType == LunchIn);
      assert IsLunchInRange(e, b, k, p.lo, p.hi);
    }
  }

  /** The counters of a business: its employees with events in the day, by the three outcomes, and the rows written. */
  lemma TallyMeans(m: multiset<Event>, p: DayPlan, b: Id, apply: bool)
    ensures var c, all := Tally(Employees(m, p, b), m, p, b, apply), Present(m, p, b);
            && c.eligible == |set k | k in all && Eligible(m, p, b, k)|
            && c.inserted == (if apply then 2 * c.eligible else 0)
            && c.replaced == (if apply then |set k | k in all && Eligible(m, p, b, k) && HadLunch(m, p, b, k)| else 0)
            && c.incomplete == |set k | k in all && !Complete(m, p, b, k)|
            && c.eligible + c.incomplete + c.tooShort == |all|
  {
    hide Eligible, Complete, HasLunch, HadLunch;
    var all := Present(m, p, b);
    assert all == Employees(m, p, b);
    hide Present, Employees;
    TallyAddsUp(all, m, p, b, apply);
    forall k
      ensures HasLunch(m, p, b, k) <==> HadLunch(m, p, b, k)
    {
      HadLunchIs(m, p, b, k);
    }
    assert ReplacedAmong(all, m, p, b) == set k | k in all && Eligible(m, p, b, k) && HadLunch(m, p, b, k);
  }

  // ---------------------------------------------------------------- which day and which window

  /** The environment's start of lunch goes before the settings', and without either it is 13:00. */
  lemma WhichLunchStart(run: Run, s: Settings)
    ensures run.lunchStart.Some? ==> LunchStart(run, s) == run.lunchStart.value
    ensures run.lunchStart.None? && s.fixedLunchStart.Some? ==> LunchStart(run, s) == s.fixedLunchStart.value
    ensures run.lunchStart.None? && s.fixedLunchStart.None? ==>
              MinutesFromHHmm(LunchStart(run, s)) == Some(13 * 60) && WallMinutes(LunchStart(run, s)) == 13 * 60
  {
  }

  /** Where the offset is fixed the plan is the target date on the wall, with an hour from the start of lunch on. */
  lemma OrdinaryPlan(run: Run, s: Settings, offset: int, day: int, minutes: nat)
    requires s.zone.None? ==> offset == 0
    requires s.zone.Some? ==> forall t :: s.zone.value(t) == offset
    requires MinutesFromHHmm(LunchStart(run, s)) == Some(minutes)
    requires run.targetDate.Some? ==> CivilDate.Valid(run.targetDate.value) && 100 <= run.targetDate.value.year
                                      && day == CivilDate.DayNumber(run.targetDate.value)
    requires run.targetDate.None? ==> day == (run.now + offset) / TimeZone.DAY_MS - 1
    ensures var p := PlanOf(run, s);
            && p.lo == day * 24 * HOUR_MS - offset && p.hi == p.lo + 24 * HOUR_MS
            && p.lunchOut == p.lo + minutes * 60_000 && p.lunchIn == p.lunchOut + HOUR_MS
  {
    hide CivilDate.DayNumber;
    ClockRoundTrip(minutes + LUNCH_MINUTES);
    assert TargetDay(run, s) == day;
    hide TargetDay, LunchStart;
    assert day * TimeZone.DAY_MS == day * 24 * HOUR_MS;
  }

  // ---------------------------------------------------------------- an ordinary day

  const PLAIN_DAY := DayPlan(0, 24 * HOUR_MS, 13 * HOUR_MS, 14 * HOUR_MS)

  lemma PlainPlan(b: Id)
    ensures PlanOf(FIRST_DAY, Settings(b, None, None)) == PLAIN_DAY
    ensures forall c :: PlanFor(FIRST_DAY, [Settings(b, None, None)], c) == if c == b then Some(PLAIN_DAY) else None
  {
    var s := Settings(b, None, None);
    WhichLunchStart(FIRST_DAY, s);
    OrdinaryPlan(FIRST_DAY, s, 0, 0, 13 * 60);
    hide PlanOf;
    assert [s][..0] == [];
  }

  lemma PlainTimes(b: Id, k: Id)
    ensures IsFirst(TimesOf(OneShift(b, k), PLAIN_DAY, b, k, CheckIn), 8 * HOUR_MS)
    ensures IsLast(TimesOf(OneShift(b, k), PLAIN_DAY, b, k, CheckOut), 17 * HOUR_MS)
  {
    hide TimesOf;
    var m := OneShift(b, k);
    forall t, at
      ensures at in TimesOf(m, PLAIN_DAY, b, k, t) <==>
                PLAIN_DAY.lo <= at < PLAIN_DAY.hi && exists place :: Event(b, k, t, at, place) in m
    {
      TimesAre(m, PLAIN_DAY, b, k, t, at);
    }
    assert Event(b, k, CheckIn, 8 * HOUR_MS, NOWHERE) in m && Event(b, k, CheckOut, 17 * HOUR_MS, NOWHERE) in m;
  }

  /** From 8:00 to 17:00 in UTC, without further settings: lunch from 13:00 to 14:00. */
  lemma OrdinaryDay(b: Id, k: Id, m1: multiset<Event>)
    requires Backfilled(m1, OneShift(b, k), FIRST_DAY, [Settings(b, None, None)])
    ensures m1 == OneShift(b, k) + multiset{Made(b, k, LunchOut, 13 * HOUR_MS), Made(b, k, LunchIn, 14 * HOUR_MS)}
  {
    hide Backfilled, PlanFor, TimesOf, IsFirst, IsLast;
    var m, settings := OneShift(b, k), [Settings(b, None, None)];
    PlainPlan(b);
    PlainTimes(b, k);
    forall e
      ensures m1[e] == m[e] + if e == Made(b, k, LunchOut, 13 * HOUR_MS) || e == Made(b, k, LunchIn, 14 * HOUR_MS)
                              then 1 else 0
    {
      if e.businessId == b && e.employeeId == k {
        BackfilledMeans(m, m1, FIRST_DAY, settings, b, k, 8 * HOUR_MS, 17 * HOUR_MS, e);
      } else {
        NobodyElse(b, k, e);
        BackfilledKeeps(m, m1, FIRST_DAY, settings, e);
      }
    }
  }

  lemma NobodyElse(b: Id, k: Id, e: Event)
    requires e.businessId != b || e.employeeId != k
    ensures TimesOf(OneShift(b, k), PLAIN_DAY, e.businessId, e.employeeId, CheckIn) == {}
  {
  }
}
