/** Whole runs of the lunch backfill over every business: the loop, its counters, and what a second run does. */
module LunchBackfillRun {
  import opened Common
  import opened AttendanceEvents
  import opened LunchBackfill
  import TimeZone

  /** `business_attendance_settings.businessId` is unique. */
  ghost predicate OnePerBusiness(settings: seq<Settings>) {
    forall i, j :: 0 <= i < j < |settings| ==> settings[i].businessId != settings[j].businessId
  }

  function PlanFor(run: Run, settings: seq<Settings>, businessId: Id): Option<DayPlan> {
    if settings == [] then None
    else
      var last := settings[|settings| - 1];
      if last.businessId == businessId then Some(PlanOf(run, last))
      else PlanFor(run, settings[..|settings| - 1], businessId)
  }

  lemma {:induction false} PlanForFound(run: Run, settings: seq<Settings>, businessId: Id)
    ensures PlanFor(run, settings, businessId).Some? <==> exists s :: s in settings && s.businessId == businessId
  {
    if settings == [] {
    } else {
      var last := settings[|settings| - 1];
      var rest := settings[..|settings| - 1];
      assert settings == rest + [last];
      PlanForFound(run, rest, businessId);
    }
  }

  /**
   * The table after an applied run: each business with settings has its employees normalized, the rest is as before.
   */
  ghost predicate Backfilled(now: multiset<Event>, m: multiset<Event>, run: Run, settings: seq<Settings>) {
    forall e :: now[e] == match PlanFor(run, settings, e.businessId)
                          case Some(p) => Normalized(m, p, e)
                          case None => m[e]
  }

  function Add(a: Counters, b: Counters): Counters {
    Counters(a.eligible + b.eligible, a.inserted + b.inserted, a.replaced + b.replaced,
             a.incomplete + b.incomplete, a.tooShort + b.tooShort)
  }

  ghost function TotalTally(m: multiset<Event>, run: Run, settings: seq<Settings>): Counters {
    if settings == [] then Counters(0, 0, 0, 0, 0)
    else
      var last := settings[|settings| - 1];
      var p := PlanOf(run, last);
      Add(TotalTally(m, run, settings[..|settings| - 1]),
          Tally(Employees(m, p, last.businessId), m, p, last.businessId, run.apply))
  }

  /** The employee groups of all businesses. */
  ghost function GroupCount(m: multiset<Event>, run: Run, settings: seq<Settings>): nat {
    if settings == [] then 0
    else
      var last := settings[|settings| - 1];
      GroupCount(m, run, settings[..|settings| - 1]) + |Employees(m, PlanOf(run, last), last.businessId)|
  }

  /** Decisions about a business depend on its own rows alone. */
  lemma SameBusinessSameTally(m: multiset<Event>, m': multiset<Event>, p: DayPlan, businessId: Id, apply: bool)
    requires forall e: Event :: e.businessId == businessId ==> m[e] == m'[e]
    ensures Employees(m, p, businessId) == Employees(m', p, businessId)
    ensures Tally(Employees(m, p, businessId), m, p, businessId, apply)
         == Tally(Employees(m', p, businessId), m', p, businessId, apply)
  {
    SameRows(m, m', businessId);
    var done := Employees(m, p, businessId);
    assert done == Employees(m', p, businessId);
    forall k
      ensures Eligible(m, p, businessId, k) == Eligible(m', p, businessId, k)
      ensures Complete(m, p, businessId, k) == Complete(m', p, businessId, k)
      ensures HasLunch(m, p, businessId, k) == HasLunch(m', p, businessId, k)
    {
      SameShiftSameVerdict(m, m', p, businessId, k);
    }
    assert EligibleAmong(done, m, p, businessId) == EligibleAmong(done, m', p, businessId);
    assert IncompleteAmong(done, m, p, businessId) == IncompleteAmong(done, m', p, businessId);
    assert TooShortAmong(done, m, p, businessId) == TooShortAmong(done, m', p, businessId);
    assert ReplacedAmong(done, m, p, businessId) == ReplacedAmong(done, m', p, businessId);
  }

  lemma SameRows(m: multiset<Event>, m': multiset<Event>, businessId: Id)
    requires forall e: Event :: e.businessId == businessId ==> m[e] == m'[e]
    ensures forall e: Event :: e.businessId == businessId ==> (e in m <==> e in m')
  {
  }

  /** Eligibility reads nothing but the check-ins and check-outs of one employee. */
  lemma SameShiftSameVerdict(m: multiset<Event>, m': multiset<Event>, p: DayPlan, businessId: Id, k: Id)
    requires forall e: Event :: e.businessId == businessId && e.employeeId == k && !IsLunch(e.eventType)
                                ==> (e in m <==> e in m')
    ensures Eligible(m, p, businessId, k) == Eligible(m', p, businessId, k)
    ensures Complete(m, p, businessId, k) == Complete(m', p, businessId, k)
  {
    assert TimesOf(m, p, businessId, k, CheckIn) == TimesOf(m', p, businessId, k, CheckIn);
    assert TimesOf(m, p, businessId, k, CheckOut) == TimesOf(m', p, businessId, k, CheckOut);
  }

  lemma SameBusinessSameResult(m: multiset<Event>, m': multiset<Event>, p: DayPlan, e: Event)
    requires forall x: Event :: x.businessId == e.businessId ==> m[x] == m'[x]
    ensures Normalized(m, p, e) == Normalized(m', p, e)
  {
    SameRows(m, m', e.businessId);
    SameShiftSameVerdict(m, m', p, e.businessId, e.employeeId);
  }

  /** The script's outer loop. */
  method Backfill(table: EventTable, run: Run, settings: seq<Settings>) returns (total: Counters)
    requires OnePerBusiness(settings)
    modifies table
    ensures total == TotalTally(old(table.Contents()), run, settings)
    ensures if run.apply then Backfilled(table.Contents(), old(table.Contents()), run, settings)
            else table.Contents() == old(table.Contents())
  {
    hide Normalized, PlanOf, Tally, Employees;
    ghost var m := table.Contents();
    total := Counters(0, 0, 0, 0, 0);
    for n := 0 to |settings|
      invariant total == TotalTally(m, run, settings[..n])
      invariant if run.apply then Backfilled(table.Contents(), m, run, settings[..n]) else table.Contents() == m
    {
      var s := settings[n];
      var p := PlanOf(run, s);
      ghost var before := table.Contents();
      assert settings[..n + 1][..n] == settings[..n];
      PlanForFound(run, settings[..n], s.businessId);
      assert forall e: Event :: e.businessId == s.businessId ==> before[e] == m[e];
      var c := BackfillBusiness(table, p, s.businessId, run.apply);
      SameBusinessSameTally(before, m, p, s.businessId, run.apply);
      total := Add(total, c);
      if run.apply {
        forall e
          ensures table.Contents()[e] == match PlanFor(run, settings[..n + 1], e.businessId)
                                         case Some(q) => Normalized(m, q, e)
                                         case None => m[e]
        {
          if e.businessId == s.businessId { SameBusinessSameResult(before, m, p, e); }
        }
      }
    }
    assert settings[..|settings|] == settings;
  }

  /** Eligible, incomplete and too short add up to the employee groups, and each eligible one gets two events. */
  lemma {:induction false} CountersAddUp(m: multiset<Event>, run: Run, settings: seq<Settings>)
    ensures var c := TotalTally(m, run, settings);
            && c.eligible + c.incomplete + c.tooShort == GroupCount(m, run, settings)
            && c.inserted == (if run.apply then 2 * c.eligible else 0)
            && c.replaced <= c.eligible
  {
    if settings == [] {
    } else {
      var last := settings[|settings| - 1];
      var p := PlanOf(run, last);
      var done := Employees(m, p, last.businessId);
      CountersAddUp(m, run, settings[..|settings| - 1]);
      TallyAddsUp(done, m, p, last.businessId, run.apply);
      SubsetCardinality(ReplacedAmong(done, m, p, last.businessId), EligibleAmong(done, m, p, last.businessId));
    }
  }

  // ---------------------------------------------------------------- properties of the result

  predicate WindowInDay(p: DayPlan) {
    p.lo <= p.lunchOut < p.hi && p.lo <= p.lunchIn < p.hi
  }

  /** Both made-up events of every eligible employee fall in the range the script deletes from. */
  ghost predicate WindowsInDay(m: multiset<Event>, run: Run, settings: seq<Settings>) {
    forall b, k :: PlanFor(run, settings, b).Some? && Eligible(m, PlanFor(run, settings, b).value, b, k)
                   ==> WindowInDay(PlanFor(run, settings, b).value)
  }

  /** A window in order lies between a check-in and a check-out of the day, hence in the day. */
  lemma OrderedWindowIsInDay(m: multiset<Event>, p: DayPlan, businessId: Id, employeeId: Id)
    requires Eligible(m, p, businessId, employeeId) && p.lunchOut <= p.lunchIn
    ensures WindowInDay(p)
  {
    var i, o :| i in TimesOf(m, p, businessId, employeeId, CheckIn)
             && o in TimesOf(m, p, businessId, employeeId, CheckOut) && Fits(p, i, o);
  }

  /** A run leaves check-ins, check-outs and every other type alone, so it does not change who is eligible. */
  lemma EligibilitySurvives(m: multiset<Event>, m1: multiset<Event>, run: Run, settings: seq<Settings>, b: Id, k: Id)
    requires Backfilled(m1, m, run, settings) && PlanFor(run, settings, b).Some?
    ensures var p := PlanFor(run, settings, b).value; Eligible(m1, p, b, k) == Eligible(m, p, b, k)
  {
    var p := PlanFor(run, settings, b).value;
    hide PlanFor, Eligible;
    forall e: Event | e.businessId == b && e.employeeId == k && !IsLunch(e.eventType)
      ensures e in m <==> e in m1
    {
      assert m1[e] == Normalized(m, p, e);
    }
    SameShiftSameVerdict(m, m1, p, b, k);
  }

  /** A second run for the same days changes nothing exactly when every lunch window in use lies in its day. */
  lemma SecondRunChangesNothing(m: multiset<Event>, m1: multiset<Event>, m2: multiset<Event>,
                                first: Run, second: Run, settings: seq<Settings>)
    requires forall b :: PlanFor(second, settings, b) == PlanFor(first, settings, b)
    requires Backfilled(m1, m, first, settings) && Backfilled(m2, m1, second, settings)
    ensures m2 == m1 <==> WindowsInDay(m, first, settings)
  {
    hide PlanFor, Eligible;
    if WindowsInDay(m, first, settings) {
      forall e
        ensures m2[e] == m1[e]
      {
        if PlanFor(first, settings, e.businessId).Some? {
          EligibilitySurvives(m, m1, first, settings, e.businessId, e.employeeId);
        }
      }
      assert m2 == m1;
    } else {
      var b, k :| PlanFor(first, settings, b).Some? && Eligible(m, PlanFor(first, settings, b).value, b, k)
               && !WindowInDay(PlanFor(first, settings, b).value);
      var p := PlanFor(first, settings, b).value;
      EligibilitySurvives(m, m1, first, settings, b, k);
      var stray := if p.lo <= p.lunchOut < p.hi then SyntheticIn(p, b, k) else SyntheticOut(p, b, k);
      assert m2[stray] == m1[stray] + 1;
    }
  }

  /** A start that is no time but has an hour past 24 puts lunch out of the day, and eligible days get it again. */
  lemma HourPast24IsRepeated(m: multiset<Event>, m1: multiset<Event>, m2: multiset<Event>, run: Run,
                             settings: seq<Settings>, s: Settings, k: Id, checkIn: int, checkOut: int)
    requires Backfilled(m1, m, run, settings) && Backfilled(m2, m1, run, settings)
    requires PlanFor(run, settings, s.businessId) == Some(PlanOf(run, s))
    requires s.zone.None? && LunchStart(run, s).hours.Some? && LunchStart(run, s).minutes.None?
    requires 24 <= LunchStart(run, s).hours.value
    requires checkIn in TimesOf(m, PlanOf(run, s), s.businessId, k, CheckIn)
    requires checkOut in TimesOf(m, PlanOf(run, s), s.businessId, k, CheckOut)
    requires LUNCH_MS < checkOut - checkIn
    ensures !WindowsInDay(m, run, settings) && m2 != m1
  {
    var p := PlanOf(run, s);
    MalformedLunchEndsAtDayStart(run, s);
    assert p.hi <= p.lunchOut;
    assert Fits(p, checkIn, checkOut);
    assert Eligible(m, p, s.businessId, k);
    assert !WindowsInDay(m, run, settings);
    SecondRunChangesNothing(m, m1, m2, run, run, settings);
  }

  /** A start text such as "25:xx". */
  function LateSettings(businessId: Id): Settings {
    Settings(businessId, None, Some(Clock(Some(25), None)))
  }

  function OneShift(businessId: Id, k: Id): multiset<Event> {
    multiset{Event(businessId, k, CheckIn, 8 * 60 * TimeZone.MINUTE_MS, NOWHERE),
             Event(businessId, k, CheckOut, 17 * 60 * TimeZone.MINUTE_MS, NOWHERE)}
  }

  /** A run on the second day of January 1970, for the first. */
  const FIRST_DAY := Run(true, None, None, TimeZone.DAY_MS)

  lemma FirstDayPlan(businessId: Id)
    ensures var p := PlanOf(FIRST_DAY, LateSettings(businessId)); p.lo == 0 && p.hi == TimeZone.DAY_MS
    ensures PlanFor(FIRST_DAY, [LateSettings(businessId)], businessId) ==
        Some(PlanOf(FIRST_DAY, LateSettings(businessId)))
  {
    assert TargetDay(FIRST_DAY, LateSettings(businessId)) == 0;
    hide TargetDay, LunchStart, WallMinutes, LunchEnd;
  }

  /** For one, a shift from 8:00 to 17:00 in UTC. */
  lemma SomeHourPast24(businessId: Id, k: Id, m1: multiset<Event>, m2: multiset<Event>)
    requires var settings, m := [LateSettings(businessId)], OneShift(businessId, k);
             Backfilled(m1, m, FIRST_DAY, settings) && Backfilled(m2, m1, FIRST_DAY, settings)
    ensures m2 != m1
  {
    var s, m := LateSettings(businessId), OneShift(businessId, k);
    var checkIn := Event(businessId, k, CheckIn, 8 * 60 * TimeZone.MINUTE_MS, NOWHERE);
    var checkOut := Event(businessId, k, CheckOut, 17 * 60 * TimeZone.MINUTE_MS, NOWHERE);
    FirstDayPlan(businessId);
    hide PlanOf, PlanFor, Backfilled;
    assert checkIn in m && checkOut in m;
    HourPast24IsRepeated(m, m1, m2, FIRST_DAY, [s], s, k, checkIn.at, checkOut.at);
  }

  /** The earliest and the latest element. */
  ghost predicate IsFirst(s: set<int>, x: int) {
    x in s && forall y :: y in s ==> x <= y
  }

  ghost predicate IsLast(s: set<int>, x: int) {
    x in s && forall y :: y in s ==> y <= x
  }

  lemma {:induction false} FirstExists(s: set<int>) returns (x: int)
    requires exists y :: y in s
    ensures IsFirst(s, x)
    decreases s
  {
    var y :| y in s;
    assert forall other :: other in s ==> other == y || other in s - {y};
    if exists other :: other in s - {y} {
      var z := FirstExists(s - {y});
      x := if y < z then y else z;
    } else {
      x := y;
    }
  }

  lemma {:induction false} LastExists(s: set<int>) returns (x: int)
    requires exists y :: y in s
    ensures IsLast(s, x)
    decreases s
  {
    var y :| y in s;
    assert forall other :: other in s ==> other == y || other in s - {y};
    if exists other :: other in s - {y} {
      var z := LastExists(s - {y});
      x := if y < z then z else y;
    } else {
      x := y;
    }
  }

  /**
   * With a window in order, an eligible employee has exactly one lunch start and one lunch end in the day, and they
   * lie in order between the day's earliest check-in and its latest check-out.
   */
  lemma OneLunchPerEligibleDay(m: multiset<Event>, m1: multiset<Event>, run: Run, settings: seq<Settings>, b: Id, k: Id)
    returns (checkIn: int, checkOut: int)
    requires Backfilled(m1, m, run, settings) && PlanFor(run, settings, b).Some?
    requires Eligible(m, PlanFor(run, settings, b).value, b, k)
    requires PlanFor(run, settings, b).value.lunchOut < PlanFor(run, settings, b).value.lunchIn
    ensures var p := PlanFor(run, settings, b).value;
            && IsFirst(TimesOf(m, p, b, k, CheckIn), checkIn) && IsLast(TimesOf(m, p, b, k, CheckOut), checkOut)
            && checkIn < p.lunchOut < p.lunchIn < checkOut
            && (forall e :: InWindow(e, b, k, LunchOut, p.lo, p.hi)
                            ==> m1[e] == if e == SyntheticOut(p, b, k) then 1 else 0)
            && (forall e :: InWindow(e, b, k, LunchIn, p.lo, p.hi)
                            ==> m1[e] == if e == SyntheticIn(p, b, k) then 1 else 0)
            && InWindow(SyntheticOut(p, b, k), b, k, LunchOut, p.lo, p.hi)
            && InWindow(SyntheticIn(p, b, k), b, k, LunchIn, p.lo, p.hi)
  {
    var p := PlanFor(run, settings, b).value;
    OrderedWindowIsInDay(m, p, b, k);
    checkIn := FirstExists(TimesOf(m, p, b, k, CheckIn));
    checkOut := LastExists(TimesOf(m, p, b, k, CheckOut));
  }

  /** The event is one of the two that the run makes up for an eligible employee's day. */
  ghost predicate MadeUp(m: multiset<Event>, run: Run, settings: seq<Settings>, e: Event) {
    match PlanFor(run, settings, e.businessId)
    case Some(p) => Eligible(m, p, e.businessId, e.employeeId)
                    && (e == SyntheticOut(p, e.businessId, e.employeeId)
                        || e == SyntheticIn(p, e.businessId, e.employeeId))
    case None => false
  }

  /** Among the events that are no lunch event of an eligible employee's day only those made up change their number. */
  lemma OtherEventsUnchanged(m: multiset<Event>, m1: multiset<Event>, run: Run, settings: seq<Settings>, e: Event)
    requires Backfilled(m1, m, run, settings)
    requires match PlanFor(run, settings, e.businessId)
             case Some(p) => !Eligible(m, p, e.businessId, e.employeeId)
                             || !IsLunchInRange(e, e.businessId, e.employeeId, p.lo, p.hi)
             case None => true
    ensures m1[e] == m[e] <==> !MadeUp(m, run, settings, e)
  {
    hide Eligible;
  }
}
