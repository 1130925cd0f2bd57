/** The lunch backfill: one day's events per employee, one lunch window per business, lunch events replaced. */
module LunchBackfill {
  import opened Common
  import opened AttendanceEvents
  import TimeZone
  import CivilDate

  const LUNCH_MINUTES := 60
  const LUNCH_MS := LUNCH_MINUTES * TimeZone.MINUTE_MS

  // ---------------------------------------------------------------- clock texts

  /** What `Number` makes of the two parts of an "HH:mm" text; None is NaN. */
  datatype Clock = Clock(hours: Option<int>, minutes: Option<int>)

  /** JavaScript's `%`: the remainder has the sign of the dividend. */
  function JsRemainder(a: int, b: int): int
    requires 0 < b
  {
    if 0 <= a then a % b else -((-a) % b)
  }

  function MinutesFromHHmm(c: Clock): Option<int> {
    if c.hours.Some? && c.minutes.Some? then Some(c.hours.value * 60 + c.minutes.value) else None
  }

  /** `hhmmFromMinutes`, read back as the next function reads it; the hours do not wrap at 24. */
  function HHmmFromMinutes(total: Option<int>): Clock {
    match total
    case Some(n) => Clock(Some(n / 60), Some(JsRemainder(n, 60)))
    case None => Clock(None, None)
  }

  /** The minutes `localWallTimeToUtc` reads: NaN counts as 0, part by part. */
  function WallMinutes(c: Clock): int {
    c.hours.GetOr(0) * 60 + c.minutes.GetOr(0)
  }

  function Plus(total: Option<int>, minutes: int): Option<int> {
    if total.Some? then Some(total.value + minutes) else None
  }

  function LunchEnd(start: Clock): Clock {
    HHmmFromMinutes(Plus(MinutesFromHHmm(start), LUNCH_MINUTES))
  }

  /** Dividing a negative number rounds down, so the parts of an hour do not add up to it again. */
  lemma NegativeQuotient(m: int)
    requires 0 < m
    ensures (-m) / 60 == if m % 60 == 0 then -(m / 60) else -(m / 60) - 1
  {
    var q, r := m / 60, m % 60;
    assert m == 60 * q + r;
  }

  /** Printing minutes and reading them back gives the same minutes, except for a negative part of an hour. */
  lemma ClockRoundTrip(n: int)
    ensures WallMinutes(HHmmFromMinutes(Some(n))) == n <==> 0 <= n || n % 60 == 0
    ensures MinutesFromHHmm(HHmmFromMinutes(Some(n))) == Some(WallMinutes(HHmmFromMinutes(Some(n))))
  {
    if n < 0 { NegativeQuotient(-n); }
  }

  // ---------------------------------------------------------------- the plan of one business

  /** The day's half-open range and the lunch window, all in UTC. */
  datatype DayPlan = DayPlan(lo: int, hi: int, lunchOut: int, lunchIn: int)

  datatype Settings = Settings(businessId: Id, zone: Option<TimeZone.Zone>, fixedLunchStart: Option<Clock>)

  /** The environment of one run and the clock at its start. */
  datatype Run = Run(apply: bool, targetDate: Option<CivilDate.Date>, lunchStart: Option<Clock>, now: int)

  function ZoneOf(s: Settings): TimeZone.Zone {
    match s.zone
    case Some(z) => z
    case None => (t: int) => 0
  }

  /** The day number of the target date, or of the day before the one on the business's wall. */
  function TargetDay(run: Run, s: Settings): int {
    match run.targetDate
    case Some(d) => CivilDate.UtcDay(d)
    case None => TimeZone.LocalDay(ZoneOf(s), run.now) - 1
  }

  function LunchStart(run: Run, s: Settings): Clock {
    run.lunchStart.GetOr(s.fixedLunchStart.GetOr(Clock(Some(13), Some(0))))
  }

  function PlanOf(run: Run, s: Settings): DayPlan {
    var zone := ZoneOf(s);
    var day := TargetDay(run, s);
    var start := LunchStart(run, s);
    DayPlan(TimeZone.DayStart(zone, day), TimeZone.DayEnd(zone, day),
            TimeZone.WallToUtc(zone, day, WallMinutes(start)),
            TimeZone.WallToUtc(zone, day, WallMinutes(LunchEnd(start))))
  }

  /** Without a target date the day is what `addDays` makes of today's date on the wall and -1. */
  lemma TargetDayIsYesterday(run: Run, s: Settings)
    requires run.targetDate.None?
    requires var today := CivilDate.IsoDate(TimeZone.LocalDay(ZoneOf(s), run.now));
             today.Some? && 100 <= today.value.year && CivilDate.AddDays(today.value, -1).Some?
             && 100 <= CivilDate.AddDays(today.value, -1).value.year
    ensures var today := CivilDate.IsoDate(TimeZone.LocalDay(ZoneOf(s), run.now)).value;
            CivilDate.UtcDay(CivilDate.AddDays(today, -1).value) == TargetDay(run, s)
            && CivilDate.NextDay(CivilDate.AddDays(today, -1).value) == today
  {
    hide CivilDate.DayNumber, CivilDate.FromDayNumber, CivilDate.NextDay;
    var n := TimeZone.LocalDay(ZoneOf(s), run.now);
    var today := CivilDate.IsoDate(n).value;
    CivilDate.DayNumberOfFromDayNumber(n);
    CivilDate.DayNumberOfFromDayNumber(n - 1);
    CivilDate.AddDaysZero(today);
    CivilDate.AddDaysSuccessor(today, -1);
  }

  /**
   * With a numeric start lunch ends after it starts exactly when the zone does not jump ahead by the lunch's whole
   * length in between, and the end is not a part of an hour before midnight, which prints as the start again.
   */
  lemma LunchInOrder(run: Run, s: Settings)
    requires MinutesFromHHmm(LunchStart(run, s)).Some?
    ensures var end := MinutesFromHHmm(LunchStart(run, s)).value + LUNCH_MINUTES;
            var approx := TargetDay(run, s) * TimeZone.DAY_MS + WallMinutes(LunchStart(run, s)) * TimeZone.MINUTE_MS;
            (PlanOf(run, s).lunchOut < PlanOf(run, s).lunchIn <==>
               && (0 <= end || end % 60 == 0)
               && ZoneOf(s)(approx + LUNCH_MS) - ZoneOf(s)(approx) < LUNCH_MS)
  {
    var start := MinutesFromHHmm(LunchStart(run, s)).value;
    var end := start + LUNCH_MINUTES;
    ClockRoundTrip(end);
    var day := TargetDay(run, s) * TimeZone.DAY_MS;
    if 0 <= end || end % 60 == 0 {
      assert WallMinutes(LunchEnd(LunchStart(run, s))) == end;
      assert day + end * TimeZone.MINUTE_MS == day + start * TimeZone.MINUTE_MS + LUNCH_MS;
    } else {
      NegativeEnd(end);
      assert WallMinutes(LunchEnd(LunchStart(run, s))) == start;
    }
  }

  /** A negative part of an hour prints as an hour less. */
  lemma NegativeEnd(n: int)
    requires n < 0 && n % 60 != 0
    ensures WallMinutes(HHmmFromMinutes(Some(n))) == n - 60
  {
    NegativeQuotient(-n);
  }

  /** A start text that is not a time makes lunch "end" at the start of the day. */
  lemma MalformedLunchEndsAtDayStart(run: Run, s: Settings)
    requires MinutesFromHHmm(LunchStart(run, s)).None?
    ensures PlanOf(run, s).lunchIn == PlanOf(run, s).lo
  {
  }

  // ---------------------------------------------------------------- what the script decides and does

  ghost function TimesOf(m: multiset<Event>, p: DayPlan, businessId: Id, employeeId: Id, t: EventType): set<int> {
    set e | e in m && InWindow(e, businessId, employeeId, t, p.lo, p.hi) :: e.at
  }

  ghost predicate HasLunch(m: multiset<Event>, p: DayPlan, businessId: Id, employeeId: Id) {
    exists e :: e in m && IsLunchInRange(e, businessId, employeeId, p.lo, p.hi)
  }

  /** Some check-in of the day comes before some check-out of the day. */
  ghost predicate Complete(m: multiset<Event>, p: DayPlan, businessId: Id, employeeId: Id) {
    exists i, o :: i in TimesOf(m, p, businessId, employeeId, CheckIn)
                && o in TimesOf(m, p, businessId, employeeId, CheckOut) && i < o
  }

  /** A shift longer than lunch has the lunch window strictly inside. */
  predicate Fits(p: DayPlan, checkIn: int, checkOut: int) {
    LUNCH_MS < checkOut - checkIn && checkIn < p.lunchOut && p.lunchIn < checkOut
  }

  ghost predicate Eligible(m: multiset<Event>, p: DayPlan, businessId: Id, employeeId: Id) {
    exists i, o :: i in TimesOf(m, p, businessId, employeeId, CheckIn)
                && o in TimesOf(m, p, businessId, employeeId, CheckOut) && Fits(p, i, o)
  }

  function SyntheticOut(p: DayPlan, businessId: Id, employeeId: Id): Event {
    Event(businessId, employeeId, LunchOut, p.lunchOut, NOWHERE)
  }

  function SyntheticIn(p: DayPlan, businessId: Id, employeeId: Id): Event {
    Event(businessId, employeeId, LunchIn, p.lunchIn, NOWHERE)
  }

  /** How often `e` is in the table once its own employee has been normalized. */
  ghost function Normalized(m: multiset<Event>, p: DayPlan, e: Event): nat {
    if !Eligible(m, p, e.businessId, e.employeeId) then m[e]
    else
      var kept := if IsLunchInRange(e, e.businessId, e.employeeId, p.lo, p.hi) then 0 else m[e];
      var made := SyntheticOut(p, e.businessId, e.employeeId) == e || SyntheticIn(p, e.businessId, e.employeeId) == e;
      kept + (if made then 1 else 0)
  }

  // ---------------------------------------------------------------- the imperative pieces

  /** The events of one employee, in order. */
  function OfEmployee(events: seq<Event>, employeeId: Id): (r: seq<Event>)
    ensures forall e :: e in r <==> e in events && e.employeeId == employeeId
  {
    if events == [] then []
    else
      var last := events[|events| - 1];
      OfEmployee(events[..|events| - 1], employeeId) + if last.employeeId == employeeId then [last] else []
  }

  lemma {:induction false} OfEmployeeMultiplicity(events: seq<Event>, employeeId: Id, e: Event)
    ensures multiset(OfEmployee(events, employeeId))[e] == if e.employeeId == employeeId then multiset(events)[e] else 0
  {
    if events == [] {
    } else {
      OfEmployeeMultiplicity(events[..|events| - 1], employeeId, e);
      assert events == events[..|events| - 1] + [events[|events| - 1]];
    }
  }

  lemma NothingOfEmployee()
    ensures forall k :: OfEmployee([], k) == []
  {
  }

  lemma OneMoreEvent(events: seq<Event>, n: nat)
    requires n < |events|
    ensures forall k :: OfEmployee(events[..n + 1], k) ==
                          OfEmployee(events[..n], k) + if events[n].employeeId == k then [events[n]] else []
  {
    assert events[..n + 1][..n] == events[..n];
  }

  /** The `Map` of arrays: keys in order of first appearance, each with its events. */
  method GroupByEmployee(events: seq<Event>) returns (order: seq<Id>, groups: map<Id, seq<Event>>)
    ensures Distinct(order)
    ensures forall k :: k in order <==> k in groups
    ensures forall k :: k in groups <==> OfEmployee(events, k) != []
    ensures forall k :: k in groups ==> groups[k] == OfEmployee(events, k)
  {
    hide OfEmployee;
    order, groups := [], map[];
    NothingOfEmployee();
    for n := 0 to |events|
      invariant Distinct(order)
      invariant forall k :: k in order <==> k in groups
      invariant forall k :: k in groups <==> OfEmployee(events[..n], k) != []
      invariant forall k :: k in groups ==> groups[k] == OfEmployee(events[..n], k)
    {
      var event := events[n];
      OneMoreEvent(events, n);
      if event.employeeId in groups {
        groups := groups[event.employeeId := groups[event.employeeId] + [event]];
      } else {
        order := order + [event.employeeId];
        groups := groups[event.employeeId := [event]];
      }
    }
    assert events[..|events|] == events;
  }

  /** `filter` on a type, `sort` by time, first element. */
  method Earliest(events: seq<Event>, t: EventType) returns (at: Option<int>)
    ensures at.None? ==> forall e :: e in events ==> e.eventType != t
    ensures at.Some? ==> exists e :: e in events && e.eventType == t && e.at == at.value
    ensures at.Some? ==> forall e :: e in events && e.eventType == t ==> at.value <= e.at
  {
    at := None;
    for n := 0 to |events|
      invariant at.None? ==> forall e :: e in events[..n] ==> e.eventType != t
      invariant at.Some? ==> exists e :: e in events[..n] && e.eventType == t && e.at == at.value
      invariant at.Some? ==> forall e :: e in events[..n] && e.eventType == t ==> at.value <= e.at
    {
      assert events[..n + 1] == events[..n] + [events[n]];
      if events[n].eventType == t && (at.None? || events[n].at < at.value) {
        at := Some(events[n].at);
        assert events[n] in events[..n + 1];
      }
    }
    assert events[..|events|] == events;
  }

  /** `filter` on a type, `sort` by time, last element. */
  method Latest(events: seq<Event>, t: EventType) returns (at: Option<int>)
    ensures at.None? ==> forall e :: e in events ==> e.eventType != t
    ensures at.Some? ==> exists e :: e in events && e.eventType == t && e.at == at.value
    ensures at.Some? ==> forall e :: e in events && e.eventType == t ==> e.at <= at.value
  {
    at := None;
    for n := 0 to |events|
      invariant at.None? ==> forall e :: e in events[..n] ==> e.eventType != t
      invariant at.Some? ==> exists e :: e in events[..n] && e.eventType == t && e.at == at.value
      invariant at.Some? ==> forall e :: e in events[..n] && e.eventType == t ==> e.at <= at.value
    {
      assert events[..n + 1] == events[..n] + [events[n]];
      if events[n].eventType == t && (at.None? || at.value <= events[n].at) {
        at := Some(events[n].at);
        assert events[n] in events[..n + 1];
      }
    }
    assert events[..|events|] == events;
  }

  datatype Verdict = SkipIncomplete | SkipTooShort | Normalize(hasLunch: bool)

  /** The decision for one employee: earliest check-in, latest check-out, configured window. */
  method Judge(events: seq<Event>, p: DayPlan, ghost m: multiset<Event>, ghost businessId: Id, ghost employeeId: Id)
    returns (verdict: Verdict)
    requires forall e :: multiset(events)[e]
                      == if InRange(e, businessId, p.lo, p.hi) && e.employeeId == employeeId then m[e] else 0
    ensures IsVerdict(verdict, m, p, businessId, employeeId)
  {
    assert forall e :: e in events <==> e in multiset(events);
    var hasLunch := exists e :: e in events && IsLunch(e.eventType);
    var checkIn := Earliest(events, CheckIn);
    var checkOut := Latest(events, CheckOut);
    assert forall i :: i in TimesOf(m, p, businessId, employeeId, CheckIn)
                 <==> exists e :: e in events && e.eventType == CheckIn && e.at == i;
    assert forall o :: o in TimesOf(m, p, businessId, employeeId, CheckOut)
                 <==> exists e :: e in events && e.eventType == CheckOut && e.at == o;
    if checkIn.None? || checkOut.None? || checkOut.value <= checkIn.value {
      return SkipIncomplete;
    }
    assert checkIn.value in TimesOf(m, p, businessId, employeeId, CheckIn);
    assert checkOut.value in TimesOf(m, p, businessId, employeeId, CheckOut);
    if !Fits(p, checkIn.value, checkOut.value) {
      return SkipTooShort;
    }
    return Normalize(hasLunch);
  }

  datatype Counters = Counters(eligible: nat, inserted: nat, replaced: nat, incomplete: nat, tooShort: nat)

  ghost function Employees(m: multiset<Event>, p: DayPlan, businessId: Id): set<Id> {
    set e | e in m && InRange(e, businessId, p.lo, p.hi) :: e.employeeId
  }

  ghost function EligibleAmong(done: set<Id>, m: multiset<Event>, p: DayPlan, businessId: Id): set<Id> {
    set k | k in done && Eligible(m, p, businessId, k)
  }

  ghost function IncompleteAmong(done: set<Id>, m: multiset<Event>, p: DayPlan, businessId: Id): set<Id> {
    set k | k in done && !Complete(m, p, businessId, k)
  }

  ghost function ReplacedAmong(done: set<Id>, m: multiset<Event>, p: DayPlan, businessId: Id): set<Id> {
    set k | k in done && Eligible(m, p, businessId, k) && HasLunch(m, p, businessId, k)
  }

  ghost function TooShortAmong(done: set<Id>, m: multiset<Event>, p: DayPlan, businessId: Id): set<Id> {
    set k | k in done && Complete(m, p, businessId, k) && !Eligible(m, p, businessId, k)
  }

  /** The counters after the employees in `done` of one business. */
  ghost function Tally(done: set<Id>, m: multiset<Event>, p: DayPlan, businessId: Id, apply: bool): Counters {
    var eligible := |EligibleAmong(done, m, p, businessId)|;
    Counters(eligible,
             if apply then 2 * eligible else 0,
             if apply then |ReplacedAmong(done, m, p, businessId)| else 0,
             |IncompleteAmong(done, m, p, businessId)|,
             |TooShortAmong(done, m, p, businessId)|)
  }

  /** An eligible employee has a check-in of the day before a check-out of the day, hence events. */
  lemma EligibleIsComplete(m: multiset<Event>, p: DayPlan, businessId: Id, employeeId: Id)
    requires Eligible(m, p, businessId, employeeId)
    ensures Complete(m, p, businessId, employeeId)
    ensures employeeId in Employees(m, p, businessId)
  {
    var i, o :| i in TimesOf(m, p, businessId, employeeId, CheckIn)
             && o in TimesOf(m, p, businessId, employeeId, CheckOut) && Fits(p, i, o);
    assert i < o;
    var e :| e in m && InWindow(e, businessId, employeeId, CheckIn, p.lo, p.hi) && e.at == i;
    assert e.employeeId in Employees(m, p, businessId);
  }

  /** Every employee with events of the day is eligible, incomplete or too short, and only one of the three. */
  lemma TallyAddsUp(done: set<Id>, m: multiset<Event>, p: DayPlan, businessId: Id, apply: bool)
    ensures var c := Tally(done, m, p, businessId, apply); c.eligible + c.incomplete + c.tooShort == |done|
  {
    var e, i := EligibleAmong(done, m, p, businessId), IncompleteAmong(done, m, p, businessId);
    var t := TooShortAmong(done, m, p, businessId);
    forall k | Eligible(m, p, businessId, k)
      ensures Complete(m, p, businessId, k)
    {
      EligibleIsComplete(m, p, businessId, k);
    }
    assert done == e + i + t && e !! i && (e + i) !! t;
  }

  function CountOne(c: Counters, verdict: Verdict, apply: bool): Counters {
    match verdict
    case SkipIncomplete => c.(incomplete := c.incomplete + 1)
    case SkipTooShort => c.(tooShort := c.tooShort + 1)
    case Normalize(hasLunch) =>
      if !apply then c.(eligible := c.eligible + 1)
      else c.(eligible := c.eligible + 1, inserted := c.inserted + 2,
              replaced := c.replaced + if hasLunch then 1 else 0)
  }

  ghost predicate IsVerdict(verdict: Verdict, m: multiset<Event>, p: DayPlan, businessId: Id, employeeId: Id) {
    && (verdict.SkipIncomplete? <==> !Complete(m, p, businessId, employeeId))
    && (verdict.Normalize? <==> Eligible(m, p, businessId, employeeId))
    && (verdict.SkipTooShort? ==> Complete(m, p, businessId, employeeId))
    && (verdict.Normalize? ==> (verdict.hasLunch <==> HasLunch(m, p, businessId, employeeId)))
  }

  lemma EligibleGrows(done: set<Id>, k: Id, m: multiset<Event>, p: DayPlan, businessId: Id)
    requires k !in done
    ensures |EligibleAmong(done + {k}, m, p, businessId)|
         == |EligibleAmong(done, m, p, businessId)| + if Eligible(m, p, businessId, k) then 1 else 0
  {
    hide Eligible, Complete, HasLunch;
    var before := EligibleAmong(done, m, p, businessId);
    assert EligibleAmong(done + {k}, m, p, businessId) ==
             if Eligible(m, p, businessId, k) then before + {k} else before;
  }

  lemma IncompleteGrows(done: set<Id>, k: Id, m: multiset<Event>, p: DayPlan, businessId: Id)
    requires k !in done
    ensures |IncompleteAmong(done + {k}, m, p, businessId)|
         == |IncompleteAmong(done, m, p, businessId)| + if !Complete(m, p, businessId, k) then 1 else 0
  {
    hide Eligible, Complete, HasLunch;
    var before := IncompleteAmong(done, m, p, businessId);
    assert IncompleteAmong(done + {k}, m, p, businessId) ==
             if !Complete(m, p, businessId, k) then before + {k} else before;
  }

  lemma TooShortGrows(done: set<Id>, k: Id, m: multiset<Event>, p: DayPlan, businessId: Id)
    requires k !in done
    ensures |TooShortAmong(done + {k}, m, p, businessId)|
         == |TooShortAmong(done, m, p, businessId)|
            + if Complete(m, p, businessId, k) && !Eligible(m, p, businessId, k) then 1 else 0
  {
    hide Eligible, Complete, HasLunch;
    var before := TooShortAmong(done, m, p, businessId);
    assert TooShortAmong(done + {k}, m, p, businessId)
        == if Complete(m, p, businessId, k) && !Eligible(m, p, businessId, k) then before + {k} else before;
  }

  lemma ReplacedGrows(done: set<Id>, k: Id, m: multiset<Event>, p: DayPlan, businessId: Id)
    requires k !in done
    ensures |ReplacedAmong(done + {k}, m, p, businessId)|
         == |ReplacedAmong(done, m, p, businessId)|
            + if Eligible(m, p, businessId, k) && HasLunch(m, p, businessId, k) then 1 else 0
  {
    hide Eligible, Complete, HasLunch;
    var before := ReplacedAmong(done, m, p, businessId);
    assert ReplacedAmong(done + {k}, m, p, businessId) ==
           if Eligible(m, p, businessId, k) && HasLunch(m, p, businessId, k) then before + {k} else before;
  }

  /** Each verdict adds one employee to exactly one of the three outcomes. */
  lemma TallyOne(done: set<Id>, k: Id, verdict: Verdict, m: multiset<Event>, p: DayPlan, businessId: Id, apply: bool)
    requires k !in done
    requires IsVerdict(verdict, m, p, businessId, k)
    ensures Tally(done + {k}, m, p, businessId, apply) == CountOne(Tally(done, m, p, businessId, apply), verdict, apply)
  {
    hide Eligible, Complete, HasLunch, EligibleAmong, IncompleteAmong, ReplacedAmong, TooShortAmong;
    EligibleGrows(done, k, m, p, businessId);
    IncompleteGrows(done, k, m, p, businessId);
    TooShortGrows(done, k, m, p, businessId);
    ReplacedGrows(done, k, m, p, businessId);
  }

  /** The transaction that replaces one employee's lunch. */
  method ReplaceLunch(table: EventTable, p: DayPlan, businessId: Id, employeeId: Id, hasLunch: bool)
    requires hasLunch <==> HasLunch(table.Contents(), p, businessId, employeeId)
    modifies table
    ensures forall e :: table.Contents()[e]
                     == (if IsLunchInRange(e, businessId, employeeId, p.lo, p.hi) then 0 else old(table.Contents())[e])
                      + (if e == SyntheticOut(p, businessId, employeeId) || e == SyntheticIn(p, businessId, employeeId)
                         then 1 else 0)
  {
    if hasLunch {
      table.DestroyLunch(businessId, employeeId, p.lo, p.hi);
    }
    ghost var m := old(table.Contents());
    assert forall e :: table.Contents()[e] == if IsLunchInRange(e, businessId, employeeId, p.lo, p.hi) then 0 else m[e];
    table.Create(SyntheticOut(p, businessId, employeeId));
    table.Create(SyntheticIn(p, businessId, employeeId));
  }

  /** The table after the employees in `done` of one business have been handled. */
  ghost predicate HandledSoFar(now: multiset<Event>, m: multiset<Event>, p: DayPlan, businessId: Id, done: set<Id>) {
    forall e :: now[e] == if e.businessId == businessId && e.employeeId in done then Normalized(m, p, e) else m[e]
  }

  /** One employee of the inner loop. */
  method HandleEmployee(table: EventTable, p: DayPlan, businessId: Id, employeeId: Id, events: seq<Event>, apply: bool,
                        ghost m: multiset<Event>, ghost done: set<Id>)
    returns (verdict: Verdict)
    requires forall e :: multiset(events)[e] ==
               if InRange(e, businessId, p.lo, p.hi) && e.employeeId == employeeId then m[e] else 0
    requires employeeId !in done
    requires if apply then HandledSoFar(table.Contents(), m, p, businessId, done) else table.Contents() == m
    modifies table
    ensures IsVerdict(verdict, m, p, businessId, employeeId)
    ensures if apply then HandledSoFar(table.Contents(), m, p, businessId, done + {employeeId})
            else table.Contents() == m
  {
    hide Eligible, Complete;
    verdict := Judge(events, p, m, businessId, employeeId);
    if verdict.Normalize? && apply {
      ReplaceLunch(table, p, businessId, employeeId, verdict.hasLunch);
    }
  }

  /** The groups are those of the employees with events in the day. */
  lemma GroupsAreEmployees(order: seq<Id>, events: seq<Event>, m: multiset<Event>, p: DayPlan, businessId: Id)
    requires forall k :: k in order <==> OfEmployee(events, k) != []
    requires forall k, e :: multiset(OfEmployee(events, k))[e] ==
                              if InRange(e, businessId, p.lo, p.hi) && e.employeeId == k then m[e] else 0
    ensures Elements(order) == Employees(m, p, businessId)
  {
    hide InRange, OfEmployee;
    forall k
      ensures k in order <==> k in Employees(m, p, businessId)
    {
      var own := OfEmployee(events, k);
      assert own != [] ==> own[0] in own;
      assert forall e :: e in own <==> e in multiset(own);
    }
  }

  /** Nothing changes for an employee without events in the day. */
  lemma IdleEmployee(m: multiset<Event>, p: DayPlan, e: Event)
    requires e.employeeId !in Employees(m, p, e.businessId)
    ensures Normalized(m, p, e) == m[e]
  {
    if Eligible(m, p, e.businessId, e.employeeId) {
      EligibleIsComplete(m, p, e.businessId, e.employeeId);
    }
  }

  lemma NobodyHandled(m: multiset<Event>, p: DayPlan, businessId: Id, apply: bool)
    ensures Tally({}, m, p, businessId, apply) == Counters(0, 0, 0, 0, 0) && HandledSoFar(m, m, p, businessId, {})
  {
  }

  lemma EverybodyHandled(now: multiset<Event>, m: multiset<Event>, p: DayPlan, businessId: Id)
    requires HandledSoFar(now, m, p, businessId, Employees(m, p, businessId))
    ensures forall e :: now[e] == if e.businessId == businessId then Normalized(m, p, e) else m[e]
  {
    hide Normalized, Employees;
    forall e: Event | e.businessId == businessId && e.employeeId !in Employees(m, p, businessId)
      ensures Normalized(m, p, e) == m[e]
    {
      IdleEmployee(m, p, e);
    }
  }

  /** One pass of the outer loop. */
  method BackfillBusiness(table: EventTable, p: DayPlan, businessId: Id, apply: bool) returns (c: Counters)
    modifies table
    ensures c == Tally(Employees(old(table.Contents()), p, businessId), old(table.Contents()), p, businessId, apply)
    ensures if !apply then table.Contents() == old(table.Contents())
            else forall e :: table.Contents()[e] ==
                   if e.businessId == businessId then Normalized(old(table.Contents()), p, e)
                   else old(table.Contents())[e]
  {
    hide Eligible, Complete, HasLunch, InRange, Normalized, OfEmployee, Tally, CountOne, HandledSoFar, IsVerdict;
    ghost var m := table.Contents();
    NobodyHandled(m, p, businessId, apply);
    var events := table.FindInRange(businessId, p.lo, p.hi);
    var order, groups := GroupByEmployee(events);
    forall k, e
      ensures multiset(OfEmployee(events, k))[e] ==
                if InRange(e, businessId, p.lo, p.hi) && e.employeeId == k then m[e] else 0
    {
      OfEmployeeMultiplicity(events, k, e);
    }
    c := Counters(0, 0, 0, 0, 0);
    assert Elements(order[..0]) == {};
    for n := 0 to |order|
      invariant c == Tally(Elements(order[..n]), m, p, businessId, apply)
      invariant if apply then HandledSoFar(table.Contents(), m, p, businessId, Elements(order[..n]))
                else table.Contents() == m
    {
      var employeeId := order[n];
      assert order[..n + 1] == order[..n] + [employeeId];
      ElementsAppend(order[..n], employeeId);
      var verdict := HandleEmployee(table, p, businessId, employeeId, groups[employeeId], apply, m,
                                    Elements(order[..n]));
      TallyOne(Elements(order[..n]), employeeId, verdict, m, p, businessId, apply);
      c := CountOne(c, verdict, apply);
    }
    assert order[..|order|] == order;
    GroupsAreEmployees(order, events, m, p, businessId);
    if apply { EverybodyHandled(table.Contents(), m, p, businessId); }
  }
}
