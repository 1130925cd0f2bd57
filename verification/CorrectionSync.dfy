/** The replay of approved attendance corrections: ordered upserts into the event table. */
module CorrectionSync {
  import opened Common
  import opened AttendanceEvents
  import TimeZone

  /** An approved check-in correction with a corrected time; the category column may be null. */
  datatype Correction = Correction(businessId: Id, employeeUserId: Id, category: Option<EventType>, fromAt: int)

  /** Zones of the businesses that have settings; the others use UTC. */
  type Zones = map<Id, TimeZone.Zone>

  function ZoneFor(zones: Zones, businessId: Id): TimeZone.Zone {
    if businessId in zones then zones[businessId] else (t: int) => 0
  }

  /** Start of the day that the corrected time shows on the business's wall. */
  function WindowStart(zones: Zones, c: Correction): int {
    var zone := ZoneFor(zones, c.businessId);
    TimeZone.DayStart(zone, TimeZone.LocalDay(zone, c.fromAt))
  }

  /** The rows an upsert looks at. */
  predicate InWindowOf(zones: Zones, c: Correction, e: Event) {
    c.category.Some? && InWindow(e, c.businessId, c.employeeUserId, c.category.value,
                                 WindowStart(zones, c), WindowStart(zones, c) + TimeZone.DAY_MS)
  }

  /** The event an upsert writes. */
  function Corrected(c: Correction): Event
    requires c.category.Some?
  {
    Event(c.businessId, c.employeeUserId, c.category.value, c.fromAt, NOWHERE)
  }

  predicate IsEarliest(zones: Zones, c: Correction, rows: seq<Event>, i: int) {
    && 0 <= i < |rows|
    && InWindowOf(zones, c, rows[i])
    && forall j :: 0 <= j < |rows| && InWindowOf(zones, c, rows[j]) ==> rows[i].at <= rows[j].at
  }

  predicate NoneInWindow(zones: Zones, c: Correction, rows: seq<Event>) {
    forall j :: 0 <= j < |rows| ==> !InWindowOf(zones, c, rows[j])
  }

  /** One upsert: some earliest row of the window is overwritten, or a row is added if the window is empty. */
  ghost predicate Upserted(zones: Zones, rows: seq<Event>, c: Correction, rows': seq<Event>)
    requires c.category.Some?
  {
    if NoneInWindow(zones, c, rows) then rows' == rows + [Corrected(c)]
    else exists i :: IsEarliest(zones, c, rows, i) && rows' == rows[i := Corrected(c)]
  }

  ghost predicate HaveCategories(cs: seq<Correction>) {
    forall c :: c in cs ==> c.category.Some?
  }

  /** `AttendanceEvent.type` is a not-null column of 20 characters; a category may be null or have up to 120. */
  const TYPE_LENGTH := 20

  /** The category can be stored as the type of an event. */
  predicate Storable(c: Correction) {
    c.category.Some? && (c.category.value.OtherType? ==> |c.category.value.name| <= TYPE_LENGTH)
  }

  /** A whole pass, correction by correction. */
  ghost predicate Synced(zones: Zones, rows: seq<Event>, cs: seq<Correction>, rows': seq<Event>)
    requires HaveCategories(cs)
    decreases |cs|, 0
  {
    if cs == [] then rows' == rows
    else SyncedThen(zones, rows, cs[..|cs| - 1], cs[|cs| - 1], rows')
  }

  ghost predicate SyncedThen(zones: Zones, rows: seq<Event>, cs: seq<Correction>, last: Correction, rows': seq<Event>)
    requires HaveCategories(cs) && last.category.Some?
    decreases |cs|, 1
  {
    exists mid :: Synced(zones, rows, cs, mid) && Upserted(zones, mid, last, rows')
  }

  /** `findOne` by window, then `update` or `create`. */
  method Upsert(table: EventTable, c: Correction, zones: Zones) returns (found: bool)
    requires c.category.Some?
    modifies table
    ensures Upserted(zones, old(table.rows), c, table.rows)
    ensures |table.rows| == |old(table.rows)| + if found then 0 else 1
  {
    var lo := WindowStart(zones, c);
    var existing := table.FindEarliest(c.businessId, c.employeeUserId, c.category.value, lo, lo + TimeZone.DAY_MS);
    found := existing.Some?;
    if found {
      assert IsEarliest(zones, c, table.rows, existing.value);
      table.Update(existing.value, Corrected(c));
    } else {
      assert NoneInWindow(zones, c, table.rows);
      table.Create(Corrected(c));
    }
  }

  /**
   * The script. No row has a category that its column cannot store as type, so the script inserts one for it, which
   * the database refuses and which ends the run; `done` tells how many corrections took effect.
   */
  method Sync(table: EventTable, cs: seq<Correction>, zones: Zones) returns (updated: nat, created: nat, done: nat)
    modifies table
    ensures done <= |cs| && HaveCategories(cs[..done]) && forall c :: c in cs[..done] ==> Storable(c)
    ensures done < |cs| ==> !Storable(cs[done])
    ensures Synced(zones, old(table.rows), cs[..done], table.rows)
    ensures updated + created == done
    ensures |table.rows| == |old(table.rows)| + created
  {
    hide Upserted;
    updated, created, done := 0, 0, 0;
    while done < |cs|
      invariant done <= |cs| && HaveCategories(cs[..done]) && forall c :: c in cs[..done] ==> Storable(c)
      invariant Synced(zones, old(table.rows), cs[..done], table.rows)
      invariant updated + created == done
      invariant |table.rows| == |old(table.rows)| + created
    {
      if !Storable(cs[done]) { return; }
      ghost var before := table.rows;
      var found := Upsert(table, cs[done], zones);
      if found { updated := updated + 1; } else { created := created + 1; }
      assert cs[..done + 1][..done] == cs[..done];
      assert SyncedThen(zones, old(table.rows), cs[..done], cs[done], table.rows);
      done := done + 1;
    }
    assert cs[..|cs|] == cs;
  }

  // ---------------------------------------------------------------- an upsert in plain terms

  /** The rows of the correction's employee, business and category in the day from `lo` on. */
  predicate IsRival(c: Correction, e: Event, lo: int) {
    && e.businessId == c.businessId && e.employeeId == c.employeeUserId && c.category == Some(e.eventType)
    && lo <= e.at < lo + 86_400_000
  }

  /**
   * Some earliest rival of the day now is the corrected event, in the middle of nowhere and within the radius, and
   * every other row stays; without a rival it is a new row.
   */
  lemma UpsertMeans(zones: Zones, rows: seq<Event>, c: Correction, rows': seq<Event>)
    requires c.category.Some? && Upserted(zones, rows, c, rows')
    ensures var made := Event(c.businessId, c.employeeUserId, c.category.value, c.fromAt, Place(0.0, 0.0, 0.0, true));
            var lo := WindowStart(zones, c);
            if exists e :: e in rows && IsRival(c, e, lo) then
              exists i :: 0 <= i < |rows| && IsRival(c, rows[i], lo) && rows' == rows[i := made]
                          && forall e :: e in rows && IsRival(c, e, lo) ==> rows[i].at <= e.at
            else rows' == rows + [made]
  {
    var lo := WindowStart(zones, c);
    hide WindowStart;
    assert forall e :: InWindowOf(zones, c, e) <==> IsRival(c, e, lo);
    if NoneInWindow(zones, c, rows) {
      assert forall e :: e in rows ==> !IsRival(c, e, lo);
    } else {
      var i :| IsEarliest(zones, c, rows, i) && rows' == rows[i := Corrected(c)];
      assert IsRival(c, rows[i], lo) && rows[i] in rows;
    }
  }

  /** The day begins at the wall's midnight: in a zone with a fixed offset, and in UTC without settings. */
  lemma WindowStartIs(zones: Zones, c: Correction, offset: int)
    requires c.businessId !in zones ==> offset == 0
    requires c.businessId in zones ==> forall t :: zones[c.businessId](t) == offset
    ensures var lo := WindowStart(zones, c);
            lo <= c.fromAt < lo + 86_400_000 && (lo + offset) % 86_400_000 == 0
  {
    var day := (c.fromAt + offset) / 86_400_000;
    assert WindowStart(zones, c) == day * 86_400_000 - offset;
  }

  /** Null and names of more than twenty characters cannot be stored. */
  lemma StorableIs(c: Correction)
    ensures c.category == None ==> !Storable(c)
    ensures forall name :: c.category == Some(OtherType(name)) ==> (Storable(c) <==> |name| <= 20)
    ensures c.category in {Some(CheckIn), Some(LunchOut), Some(LunchIn), Some(CheckOut)} ==> Storable(c)
  {
  }

  // ---------------------------------------------------------------- when windows and dates agree

  predicate SameKey(zones: Zones, a: Correction, b: Correction) {
    && a.businessId == b.businessId && a.employeeUserId == b.employeeUserId && a.category == b.category
    && WindowStart(zones, a) == WindowStart(zones, b)
  }

  /** No event lies in the windows of both. */
  predicate Apart(zones: Zones, a: Correction, b: Correction) {
    || a.businessId != b.businessId || a.employeeUserId != b.employeeUserId || a.category != b.category
    || WindowStart(zones, a) + TimeZone.DAY_MS <= WindowStart(zones, b)
    || WindowStart(zones, b) + TimeZone.DAY_MS <= WindowStart(zones, a)
  }

  predicate InOwnWindow(zones: Zones, c: Correction) {
    WindowStart(zones, c) <= c.fromAt < WindowStart(zones, c) + TimeZone.DAY_MS
  }

  /** Each corrected time lies in its own window, and windows are equal or disjoint. */
  ghost predicate WellPlaced(zones: Zones, cs: seq<Correction>) {
    && HaveCategories(cs)
    && (forall c :: c in cs ==> InOwnWindow(zones, c))
    && (forall a, b :: a in cs && b in cs ==> SameKey(zones, a, b) || Apart(zones, a, b))
  }

  /**
   * Where the windows of the corrected times' dates are these dates, corrections are well placed and share a window
   * when they share a date.
   */
  lemma RegularZonesPlaceWell(zones: Zones, cs: seq<Correction>)
    requires HaveCategories(cs)
    requires forall c :: c in cs ==>
               var z := ZoneFor(zones, c.businessId); TimeZone.RegularOn(z, TimeZone.LocalDay(z, c.fromAt))
    ensures WellPlaced(zones, cs)
    ensures forall a, b :: a in cs && b in cs ==>
              (SameKey(zones, a, b) <==>
                && a.businessId == b.businessId && a.employeeUserId == b.employeeUserId && a.category == b.category
                && var z := ZoneFor(zones, a.businessId);
                   TimeZone.LocalDay(z, a.fromAt) == TimeZone.LocalDay(z, b.fromAt))
  {
    forall c | c in cs
      ensures InOwnWindow(zones, c)
    {
      var z := ZoneFor(zones, c.businessId);
      assert TimeZone.InDay(z, TimeZone.LocalDay(z, c.fromAt), c.fromAt);
    }
    forall a, b | a in cs && b in cs && a.businessId == b.businessId
      ensures var z := ZoneFor(zones, a.businessId);
              if TimeZone.LocalDay(z, a.fromAt) == TimeZone.LocalDay(z, b.fromAt)
              then WindowStart(zones, a) == WindowStart(zones, b)
              else WindowStart(zones, a) + TimeZone.DAY_MS <= WindowStart(zones, b)
                   || WindowStart(zones, b) + TimeZone.DAY_MS <= WindowStart(zones, a)
    {
      var z := ZoneFor(zones, a.businessId);
      var s, t := WindowStart(zones, a), WindowStart(zones, b);
      var later := if s <= t then t else s;
      assert TimeZone.InDay(z, TimeZone.LocalDay(z, a.fromAt), later)
         <==> TimeZone.LocalDay(z, later) == TimeZone.LocalDay(z, a.fromAt);
      assert TimeZone.InDay(z, TimeZone.LocalDay(z, b.fromAt), later)
         <==> TimeZone.LocalDay(z, later) == TimeZone.LocalDay(z, b.fromAt);
    }
  }
}
