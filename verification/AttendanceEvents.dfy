/** The `attendance_events` table. A row's identity is its position; ids and bookkeeping timestamps are left out. */
module AttendanceEvents {
  import opened Common

  type Id = string

  datatype EventType = CheckIn | LunchOut | LunchIn | CheckOut | OtherType(name: string)

  datatype Place = Place(latitude: real, longitude: real, distanceMeters: real, withinAllowedRadius: bool)

  datatype Event = Event(businessId: Id, employeeId: Id, eventType: EventType, at: int, place: Place)

  /** The place both scripts write into the events they make up. */
  const NOWHERE := Place(0.0, 0.0, 0.0, true)

  predicate IsLunch(t: EventType) {
    t == LunchOut || t == LunchIn
  }

  /** The rows a query or a deletion by business and time range selects. */
  predicate InRange(e: Event, businessId: Id, lo: int, hi: int) {
    e.businessId == businessId && lo <= e.at < hi
  }

  /** The rows of one employee, one type and one time range. */
  predicate InWindow(e: Event, businessId: Id, employeeId: Id, eventType: EventType, lo: int, hi: int) {
    InRange(e, businessId, lo, hi) && e.employeeId == employeeId && e.eventType == eventType
  }

  predicate IsLunchInRange(e: Event, businessId: Id, employeeId: Id, lo: int, hi: int) {
    InRange(e, businessId, lo, hi) && e.employeeId == employeeId && IsLunch(e.eventType)
  }

  class EventTable {
    var rows: seq<Event>

    ghost function Contents(): multiset<Event>
      reads this
    {
      multiset(rows)
    }

    constructor (rows: seq<Event>)
      ensures this.rows == rows
    {
      this.rows := rows;
    }

    /** `findAll` by business and time range, in whatever order. */
    method FindInRange(businessId: Id, lo: int, hi: int) returns (found: seq<Event>)
      ensures forall e :: multiset(found)[e] == if InRange(e, businessId, lo, hi) then Contents()[e] else 0
    {
      var p := e => InRange(e, businessId, lo, hi);
      found := Filter(rows, p);
      forall e
        ensures multiset(found)[e] == if InRange(e, businessId, lo, hi) then Contents()[e] else 0
      {
        FilterMultiplicity(rows, p, e);
      }
    }

    /** `destroy` of one employee's lunch events in a time range. */
    method DestroyLunch(businessId: Id, employeeId: Id, lo: int, hi: int)
      modifies this
      ensures forall e :: Contents()[e]
                       == if IsLunchInRange(e, businessId, employeeId, lo, hi) then 0 else old(Contents())[e]
    {
      var p := e => !IsLunchInRange(e, businessId, employeeId, lo, hi);
      ghost var before := rows;
      rows := Filter(rows, p);
      forall e
        ensures Contents()[e] == if IsLunchInRange(e, businessId, employeeId, lo, hi) then 0 else multiset(before)[e]
      {
        FilterMultiplicity(before, p, e);
      }
    }

    method Create(e: Event)
      modifies this
      ensures rows == old(rows) + [e]
      ensures Contents() == old(Contents()) + multiset{e}
    {
      rows := rows + [e];
    }

    /** `findOne` ordered by time: the position of some earliest matching row, if there is one. */
    method FindEarliest(businessId: Id, employeeId: Id, eventType: EventType, lo: int, hi: int)
      returns (position: Option<nat>)
      ensures position.None? ==> forall e :: e in rows ==> !InWindow(e, businessId, employeeId, eventType, lo, hi)
      ensures position.Some? ==>
                && position.value < |rows|
                && InWindow(rows[position.value], businessId, employeeId, eventType, lo, hi)
                && forall e :: e in rows && InWindow(e, businessId, employeeId, eventType, lo, hi)
                              ==> rows[position.value].at <= e.at
    {
      position := None;
      for i := 0 to |rows|
        invariant position.None? ==>
            forall e :: e in rows[..i] ==> !InWindow(e, businessId, employeeId, eventType, lo, hi)
        invariant position.Some? ==>
            && position.value < i
            && InWindow(rows[position.value], businessId, employeeId, eventType, lo, hi)
            && forall e :: e in rows[..i] && InWindow(e, businessId, employeeId, eventType, lo, hi)
                          ==> rows[position.value].at <= e.at
      {
        if InWindow(rows[i], businessId, employeeId, eventType, lo, hi) {
          if position.None? || rows[i].at < rows[position.value].at {
            position := Some(i);
          }
        }
      }
      assert rows[..|rows|] == rows;
    }

    /** `update` of the row at a position. */
    method Update(position: nat, e: Event)
      requires position < |rows|
      modifies this
      ensures rows == old(rows)[position := e]
      ensures Contents() == old(Contents()) - multiset{old(rows)[position]} + multiset{e}
    {
      ghost var before := rows;
      rows := rows[position := e];
      assert before == before[..position] + [before[position]] + before[position + 1..];
      assert rows == before[..position] + [e] + before[position + 1..];
    }
  }
}
