/** What whole passes of the correction sync guarantee: counts per day, the last correction wins, repetition, order. */
module CorrectionSyncLaws {
  import opened Common
  import opened AttendanceEvents
  import opened CorrectionSync
  import TimeZone

  // ---------------------------------------------------------------- counting the rows of a window

  function CountIn(zones: Zones, c: Correction, rows: seq<Event>): nat {
    if rows == [] then 0
    else CountIn(zones, c, rows[..|rows| - 1]) + if InWindowOf(zones, c, rows[|rows| - 1]) then 1 else 0
  }

  lemma CountAppend(zones: Zones, c: Correction, rows: seq<Event>, e: Event)
    ensures CountIn(zones, c, rows + [e]) == CountIn(zones, c, rows) + if InWindowOf(zones, c, e) then 1 else 0
  {
    assert (rows + [e])[..|rows|] == rows;
  }

  lemma {:induction false} CountUpdate(zones: Zones, c: Correction, rows: seq<Event>, i: nat, e: Event)
    requires i < |rows|
    ensures CountIn(zones, c, rows[i := e]) + (if InWindowOf(zones, c, rows[i]) then 1 else 0)
         == CountIn(zones, c, rows) + if InWindowOf(zones, c, e) then 1 else 0
  {
    var n := |rows| - 1;
    if i == n {
      assert rows[i := e][..n] == rows[..n];
    } else {
      CountUpdate(zones, c, rows[..n], i, e);
      assert rows[i := e][..n] == rows[..n][i := e];
    }
  }

  lemma {:induction false} CountZero(zones: Zones, c: Correction, rows: seq<Event>)
    ensures CountIn(zones, c, rows) == 0 <==> NoneInWindow(zones, c, rows)
  {
    hide InWindowOf;
    if rows == [] {
    } else {
      var n := |rows| - 1;
      CountZero(zones, c, rows[..n]);
      assert rows == rows[..n] + [rows[n]];
      if !NoneInWindow(zones, c, rows[..n]) {
        var j :| 0 <= j < n && InWindowOf(zones, c, rows[..n][j]);
        assert InWindowOf(zones, c, rows[j]);
      }
    }
  }

  /** Two rows in a window count for two. */
  lemma {:induction false} CountTwo(zones: Zones, c: Correction, rows: seq<Event>, i: int, j: int)
    requires 0 <= i < j < |rows| && InWindowOf(zones, c, rows[i]) && InWindowOf(zones, c, rows[j])
    ensures 2 <= CountIn(zones, c, rows)
  {
    var n := |rows| - 1;
    if j == n {
      assert InWindowOf(zones, c, rows[..n][i]);
      CountZero(zones, c, rows[..n]);
    } else {
      CountTwo(zones, c, rows[..n], i, j);
    }
  }

  // ---------------------------------------------------------------- one upsert

  /** Corrections with equal keys have equal windows; those of different keys share no event. */
  lemma WindowsAgree(zones: Zones, a: Correction, b: Correction, e: Event)
    requires a.category.Some? && b.category.Some?
    ensures SameKey(zones, a, b) ==> InWindowOf(zones, a, e) == InWindowOf(zones, b, e)
    ensures Apart(zones, a, b) ==> !(InWindowOf(zones, a, e) && InWindowOf(zones, b, e))
  {
  }

  lemma CorrectedIsIn(zones: Zones, c: Correction)
    requires c.category.Some? && InOwnWindow(zones, c)
    ensures InWindowOf(zones, c, Corrected(c))
  {
  }

  /** An upsert leaves every other window's rows where they are and keeps or starts its own window's count. */
  lemma UpsertCount(zones: Zones, rows: seq<Event>, c: Correction, rows': seq<Event>, d: Correction)
    requires c.category.Some? && d.category.Some? && InOwnWindow(zones, c)
    requires Upserted(zones, rows, c, rows')
    requires SameKey(zones, c, d) || Apart(zones, c, d)
    ensures CountIn(zones, d, rows') ==
              if SameKey(zones, c, d) && CountIn(zones, d, rows) == 0 then 1 else CountIn(zones, d, rows)
  {
    hide InWindowOf, InOwnWindow, SameKey, Apart, CountIn;
    CorrectedIsIn(zones, c);
    WindowsAgree(zones, c, d, Corrected(c));
    CountZero(zones, c, rows);
    CountZero(zones, d, rows);
    if NoneInWindow(zones, c, rows) {
      CountAppend(zones, d, rows, Corrected(c));
      if SameKey(zones, c, d) {
        forall j | 0 <= j < |rows|
          ensures !InWindowOf(zones, d, rows[j])
        {
          WindowsAgree(zones, c, d, rows[j]);
        }
      }
    } else {
      var i :| IsEarliest(zones, c, rows, i) && rows' == rows[i := Corrected(c)];
      CountUpdate(zones, d, rows, i, Corrected(c));
      WindowsAgree(zones, c, d, rows[i]);
    }
  }

  predicate Corrects(zones: Zones, cs: seq<Correction>, d: Correction) {
    exists c :: c in cs && SameKey(zones, c, d)
  }

  /** A pass leaves max(1, before) rows in a corrected window and as many as before in any other. */
  lemma {:induction false} PassCount(zones: Zones, rows: seq<Event>, cs: seq<Correction>, rows': seq<Event>,
                                     d: Correction)
    requires WellPlaced(zones, cs + [d]) && HaveCategories(cs)
    requires Synced(zones, rows, cs, rows')
    ensures CountIn(zones, d, rows') ==
              if Corrects(zones, cs, d) && CountIn(zones, d, rows) == 0 then 1 else CountIn(zones, d, rows)
    decreases |cs|
  {
    if cs == [] {
    } else {
      var n := |cs| - 1;
      assert cs == cs[..n] + [cs[n]];
      assert SyncedThen(zones, rows, cs[..n], cs[n], rows');
      var mid :| Synced(zones, rows, cs[..n], mid) && Upserted(zones, mid, cs[n], rows');
      assert cs[n] in cs + [d] && d in cs + [d];
      forall c | c in cs[..n] + [d]
        ensures c in cs + [d]
      {
      }
      PassCount(zones, rows, cs[..n], mid, d);
      UpsertCount(zones, mid, cs[n], rows', d);
      assert Corrects(zones, cs, d) <==> Corrects(zones, cs[..n], d) || SameKey(zones, cs[n], d);
    }
  }

  /** The event that the last correction of an event's window writes; an event in no corrected window stays. */
  function Latest(zones: Zones, cs: seq<Correction>, e: Event): (r: Event)
    requires HaveCategories(cs)
  {
    if cs == [] then e
    else
      var last := cs[|cs| - 1];
      if InWindowOf(zones, last, e) then Corrected(last) else Latest(zones, cs[..|cs| - 1], e)
  }

  lemma {:induction false} LatestStaysInWindow(zones: Zones, cs: seq<Correction>, e: Event, d: Correction)
    requires WellPlaced(zones, cs + [d]) && HaveCategories(cs)
    ensures InWindowOf(zones, d, Latest(zones, cs, e)) == InWindowOf(zones, d, e)
    decreases |cs|
  {
    if cs == [] {
    } else {
      var n := |cs| - 1;
      assert cs[n] in cs + [d] && d in cs + [d];
      if InWindowOf(zones, cs[n], e) {
        WindowsAgree(zones, cs[n], d, e);
        WindowsAgree(zones, cs[n], d, Corrected(cs[n]));
      } else {
        assert cs == cs[..n] + [cs[n]];
        forall c | c in cs[..n] + [d]
          ensures c in cs + [d]
        {
        }
        LatestStaysInWindow(zones, cs[..n], e, d);
      }
    }
  }

  lemma CorrectedIsWritten(zones: Zones, rows: seq<Event>, c: Correction, out: seq<Event>)
    requires c.category.Some? && Upserted(zones, rows, c, out)
    ensures Corrected(c) in out
  {
    hide InWindowOf;
    if !NoneInWindow(zones, c, rows) {
      var i :| IsEarliest(zones, c, rows, i) && out == rows[i := Corrected(c)];
      assert out[i] == Corrected(c);
    }
  }

  lemma UpsertStays(zones: Zones, rows: seq<Event>, c: Correction, out: seq<Event>, j: nat)
    requires c.category.Some? && Upserted(zones, rows, c, out)
    requires j < |rows| && !InWindowOf(zones, c, rows[j])
    ensures j < |out| && out[j] == rows[j]
  {
    hide InWindowOf;
  }

  /** The window of a corrected key holds the event of the key's last correction. */
  lemma {:induction false} LastCorrectionWins(zones: Zones, rows: seq<Event>, cs: seq<Correction>, rows': seq<Event>,
                                              d: Correction)
    requires WellPlaced(zones, cs) && d in cs
    requires Synced(zones, rows, cs, rows')
    ensures Latest(zones, cs, Corrected(d)) in rows'
    decreases |cs|
  {
    hide Apart, SameKey, InOwnWindow, InWindowOf, Upserted;
    var n := |cs| - 1;
    assert cs == cs[..n] + [cs[n]];
    assert SyncedThen(zones, rows, cs[..n], cs[n], rows');
    var mid :| Synced(zones, rows, cs[..n], mid) && Upserted(zones, mid, cs[n], rows');
    CorrectedIsIn(zones, d);
    WindowsAgree(zones, cs[n], d, Corrected(d));
    if SameKey(zones, cs[n], d) {
      CorrectedIsWritten(zones, mid, cs[n], rows');
    } else {
      assert d in cs[..n];
      LastCorrectionWins(zones, rows, cs[..n], mid, d);
      var e := Latest(zones, cs[..n], Corrected(d));
      var j :| 0 <= j < |mid| && mid[j] == e;
      LatestStaysInWindow(zones, cs[..n], Corrected(d), cs[n]);
      UpsertStays(zones, mid, cs[n], rows', j);
    }
  }

  /** That event is the one of the last correction with this key, at its corrected time. */
  lemma {:induction false} LatestIsLastOfKey(zones: Zones, cs: seq<Correction>, d: Correction) returns (i: nat)
    requires WellPlaced(zones, cs) && d in cs
    ensures i < |cs| && SameKey(zones, cs[i], d) && forall j :: i < j < |cs| ==> !SameKey(zones, cs[j], d)
    ensures Latest(zones, cs, Corrected(d)) == Corrected(cs[i])
    ensures Latest(zones, cs, Corrected(d)).at == cs[i].fromAt
    decreases |cs|
  {
    var n := |cs| - 1;
    WindowsAgree(zones, cs[n], d, Corrected(d));
    if SameKey(zones, cs[n], d) {
      i := n;
    } else {
      assert cs == cs[..n] + [cs[n]] && d in cs[..n];
      i := LatestIsLastOfKey(zones, cs[..n], d);
      assert forall j :: i < j < n ==> cs[..n][j] == cs[j];
    }
  }

  /** Rows in no corrected window keep their place; added rows come after them. */
  lemma {:induction false} OtherRowsUntouched(zones: Zones, rows: seq<Event>, cs: seq<Correction>, rows': seq<Event>,
                                              j: nat)
    requires HaveCategories(cs) && Synced(zones, rows, cs, rows')
    requires j < |rows| && forall c :: c in cs ==> !InWindowOf(zones, c, rows[j])
    ensures j < |rows'| && rows'[j] == rows[j]
    decreases |cs|
  {
    if cs == [] {
    } else {
      var n := |cs| - 1;
      assert SyncedThen(zones, rows, cs[..n], cs[n], rows');
      var mid :| Synced(zones, rows, cs[..n], mid) && Upserted(zones, mid, cs[n], rows');
      OtherRowsUntouched(zones, rows, cs[..n], mid, j);
    }
  }

  // ---------------------------------------------------------------- running it again

  /** An upsert into a window with one row overwrites it. */
  lemma OnlyRowOverwritten(zones: Zones, c: Correction, rows: seq<Event>, mid: seq<Event>, out: seq<Event>)
    requires c.category.Some? && |mid| == |rows| && CountIn(zones, c, rows) == 1
    requires forall j :: 0 <= j < |rows| ==> InWindowOf(zones, c, mid[j]) == InWindowOf(zones, c, rows[j])
    requires Upserted(zones, mid, c, out)
    ensures |out| == |rows|
    ensures forall j :: 0 <= j < |rows| ==> out[j] == if InWindowOf(zones, c, rows[j]) then Corrected(c) else mid[j]
  {
    hide InWindowOf, CountIn;
    CountZero(zones, c, rows);
    var k :| 0 <= k < |rows| && InWindowOf(zones, c, rows[k]);
    assert InWindowOf(zones, c, mid[k]);
    var i :| IsEarliest(zones, c, mid, i) && out == mid[i := Corrected(c)];
    forall j | 0 <= j < |rows|
      ensures InWindowOf(zones, c, rows[j]) <==> j == i
    {
      if j != i && InWindowOf(zones, c, rows[j]) {
        CountTwo(zones, c, rows, if i < j then i else j, if i < j then j else i);
      }
    }
  }

  /** With one row in every corrected window a pass rewrites these rows in place. */
  lemma {:induction false} PassInPlace(zones: Zones, rows: seq<Event>, cs: seq<Correction>, rows': seq<Event>)
    requires WellPlaced(zones, cs)
    requires forall c :: c in cs ==> CountIn(zones, c, rows) == 1
    requires Synced(zones, rows, cs, rows')
    ensures |rows'| == |rows|
    ensures forall j :: 0 <= j < |rows| ==> rows'[j] == Latest(zones, cs, rows[j])
    decreases |cs|
  {
    hide InWindowOf, InOwnWindow, SameKey, Apart, CountIn, Upserted;
    if cs == [] {
    } else {
      var n := |cs| - 1;
      var last := cs[n];
      assert SyncedThen(zones, rows, cs[..n], last, rows');
      var mid :| Synced(zones, rows, cs[..n], mid) && Upserted(zones, mid, last, rows');
      PassInPlace(zones, rows, cs[..n], mid);
      assert cs == cs[..n] + [last];
      forall j | 0 <= j < |rows|
        ensures InWindowOf(zones, last, mid[j]) == InWindowOf(zones, last, rows[j])
      {
        LatestStaysInWindow(zones, cs[..n], rows[j], last);
      }
      OnlyRowOverwritten(zones, last, rows, mid, rows');
    }
  }

  /** Applying the last correction again gives the same event. */
  lemma {:induction false} LatestTwice(zones: Zones, cs: seq<Correction>, e: Event)
    requires WellPlaced(zones, cs)
    ensures Latest(zones, cs, Latest(zones, cs, e)) == Latest(zones, cs, e)
    decreases |cs|
  {
    if cs == [] {
    } else {
      var n := |cs| - 1;
      assert cs == cs[..n] + [cs[n]];
      assert cs[n] in cs;
      assert InWindowOf(zones, cs[n], Corrected(cs[n]));
      if !InWindowOf(zones, cs[n], e) {
        LatestStaysInWindow(zones, cs[..n], e, cs[n]);
        LatestTwice(zones, cs[..n], e);
      }
    }
  }

  /** The last correction of a window does not depend on which of its events one starts from. */
  lemma {:induction false} LatestOfWindow(zones: Zones, cs: seq<Correction>, d: Correction, a: Event, b: Event)
    requires WellPlaced(zones, cs) && d in cs
    requires InWindowOf(zones, d, a) && InWindowOf(zones, d, b)
    ensures Latest(zones, cs, a) == Latest(zones, cs, b)
    decreases |cs|
  {
    var n := |cs| - 1;
    assert cs == cs[..n] + [cs[n]];
    WindowsAgree(zones, cs[n], d, a);
    WindowsAgree(zones, cs[n], d, b);
    if !SameKey(zones, cs[n], d) {
      LatestOfWindow(zones, cs[..n], d, a, b);
    }
  }

  /** If each corrected window starts with at most one row, a second pass changes no row at all. */
  lemma SyncIsIdempotent(zones: Zones, rows: seq<Event>, cs: seq<Correction>, once: seq<Event>, twice: seq<Event>)
    requires WellPlaced(zones, cs)
    requires forall c :: c in cs ==> CountIn(zones, c, rows) <= 1
    requires Synced(zones, rows, cs, once) && Synced(zones, once, cs, twice)
    ensures twice == once
  {
    forall c | c in cs
      ensures CountIn(zones, c, once) == 1
    {
      assert SameKey(zones, c, c);
      assert forall x :: x in cs + [c] ==> x in cs;
      PassCount(zones, rows, cs, once, c);
    }
    PassInPlace(zones, once, cs, twice);
    forall j | 0 <= j < |once|
      ensures Latest(zones, cs, once[j]) == once[j]
    {
      if exists c :: c in cs && InWindowOf(zones, c, once[j]) {
        var c :| c in cs && InWindowOf(zones, c, once[j]);
        OnlyRowIsLatest(zones, rows, cs, once, c, j);
      } else {
        LatestOutside(zones, cs, once[j]);
      }
    }
  }

  lemma {:induction false} LatestOutside(zones: Zones, cs: seq<Correction>, e: Event)
    requires HaveCategories(cs) && forall c :: c in cs ==> !InWindowOf(zones, c, e)
    ensures Latest(zones, cs, e) == e
    decreases |cs|
  {
    if cs == [] {
    } else {
      LatestOutside(zones, cs[..|cs| - 1], e);
    }
  }

  /** The only row of a corrected window is the one its last correction wrote. */
  lemma OnlyRowIsLatest(zones: Zones, rows: seq<Event>, cs: seq<Correction>, once: seq<Event>, c: Correction, j: nat)
    requires WellPlaced(zones, cs) && c in cs && Synced(zones, rows, cs, once)
    requires CountIn(zones, c, once) == 1
    requires j < |once| && InWindowOf(zones, c, once[j])
    ensures Latest(zones, cs, once[j]) == once[j]
  {
    var e := Latest(zones, cs, Corrected(c));
    LastCorrectionWins(zones, rows, cs, once, c);
    assert forall x :: x in cs + [c] ==> x in cs;
    LatestStaysInWindow(zones, cs, Corrected(c), c);
    var i :| 0 <= i < |once| && once[i] == e;
    if i != j {
      CountTwo(zones, c, once, if i < j then i else j, if i < j then j else i);
    }
    LatestTwice(zones, cs, Corrected(c));
  }

  // ---------------------------------------------------------------- one correction, any zone

  /** Some earliest row exists in a window that is not empty. */
  lemma {:induction false} EarliestExists(zones: Zones, c: Correction, rows: seq<Event>) returns (i: nat)
    requires !NoneInWindow(zones, c, rows)
    ensures IsEarliest(zones, c, rows, i)
  {
    var n := |rows| - 1;
    if NoneInWindow(zones, c, rows[..n]) {
      assert forall j :: 0 <= j < n ==> !InWindowOf(zones, c, rows[..n][j]);
      i := n;
    } else {
      i := EarliestExists(zones, c, rows[..n]);
      assert forall j :: 0 <= j < n ==> rows[..n][j] == rows[j];
      if InWindowOf(zones, c, rows[n]) && rows[n].at < rows[i].at { i := n; }
    }
  }

  /** Besides the row about to be overwritten, the window holds only later rows and copies of the corrected one. */
  predicate RivalsAreLater(zones: Zones, c: Correction, rows: seq<Event>)
    requires c.category.Some?
  {
    forall i, j :: 0 <= i < |rows| && 0 <= j < |rows| && i != j
                && IsEarliest(zones, c, rows, i) && InWindowOf(zones, c, rows[j])
                ==> c.fromAt < rows[j].at || rows[j] == Corrected(c)
  }

  ghost predicate RepeatsItself(zones: Zones, c: Correction, rows: seq<Event>)
    requires c.category.Some?
  {
    forall once, twice :: Upserted(zones, rows, c, once) && Upserted(zones, once, c, twice) ==> twice == once
  }

  /**
   * Syncing one correction twice is syncing it once, whatever the order of ties, exactly when its time lies in its own
   * window and no other row of the window is as early.
   */
  lemma OneCorrectionTwice(zones: Zones, c: Correction, rows: seq<Event>)
    requires c.category.Some?
    ensures RepeatsItself(zones, c, rows) <==> InOwnWindow(zones, c) && RivalsAreLater(zones, c, rows)
  {
    if InOwnWindow(zones, c) {
      if RivalsAreLater(zones, c, rows) {
        forall once, twice | Upserted(zones, rows, c, once) && Upserted(zones, once, c, twice)
          ensures twice == once
        {
          LaterRivalsStay(zones, c, rows, once, twice);
        }
      } else {
        EarlyRivalIsLost(zones, c, rows);
      }
    } else {
      OutsideItsWindow(zones, c, rows);
    }
  }

  lemma LaterRivalsStay(zones: Zones, c: Correction, rows: seq<Event>, once: seq<Event>, twice: seq<Event>)
    requires c.category.Some? && InOwnWindow(zones, c) && RivalsAreLater(zones, c, rows)
    requires Upserted(zones, rows, c, once) && Upserted(zones, once, c, twice)
    ensures twice == once
  {
    var i: int;
    if NoneInWindow(zones, c, rows) {
      i := |rows|;
    } else {
      i :| IsEarliest(zones, c, rows, i) && once == rows[i := Corrected(c)];
    }
    assert once[i] == Corrected(c) && InWindowOf(zones, c, once[i]);
    var k :| IsEarliest(zones, c, once, k) && twice == once[k := Corrected(c)];
    if k != i {
      assert once[k] == rows[k] && InWindowOf(zones, c, rows[k]);
      assert c.fromAt < rows[k].at || rows[k] == Corrected(c);
    }
  }

  /** The one lost is overwritten by a second upsert, unless a row before it is. */
  lemma EarlyRivalIsPicked(zones: Zones, c: Correction, once: seq<Event>, i: int, j: int) returns (k: int)
    requires c.category.Some? && 0 <= i < |once| && 0 <= j < |once| && i != j && once[i] == Corrected(c)
    requires InWindowOf(zones, c, once[j]) && once[j].at <= c.fromAt && once[j] != Corrected(c)
    ensures IsEarliest(zones, c, once, k) && once[k] != Corrected(c)
  {
    hide InWindowOf;
    k := EarliestExists(zones, c, once);
    if once[k].at == once[j].at { k := j; }
  }

  lemma EarlyRivalIsLost(zones: Zones, c: Correction, rows: seq<Event>)
    requires c.category.Some? && InOwnWindow(zones, c) && !RivalsAreLater(zones, c, rows)
    ensures !RepeatsItself(zones, c, rows)
  {
    var i, j :| 0 <= i < |rows| && 0 <= j < |rows| && i != j
             && IsEarliest(zones, c, rows, i) && InWindowOf(zones, c, rows[j])
             && !(c.fromAt < rows[j].at || rows[j] == Corrected(c));
    CorrectedIsIn(zones, c);
    hide InWindowOf, InOwnWindow;
    var once := rows[i := Corrected(c)];
    assert once[i] == Corrected(c) && once[j] == rows[j];
    var k := EarlyRivalIsPicked(zones, c, once, i, j);
    var twice := once[k := Corrected(c)];
    assert once[k] != twice[k];
    assert Upserted(zones, rows, c, once) && Upserted(zones, once, c, twice);
  }

  /** A time outside its own window is never found again, so every pass moves or adds a row. */
  lemma OutsideItsWindow(zones: Zones, c: Correction, rows: seq<Event>)
    requires c.category.Some? && !InOwnWindow(zones, c)
    ensures !RepeatsItself(zones, c, rows)
  {
    var once, twice := rows + [Corrected(c)], rows + [Corrected(c)];
    if !NoneInWindow(zones, c, rows) {
      var i := EarliestExists(zones, c, rows);
      once := rows[i := Corrected(c)];
    }
    assert Upserted(zones, rows, c, once);
    if NoneInWindow(zones, c, once) {
      twice := once + [Corrected(c)];
    } else {
      var k := EarliestExists(zones, c, once);
      twice := once[k := Corrected(c)];
      assert twice[k] != once[k];
    }
    assert Upserted(zones, once, c, twice) && twice != once;
  }

  /** Two check-ins of one day and a later correction: the second pass overwrites the other check-in. */
  lemma TwoEventsAreNotSafe(zones: Zones, c: Correction, first: Event, second: Event)
    requires c.category.Some? && InOwnWindow(zones, c)
    requires InWindowOf(zones, c, first) && InWindowOf(zones, c, second)
    requires first.at < second.at < c.fromAt
    ensures !RepeatsItself(zones, c, [first, second])
  {
    var rows := [first, second];
    assert IsEarliest(zones, c, rows, 0) && InWindowOf(zones, c, rows[1]);
    OneCorrectionTwice(zones, c, rows);
  }

  /** On a day the clock falls back, a correction in the last hour on the wall is never settled. */
  lemma LongDayIsNeverSettled(rows: seq<Event>, businessId: Id, employeeId: Id)
    ensures var zones: Zones := map[businessId := TimeZone.FallsBackAt(60 * TimeZone.MINUTE_MS)];
            var c := Correction(businessId, employeeId, Some(CheckOut), (23 * 60 + 30) * TimeZone.MINUTE_MS);
            !RepeatsItself(zones, c, rows)
  {
    var zones: Zones := map[businessId := TimeZone.FallsBackAt(60 * TimeZone.MINUTE_MS)];
    var c := Correction(businessId, employeeId, Some(CheckOut), (23 * 60 + 30) * TimeZone.MINUTE_MS);
    TimeZone.LastHourOfALongDay();
    OneCorrectionTwice(zones, c, rows);
  }

  // ---------------------------------------------------------------- order

  /** An upsert of one key does not change which rows an apart key would pick. */
  lemma ApartChoice(zones: Zones, a: Correction, b: Correction, rows: seq<Event>, mid: seq<Event>)
    requires a.category.Some? && b.category.Some? && Apart(zones, a, b) && InOwnWindow(zones, a)
    requires Upserted(zones, rows, a, mid)
    ensures NoneInWindow(zones, b, mid) <==> NoneInWindow(zones, b, rows)
    ensures forall k :: IsEarliest(zones, b, mid, k) <==> IsEarliest(zones, b, rows, k)
  {
    WindowsAgree(zones, a, b, Corrected(a));
    forall j | 0 <= j < |rows|
      ensures InWindowOf(zones, b, mid[j]) == InWindowOf(zones, b, rows[j])
      ensures InWindowOf(zones, b, rows[j]) ==> mid[j] == rows[j]
    {
      WindowsAgree(zones, a, b, rows[j]);
    }
    assert forall j :: |rows| <= j < |mid| ==> !InWindowOf(zones, b, mid[j]);
  }

  function Write(rows: seq<Event>, at: Option<nat>, e: Event): seq<Event>
    requires at.Some? ==> at.value < |rows|
  {
    if at.None? then rows + [e] else rows[at.value := e]
  }

  /** Writes to different places, or additions, in either order. */
  lemma WritesCommute(rows: seq<Event>, i: Option<nat>, x: Event, k: Option<nat>, y: Event)
    requires i.Some? ==> i.value < |rows|
    requires k.Some? ==> k.value < |rows|
    requires i.Some? ==> i != k
    ensures multiset(Write(Write(rows, i, x), k, y)) == multiset(Write(Write(rows, k, y), i, x))
  {
    if i.None? && k.None? {
      assert rows + [x] + [y] == rows + ([x] + [y]) && rows + [y] + [x] == rows + ([y] + [x]);
    } else if i.None? {
      assert (rows + [x])[k.value := y] == rows[k.value := y] + [x];
    } else if k.None? {
      assert rows[i.value := x] + [y] == (rows + [y])[i.value := x];
    } else {
      assert rows[i.value := x][k.value := y] == rows[k.value := y][i.value := x];
    }
  }

  /** An upsert is a write at a place it picks. */
  lemma UpsertWrites(zones: Zones, rows: seq<Event>, c: Correction, rows': seq<Event>) returns (at: Option<nat>)
    requires c.category.Some? && Upserted(zones, rows, c, rows')
    ensures Picks(zones, rows, c, at) && rows' == Write(rows, at, Corrected(c))
  {
    hide InWindowOf, NoneInWindow;
    if NoneInWindow(zones, c, rows) {
      at := None;
    } else {
      var i :| IsEarliest(zones, c, rows, i) && rows' == rows[i := Corrected(c)];
      at := Some(i);
    }
  }

  ghost predicate Picks(zones: Zones, rows: seq<Event>, c: Correction, at: Option<nat>) {
    if at.None? then NoneInWindow(zones, c, rows)
    else !NoneInWindow(zones, c, rows) && IsEarliest(zones, c, rows, at.value)
  }

  /** Different keys pick different places. */
  lemma ApartPicks(zones: Zones, a: Correction, b: Correction, rows: seq<Event>, i: Option<nat>, k: Option<nat>)
    requires a.category.Some? && b.category.Some? && Apart(zones, a, b)
    requires Picks(zones, rows, a, i) && Picks(zones, rows, b, k)
    ensures i.Some? ==> i != k
  {
    if i.Some? { WindowsAgree(zones, a, b, rows[i.value]); }
  }

  /** Upserts of different keys commute, up to the order of added rows. */
  lemma DifferentKeysCommute(zones: Zones, a: Correction, b: Correction, rows: seq<Event>, mid: seq<Event>,
                             end: seq<Event>)
    returns (mid': seq<Event>, end': seq<Event>)
    requires a.category.Some? && b.category.Some? && Apart(zones, a, b)
    requires InOwnWindow(zones, a) && InOwnWindow(zones, b)
    requires Upserted(zones, rows, a, mid) && Upserted(zones, mid, b, end)
    ensures Upserted(zones, rows, b, mid') && Upserted(zones, mid', a, end')
    ensures multiset(end') == multiset(end)
  {
    hide InWindowOf, InOwnWindow, Apart, NoneInWindow;
    var i := UpsertWrites(zones, rows, a, mid);
    var k := UpsertWrites(zones, mid, b, end);
    ApartChoice(zones, a, b, rows, mid);
    assert Picks(zones, rows, b, k);
    mid' := Write(rows, k, Corrected(b));
    assert Upserted(zones, rows, b, mid');
    ApartIsSymmetric(zones, a, b);
    ApartChoice(zones, b, a, rows, mid');
    end' := Write(mid', i, Corrected(a));
    assert Upserted(zones, mid', a, end');
    ApartPicks(zones, a, b, rows, i, k);
    WritesCommute(rows, i, Corrected(a), k, Corrected(b));
  }

  lemma ApartIsSymmetric(zones: Zones, a: Correction, b: Correction)
    requires Apart(zones, a, b)
    ensures Apart(zones, b, a)
  {
  }
}
