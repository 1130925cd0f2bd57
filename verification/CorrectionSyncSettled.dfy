/** When a whole pass of corrections changes no row, whatever the order of ties: the exact condition. */
module CorrectionSyncSettled {
  import opened Common
  import opened AttendanceEvents
  import opened CorrectionSync
  import opened CorrectionSyncLaws
  import opened CorrectionSyncTwice

  /** The row is later than the correction, or is as late and reads as the last correction of the window. */
  predicate Clear(zones: Zones, cs: seq<Correction>, c: Correction, e: Event)
    requires HaveCategories(cs)
  {
    c.fromAt < e.at || (c.fromAt == e.at && e == Latest(zones, cs, e))
  }

  /** Every earliest row reads as the window's last correction, and the other rows are clear of this correction. */
  ghost predicate Undisturbed(zones: Zones, cs: seq<Correction>, c: Correction, rows: seq<Event>)
    requires HaveCategories(cs)
  {
    && !NoneInWindow(zones, c, rows)
    && (forall q :: IsEarliest(zones, c, rows, q) ==> rows[q] == Latest(zones, cs, rows[q]))
    && (forall q, r :: IsEarliest(zones, c, rows, q) && 0 <= r < |rows| && r != q && InWindowOf(zones, c, rows[r])
                       ==> Clear(zones, cs, c, rows[r]))
  }

  // ---------------------------------------------------------------- corrections of one key

  lemma SameKeySameChoice(zones: Zones, a: Correction, b: Correction, rows: seq<Event>)
    requires a.category.Some? && b.category.Some? && SameKey(zones, a, b)
    ensures forall e :: InWindowOf(zones, a, e) == InWindowOf(zones, b, e)
    ensures forall i :: IsEarliest(zones, a, rows, i) <==> IsEarliest(zones, b, rows, i)
    ensures NoneInWindow(zones, a, rows) <==> NoneInWindow(zones, b, rows)
  {
    forall e: Event
      ensures InWindowOf(zones, a, e) == InWindowOf(zones, b, e)
    {
      WindowsAgree(zones, a, b, e);
    }
    hide InWindowOf, SameKey;
  }

  /** `Latest` is the event itself or a correction of its window. */
  lemma {:induction false} LatestIs(zones: Zones, cs: seq<Correction>, d: Correction, e: Event)
    requires HaveCategories(cs) && (forall c :: c in cs ==> SameKey(zones, c, d) || Apart(zones, c, d))
    requires d.category.Some? && InWindowOf(zones, d, e)
    ensures Latest(zones, cs, e) == e
            || exists c :: c in cs && SameKey(zones, c, d) && Latest(zones, cs, e) == Corrected(c)
    ensures d in cs ==> exists c :: c in cs && SameKey(zones, c, d) && Latest(zones, cs, e) == Corrected(c)
    decreases |cs|
  {
    hide InWindowOf, Apart;
    if cs == [] {
    } else {
      var n := |cs| - 1;
      WindowsAgree(zones, cs[n], d, e);
      if SameKey(zones, cs[n], d) {
        assert cs[n] in cs;
      } else {
        assert cs == cs[..n] + [cs[n]];
        LatestIs(zones, cs[..n], d, e);
      }
    }
  }

  /** How the last correction of the list changes `Latest`. */
  lemma LatestNext(zones: Zones, cs: seq<Correction>, n: nat, d: Correction, e: Event)
    requires HaveCategories(cs) && n < |cs| && d.category.Some? && InWindowOf(zones, d, e)
    requires SameKey(zones, cs[n], d) || Apart(zones, cs[n], d)
    ensures Latest(zones, cs[..n + 1], e) ==
              if SameKey(zones, cs[n], d) then Corrected(cs[n]) else Latest(zones, cs[..n], e)
  {
    WindowsAgree(zones, cs[n], d, e);
    assert cs[..n + 1][..n] == cs[..n];
  }

  lemma SameWindowUpdate(zones: Zones, d: Correction, rows: seq<Event>, out: seq<Event>, i: int, e: Event)
    requires SameWindow(zones, d, rows, out) && 0 <= i < |rows| && InWindowOf(zones, d, e)
    ensures SameWindow(zones, d, rows[i := e], out[i := e])
  {
    hide InWindowOf;
  }

  // ---------------------------------------------------------------- an undisturbed window stays

  /** If another row than the one under way is earliest, the rows read as before the pass. */
  lemma OtherPick(zones: Zones, cs: seq<Correction>, done: seq<Correction>, d: Correction, rows: seq<Event>, q: int,
                  i: int)
    requires WellPlaced(zones, cs) && d in cs && HaveCategories(done) && forall c :: c in done ==> c in cs
    requires forall c :: c in cs ==> Undisturbed(zones, cs, c, rows)
    requires IsEarliest(zones, d, rows, q) && i != q
    requires IsEarliest(zones, d, rows[q := Latest(zones, done, rows[q])], i)
    ensures rows[q := Latest(zones, done, rows[q])] == rows
  {
    hide InWindowOf, Apart, NoneInWindow, InOwnWindow;
    var now := Latest(zones, done, rows[q]);
    LatestIs(zones, done, d, rows[q]);
    if now != rows[q] {
      var c :| c in done && SameKey(zones, c, d) && now == Corrected(c);
      SameKeySameChoice(zones, c, d, rows);
      assert rows[q := now][q] == now && rows[q := now][i] == rows[i];
      NowInWindow(zones, c, d);
      assert Clear(zones, cs, c, rows[i]);
      LatestOfWindow(zones, cs, d, rows[i], rows[q]);
      LatestIs(zones, cs, d, rows[q]);
    }
  }

  lemma NowInWindow(zones: Zones, c: Correction, d: Correction)
    requires c.category.Some? && d.category.Some? && SameKey(zones, c, d) && InOwnWindow(zones, c)
    ensures InWindowOf(zones, d, Corrected(c))
  {
  }

  /** One upsert of the window's own key in an undisturbed window. */
  lemma HeldByOwn(zones: Zones, rows: seq<Event>, cs: seq<Correction>, d: Correction, n: nat, mid: seq<Event>,
                  out: seq<Event>, q: int) returns (p: int)
    requires WellPlaced(zones, cs) && d in cs && n < |cs| && SameKey(zones, cs[n], d)
    requires forall c :: c in cs ==> Undisturbed(zones, cs, c, rows)
    requires IsEarliest(zones, d, rows, q)
    requires SameWindow(zones, d, rows[q := Latest(zones, cs[..n], rows[q])], mid) && Upserted(zones, mid, cs[n], out)
    ensures IsEarliest(zones, d, rows, p)
    ensures SameWindow(zones, d, rows[p := Latest(zones, cs[..n + 1], rows[p])], out)
  {
    hide InWindowOf, Apart, NoneInWindow, InOwnWindow, Undisturbed, SameKey, SameWindow, Latest;
    var last, base := cs[n], rows[q := Latest(zones, cs[..n], rows[q])];
    LatestInWindow(zones, cs, d, n, rows[q]);
    assert base[q] == Latest(zones, cs[..n], rows[q]);
    SameChoice(zones, d, base, mid);
    SameKeySameChoice(zones, last, d, mid);
    assert !NoneInWindow(zones, last, mid) by { SomeInWindow(zones, d, base, q); }
    var i :| IsEarliest(zones, last, mid, i) && out == mid[i := Corrected(last)];
    assert IsEarliest(zones, d, base, i);
    NowInWindow(zones, last, d);
    SameWindowUpdate(zones, d, base, mid, i, Corrected(last));
    if i != q { OtherPick(zones, cs, cs[..n], d, rows, q, i); }
    p := i;
    LatestNext(zones, cs, n, d, rows[p]);
    assert base[i := Corrected(last)] == rows[p := Corrected(last)];
  }

  lemma SomeInWindow(zones: Zones, d: Correction, rows: seq<Event>, i: int)
    requires 0 <= i < |rows| && InWindowOf(zones, d, rows[i])
    ensures !NoneInWindow(zones, d, rows)
  {
  }

  lemma LatestInWindow(zones: Zones, cs: seq<Correction>, d: Correction, n: nat, e: Event)
    requires WellPlaced(zones, cs) && d in cs && n <= |cs| && InWindowOf(zones, d, e)
    ensures InWindowOf(zones, d, Latest(zones, cs[..n], e))
  {
    assert forall c :: c in cs[..n] + [d] ==> c in cs;
    LatestStaysInWindow(zones, cs[..n], e, d);
  }

  /**
   * All along the pass, the window is as before it but for one earliest row, which reads as the last correction so far.
   */
  lemma {:induction false} HeldWindow(zones: Zones, rows: seq<Event>, cs: seq<Correction>, d: Correction, n: nat,
                                      out: seq<Event>) returns (q: int)
    requires WellPlaced(zones, cs) && d in cs && n <= |cs| && Synced(zones, rows, cs[..n], out)
    requires forall c :: c in cs ==> Undisturbed(zones, cs, c, rows)
    ensures IsEarliest(zones, d, rows, q)
    ensures SameWindow(zones, d, rows[q := Latest(zones, cs[..n], rows[q])], out)
  {
    hide InWindowOf, Apart, NoneInWindow, InOwnWindow, Undisturbed, SameKey, IsEarliest, Upserted, Synced;
    if n == 0 {
      q := EarliestOfUndisturbed(zones, cs, d, rows);
      assert cs[..0] == [];
      NothingDone(zones, rows, [], out, q);
    } else {
      var mid := BeforeLast(zones, rows, cs[..n], out);
      assert cs[..n][..n - 1] == cs[..n - 1];
      q := HeldWindow(zones, rows, cs, d, n - 1, mid);
      IsEarliestIsIn(zones, d, rows, q);
      if SameKey(zones, cs[n - 1], d) {
        q := HeldByOwn(zones, rows, cs, d, n - 1, mid, out, q);
      } else {
        UpsertApart(zones, cs[n - 1], d, mid, out);
        SameWindowInTurn(zones, d, rows[q := Latest(zones, cs[..n - 1], rows[q])], mid, out);
        LatestNext(zones, cs, n - 1, d, rows[q]);
      }
    }
  }

  lemma EarliestOfUndisturbed(zones: Zones, cs: seq<Correction>, d: Correction, rows: seq<Event>) returns (q: int)
    requires HaveCategories(cs) && d.category.Some? && Undisturbed(zones, cs, d, rows)
    ensures IsEarliest(zones, d, rows, q) && 0 <= q < |rows|
  {
    hide InWindowOf;
    q := EarliestExists(zones, d, rows);
  }

  lemma IsEarliestIsIn(zones: Zones, d: Correction, rows: seq<Event>, q: int)
    requires IsEarliest(zones, d, rows, q)
    ensures 0 <= q < |rows| && InWindowOf(zones, d, rows[q])
  {
  }

  lemma NothingDone(zones: Zones, rows: seq<Event>, cs: seq<Correction>, out: seq<Event>, q: int)
    requires cs == [] && Synced(zones, rows, cs, out) && 0 <= q < |rows|
    ensures out == rows && rows[q := Latest(zones, cs, rows[q])] == rows
  {
  }

  /** A pass is a shorter pass and one upsert. */
  lemma BeforeLast(zones: Zones, rows: seq<Event>, cs: seq<Correction>, out: seq<Event>) returns (mid: seq<Event>)
    requires HaveCategories(cs) && cs != [] && Synced(zones, rows, cs, out)
    ensures Synced(zones, rows, cs[..|cs| - 1], mid) && Upserted(zones, mid, cs[|cs| - 1], out)
  {
    hide Upserted;
    assert SyncedThen(zones, rows, cs[..|cs| - 1], cs[|cs| - 1], out);
    mid :| Synced(zones, rows, cs[..|cs| - 1], mid) && Upserted(zones, mid, cs[|cs| - 1], out);
  }

  /** A pass over windows none of which is empty adds no row. */
  lemma {:induction false} PassKeepsLength(zones: Zones, rows: seq<Event>, cs: seq<Correction>, out: seq<Event>)
    requires WellPlaced(zones, cs) && (forall c :: c in cs ==> !NoneInWindow(zones, c, rows))
    requires Synced(zones, rows, cs, out)
    ensures |out| == |rows|
    decreases |cs|
  {
    hide InWindowOf, Apart, NoneInWindow, InOwnWindow, SameKey, SyncedThen;
    if cs == [] {
    } else {
      var n := |cs| - 1;
      var mid := BeforeLast(zones, rows, cs, out);
      PassKeepsLength(zones, rows, cs[..n], mid);
      assert forall c :: c in cs[..n] + [cs[n]] ==> c in cs;
      PassCount(zones, rows, cs[..n], mid, cs[n]);
      CountZero(zones, cs[n], rows);
      CountZero(zones, cs[n], mid);
    }
  }

  lemma UndisturbedPass(zones: Zones, rows: seq<Event>, cs: seq<Correction>, out: seq<Event>)
    requires WellPlaced(zones, cs) && (forall c :: c in cs ==> Undisturbed(zones, cs, c, rows))
    requires Synced(zones, rows, cs, out)
    ensures out == rows
  {
    hide InWindowOf, Apart, NoneInWindow, InOwnWindow, SameKey, Synced, Clear, Latest;
    PassKeepsLength(zones, rows, cs, out);
    assert cs[..|cs|] == cs;
    forall j | 0 <= j < |rows|
      ensures out[j] == rows[j]
    {
      if d :| d in cs && InWindowOf(zones, d, rows[j]) {
        var q := HeldWindow(zones, rows, cs, d, |cs|, out);
        assert rows[q := Latest(zones, cs, rows[q])] == rows;
      } else {
        OtherRowsUntouched(zones, rows, cs, out, j);
      }
    }
  }

  // ---------------------------------------------------------------- a disturbed window can change

  /** No other row of the window stands in the way of an earliest row moved to this time. */
  predicate Calm(zones: Zones, d: Correction, rows: seq<Event>, q: int, at: int)
    requires 0 <= q < |rows|
  {
    at <= rows[q].at || forall r :: 0 <= r < |rows| && r != q && InWindowOf(zones, d, rows[r]) ==> at < rows[r].at
  }

  /** So far every correction of the window went to row `q`, and none but the last could have led to another row. */
  ghost predicate Straight(zones: Zones, done: seq<Correction>, d: Correction, rows: seq<Event>, q: int,
                           mid: seq<Event>)
    requires HaveCategories(done) && 0 <= q < |rows|
  {
    && SameWindow(zones, d, rows[q := Latest(zones, done, rows[q])], mid)
    && forall c :: c in done && SameKey(zones, c, d) ==>
                     Calm(zones, d, rows, q, c.fromAt) || Corrected(c) == Latest(zones, done, rows[q])
  }

  /**
   * Two rows `q` and `r` were written, and the one not written last is later than before the pass; so are all rows but
   * the one written last at least as late as `r` was.
   */
  ghost predicate Strayed(zones: Zones, d: Correction, rows: seq<Event>, mid: seq<Event>, q: int, r: int, x: int) {
    && |rows| <= |mid| && 0 <= q < |rows| && 0 <= r < |rows| && q != r && rows[q].at <= rows[r].at
    && 0 <= x < |mid| && InWindowOf(zones, d, mid[x]) && InWindowOf(zones, d, mid[q]) && InWindowOf(zones, d, mid[r])
    && (forall j :: 0 <= j < |mid| && j != x && InWindowOf(zones, d, mid[j]) ==> rows[r].at <= mid[j].at)
    && (x != q ==> rows[q].at < mid[q].at)
    && (x != r ==> rows[r].at < mid[r].at)
  }

  /** A strayed pass goes on: it stays with the row written last as long as that is earliest. */
  lemma StraysOn(zones: Zones, c: Correction, d: Correction, rows: seq<Event>, mid: seq<Event>, q: int, r: int, x: int)
    returns (out: seq<Event>, y: int)
    requires c.category.Some? && d.category.Some? && InOwnWindow(zones, c)
    requires SameKey(zones, c, d) || Apart(zones, c, d)
    requires Strayed(zones, d, rows, mid, q, r, x)
    ensures Upserted(zones, mid, c, out) && Strayed(zones, d, rows, out, q, r, y)
  {
    hide InWindowOf, Apart, InOwnWindow, SameKey;
    if SameKey(zones, c, d) {
      SameKeySameChoice(zones, c, d, mid);
      NowInWindow(zones, c, d);
      y := x;
      if !IsEarliest(zones, d, mid, x) { y := EarliestExists(zones, d, mid); }
      out := mid[y := Corrected(c)];
      assert IsEarliest(zones, c, mid, y);
    } else {
      out := SomeUpsert(zones, mid, c);
      UpsertApart(zones, c, d, mid, out);
      y := x;
    }
  }

  /** Row `q` takes one more correction, the last one having been calm. */
  lemma GoesStraight(zones: Zones, cs: seq<Correction>, n: nat, d: Correction, rows: seq<Event>, q: int,
                     mid: seq<Event>)
    requires WellPlaced(zones, cs) && d in cs && n < |cs| && SameKey(zones, cs[n], d)
    requires 0 <= q < |rows| && InWindowOf(zones, d, rows[q]) && Straight(zones, cs[..n], d, rows, q, mid)
    requires Calm(zones, d, rows, q, Latest(zones, cs[..n], rows[q]).at)
    ensures Straight(zones, cs[..n + 1], d, rows, q, mid[q := Corrected(cs[n])])
  {
    hide InWindowOf, Apart, InOwnWindow, SameKey, Latest, SameWindow, Calm;
    var c, base := cs[n], rows[q := Latest(zones, cs[..n], rows[q])];
    NowInWindow(zones, c, d);
    LatestNext(zones, cs, n, d, rows[q]);
    SameWindowUpdate(zones, d, base, mid, q, Corrected(c));
    assert base[q := Corrected(c)] == rows[q := Corrected(c)];
    forall b | b in cs[..n + 1] && SameKey(zones, b, d)
      ensures Calm(zones, d, rows, q, b.fromAt) || Corrected(b) == Corrected(c)
    {
      assert b in cs[..n] || b == c;
    }
  }

  /** Another row takes the next correction, row `q` having been moved. */
  lemma GoesAstray(zones: Zones, c: Correction, d: Correction, rows: seq<Event>, now: Event, q: int, r: int,
                   mid: seq<Event>)
    requires c.category.Some? && d.category.Some? && SameKey(zones, c, d) && InOwnWindow(zones, c)
    requires IsEarliest(zones, d, rows, q) && InWindowOf(zones, d, now) && SameWindow(zones, d, rows[q := now], mid)
    requires IsEarliest(zones, d, rows[q := now], r) && r != q && rows[q].at < now.at
    ensures Strayed(zones, d, rows, mid[r := Corrected(c)], q, r, r)
  {
    hide InWindowOf, InOwnWindow, SameKey;
    NowInWindow(zones, c, d);
    assert rows[q := now][q] == now && rows[q := now][r] == rows[r];
    assert mid[q] == now && mid[r] == rows[r];
  }

  /** Where the pass writes next. */
  lemma NextRow(zones: Zones, d: Correction, rows: seq<Event>, q: int, now: Event) returns (r: int)
    requires IsEarliest(zones, d, rows, q) && InWindowOf(zones, d, now)
    ensures IsEarliest(zones, d, rows[q := now], r)
    ensures if Calm(zones, d, rows, q, now.at) then r == q else r != q && rows[q].at < now.at
  {
    hide InWindowOf;
    var base := rows[q := now];
    assert base[q] == now;
    r := q;
    if !Calm(zones, d, rows, q, now.at) {
      SomeInWindow(zones, d, base, q);
      r := EarliestExists(zones, d, base);
      if r == q { r :| 0 <= r < |rows| && r != q && InWindowOf(zones, d, rows[r]) && rows[r].at <= now.at; }
    }
  }

  /** A straight pass goes on, straight or astray. */
  lemma GoesOn(zones: Zones, cs: seq<Correction>, n: nat, d: Correction, rows: seq<Event>, q: int, mid: seq<Event>)
    returns (out: seq<Event>, r: int)
    requires WellPlaced(zones, cs) && d in cs && n < |cs| && SameKey(zones, cs[n], d)
    requires IsEarliest(zones, d, rows, q) && Straight(zones, cs[..n], d, rows, q, mid)
    ensures Upserted(zones, mid, cs[n], out)
    ensures Straight(zones, cs[..n + 1], d, rows, q, out) || Strayed(zones, d, rows, out, q, r, r)
  {
    var c, now := cs[n], Latest(zones, cs[..n], rows[q]);
    LatestInWindow(zones, cs, d, n, rows[q]);
    hide InWindowOf, Apart, InOwnWindow, SameKey, Latest, SameWindow, Calm, Strayed;
    SameChoice(zones, d, rows[q := now], mid);
    SameKeySameChoice(zones, c, d, mid);
    r := NextRow(zones, d, rows, q, now);
    out := mid[r := Corrected(c)];
    assert IsEarliest(zones, c, mid, r);
    if r == q {
      GoesStraight(zones, cs, n, d, rows, q, mid);
    } else {
      GoesAstray(zones, c, d, rows, now, q, r, mid);
    }
  }

  /** A pass that goes astray whenever it can. */
  lemma {:induction false} Drive(zones: Zones, rows: seq<Event>, cs: seq<Correction>, d: Correction, n: nat, q: int)
    returns (out: seq<Event>, r: int, x: int)
    requires WellPlaced(zones, cs) && d in cs && n <= |cs| && IsEarliest(zones, d, rows, q)
    ensures Synced(zones, rows, cs[..n], out)
    ensures Straight(zones, cs[..n], d, rows, q, out) || Strayed(zones, d, rows, out, q, r, x)
  {
    hide InWindowOf, Apart, InOwnWindow, SameKey, Straight, Strayed, Upserted, Synced;
    if n == 0 {
      out, r, x := rows, q, q;
      assert cs[..0] == [];
      StartsStraight(zones, d, rows, q);
    } else {
      var mid;
      mid, r, x := Drive(zones, rows, cs, d, n - 1, q);
      if Strayed(zones, d, rows, mid, q, r, x) {
        out, x := StraysOn(zones, cs[n - 1], d, rows, mid, q, r, x);
      } else if SameKey(zones, cs[n - 1], d) {
        out, r := GoesOn(zones, cs, n - 1, d, rows, q, mid);
        x := r;
      } else {
        out := SomeUpsert(zones, mid, cs[n - 1]);
        StraightBesides(zones, cs, n - 1, d, rows, q, mid, out);
      }
      OneMore(zones, rows, cs, n - 1, mid, out);
    }
  }

  lemma StartsStraight(zones: Zones, d: Correction, rows: seq<Event>, q: int)
    requires 0 <= q < |rows|
    ensures Synced(zones, rows, [], rows) && Straight(zones, [], d, rows, q, rows)
  {
    hide InWindowOf;
    assert rows[q := rows[q]] == rows;
  }

  lemma OneMore(zones: Zones, rows: seq<Event>, cs: seq<Correction>, n: nat, mid: seq<Event>, out: seq<Event>)
    requires HaveCategories(cs) && n < |cs| && Synced(zones, rows, cs[..n], mid) && Upserted(zones, mid, cs[n], out)
    ensures Synced(zones, rows, cs[..n + 1], out)
  {
    hide Upserted;
    assert cs[..n + 1][..n] == cs[..n];
    assert SyncedThen(zones, rows, cs[..n], cs[n], out);
  }

  /** An upsert of another key does not matter. */
  lemma StraightBesides(zones: Zones, cs: seq<Correction>, n: nat, d: Correction, rows: seq<Event>, q: int,
                        mid: seq<Event>, out: seq<Event>)
    requires WellPlaced(zones, cs) && d in cs && n < |cs| && !SameKey(zones, cs[n], d)
    requires 0 <= q < |rows| && InWindowOf(zones, d, rows[q]) && Straight(zones, cs[..n], d, rows, q, mid)
    requires Upserted(zones, mid, cs[n], out)
    ensures Straight(zones, cs[..n + 1], d, rows, q, out)
  {
    hide InWindowOf, InOwnWindow, SameKey, Latest, SameWindow, Upserted;
    UpsertApart(zones, cs[n], d, mid, out);
    LatestNext(zones, cs, n, d, rows[q]);
    SameWindowInTurn(zones, d, rows[q := Latest(zones, cs[..n], rows[q])], mid, out);
    assert forall b :: b in cs[..n + 1] ==> b in cs[..n] || b == cs[n];
  }

  lemma StrayedIsChanged(zones: Zones, d: Correction, rows: seq<Event>, out: seq<Event>, q: int, r: int, x: int)
    requires Strayed(zones, d, rows, out, q, r, x)
    ensures out != rows
  {
  }

  /** A straight pass that changes nothing had nothing to stray from. */
  lemma StraightUnchanged(zones: Zones, cs: seq<Correction>, d: Correction, rows: seq<Event>, q: int, out: seq<Event>)
    requires WellPlaced(zones, cs) && d in cs && 0 <= q < |rows| && InWindowOf(zones, d, rows[q])
    requires Straight(zones, cs, d, rows, q, out)
    ensures out == rows ==> rows[q] == Latest(zones, cs, rows[q])
    ensures out == rows ==> Calm(zones, d, rows, q, d.fromAt) || d.fromAt == rows[q].at
  {
    hide InWindowOf, InOwnWindow, Apart, Calm, Latest;
    assert SameKey(zones, d, d) && cs[..|cs|] == cs;
    LatestInWindow(zones, cs, d, |cs|, rows[q]);
    assert rows[q := Latest(zones, cs, rows[q])][q] == Latest(zones, cs, rows[q]);
  }

  /** The row and the correction that the drive has to start from. */
  lemma Disturbance(zones: Zones, cs: seq<Correction>, d: Correction, rows: seq<Event>) returns (q: int)
    requires HaveCategories(cs) && d in cs && !NoneInWindow(zones, d, rows) && !Undisturbed(zones, cs, d, rows)
    ensures IsEarliest(zones, d, rows, q)
    ensures rows[q] != Latest(zones, cs, rows[q]) || (rows[q].at < d.fromAt && !Calm(zones, d, rows, q, d.fromAt))
  {
    hide InWindowOf, Latest;
    if p :| IsEarliest(zones, d, rows, p) && rows[p] != Latest(zones, cs, rows[p]) {
      q := p;
    } else {
      var p, r :| IsEarliest(zones, d, rows, p) && 0 <= r < |rows| && r != p && InWindowOf(zones, d, rows[r])
                  && !Clear(zones, cs, d, rows[r]);
      q := p;
      assert d.fromAt == rows[r].at ==> !IsEarliest(zones, d, rows, r);
    }
  }

  /** Some pass over a disturbed window changes a row. */
  lemma DisturbedPass(zones: Zones, cs: seq<Correction>, d: Correction, rows: seq<Event>) returns (out: seq<Event>)
    requires WellPlaced(zones, cs) && d in cs && !Undisturbed(zones, cs, d, rows)
    ensures Synced(zones, rows, cs, out) && out != rows
  {
    hide InWindowOf, InOwnWindow, Apart, NoneInWindow, Latest, Strayed, Calm, Synced, Undisturbed;
    assert SameKey(zones, d, d);
    if NoneInWindow(zones, d, rows) {
      out := SomePass(zones, rows, cs);
      assert forall c :: c in cs + [d] ==> c in cs;
      PassCount(zones, rows, cs, out, d);
      CountZero(zones, d, rows);
    } else {
      var q := Disturbance(zones, cs, d, rows);
      var r, x;
      out, r, x := Drive(zones, rows, cs, d, |cs|, q);
      assert cs[..|cs|] == cs;
      if Strayed(zones, d, rows, out, q, r, x) {
        StrayedIsChanged(zones, d, rows, out, q, r, x);
      } else {
        StraightUnchanged(zones, cs, d, rows, q, out);
      }
    }
  }

  // ---------------------------------------------------------------- the exact condition

  /** No pass over the rows changes any, whatever the order of ties. */
  ghost predicate PassesChangeNothing(zones: Zones, cs: seq<Correction>, rows: seq<Event>)
    requires HaveCategories(cs)
  {
    forall out :: Synced(zones, rows, cs, out) ==> out == rows
  }

  /** Of any well-placed list, with as many corrections of a key as there are. */
  lemma PassesChangeNothingIff(zones: Zones, cs: seq<Correction>, rows: seq<Event>)
    requires WellPlaced(zones, cs)
    ensures PassesChangeNothing(zones, cs, rows) <==> forall c :: c in cs ==> Undisturbed(zones, cs, c, rows)
  {
    hide InOwnWindow, Apart, SameKey, Undisturbed, Synced;
    if c :| c in cs && !Undisturbed(zones, cs, c, rows) {
      var out := DisturbedPass(zones, cs, c, rows);
    } else {
      forall out | Synced(zones, rows, cs, out)
        ensures out == rows
      {
        UndisturbedPass(zones, rows, cs, out);
      }
    }
  }

  /** So the list can be synced again without a change exactly when every first pass leaves the windows undisturbed. */
  lemma RepeatsIffUndisturbed(zones: Zones, cs: seq<Correction>, rows: seq<Event>)
    requires WellPlaced(zones, cs)
    ensures SyncRepeats(zones, cs, rows)
       <==> forall once, c :: Synced(zones, rows, cs, once) && c in cs ==> Undisturbed(zones, cs, c, once)
  {
    hide InOwnWindow, Apart, SameKey, Undisturbed, Synced;
    forall once | Synced(zones, rows, cs, once)
      ensures PassesChangeNothing(zones, cs, once) <==> forall c :: c in cs ==> Undisturbed(zones, cs, c, once)
    {
      PassesChangeNothingIff(zones, cs, once);
    }
    assert SyncRepeats(zones, cs, rows) <==>
        forall once :: Synced(zones, rows, cs, once) ==> PassesChangeNothing(zones, cs, once);
  }
}
