/** Running the correction sync twice over a list with one correction per key: the exact condition for no change. */
module CorrectionSyncTwice {
  import opened Common
  import opened AttendanceEvents
  import opened CorrectionSync
  import opened CorrectionSyncLaws

  /** Each corrected time lies in its own window, and no two corrections share one. */
  ghost predicate OnePerKey(zones: Zones, cs: seq<Correction>) {
    && HaveCategories(cs)
    && (forall c :: c in cs ==> InOwnWindow(zones, c))
    && (forall i, j :: 0 <= i < |cs| && 0 <= j < |cs| && i != j ==> Apart(zones, cs[i], cs[j]))
  }

  ghost predicate SyncRepeats(zones: Zones, cs: seq<Correction>, rows: seq<Event>)
    requires HaveCategories(cs)
  {
    forall once, twice :: Synced(zones, rows, cs, once) && Synced(zones, once, cs, twice) ==> twice == once
  }

  // ---------------------------------------------------------------- what a pass leaves of another key's window

  /** The window holds the same events in the same places. */
  ghost predicate SameWindow(zones: Zones, c: Correction, rows: seq<Event>, out: seq<Event>) {
    && |rows| <= |out|
    && (forall j :: 0 <= j < |rows| ==>
          InWindowOf(zones, c, rows[j]) || InWindowOf(zones, c, out[j]) ==> out[j] == rows[j])
    && (forall j :: |rows| <= j < |out| ==> !InWindowOf(zones, c, out[j]))
  }

  lemma SameChoice(zones: Zones, c: Correction, rows: seq<Event>, out: seq<Event>)
    requires SameWindow(zones, c, rows, out)
    ensures NoneInWindow(zones, c, out) <==> NoneInWindow(zones, c, rows)
    ensures forall k :: IsEarliest(zones, c, out, k) <==> IsEarliest(zones, c, rows, k)
  {
    hide InWindowOf;
    assert forall j :: 0 <= j < |rows| ==> InWindowOf(zones, c, rows[j]) == InWindowOf(zones, c, out[j]);
  }

  lemma SameWindowInTurn(zones: Zones, c: Correction, a: seq<Event>, b: seq<Event>, d: seq<Event>)
    requires SameWindow(zones, c, a, b) && SameWindow(zones, c, b, d)
    ensures SameWindow(zones, c, a, d)
  {
    hide InWindowOf;
  }

  lemma UpsertApart(zones: Zones, a: Correction, c: Correction, rows: seq<Event>, out: seq<Event>)
    requires a.category.Some? && c.category.Some? && Apart(zones, a, c) && InOwnWindow(zones, a)
    requires Upserted(zones, rows, a, out)
    ensures SameWindow(zones, c, rows, out)
  {
    WindowsAgree(zones, a, c, Corrected(a));
    forall j | 0 <= j < |rows| && out[j] != rows[j]
      ensures !InWindowOf(zones, c, rows[j]) && !InWindowOf(zones, c, out[j])
    {
      WindowsAgree(zones, a, c, rows[j]);
    }
  }

  lemma {:induction false} PassApart(zones: Zones, rows: seq<Event>, cs: seq<Correction>, out: seq<Event>,
                                     c: Correction)
    requires OnePerKey(zones, cs) && c.category.Some? && forall a :: a in cs ==> Apart(zones, a, c)
    requires Synced(zones, rows, cs, out)
    ensures SameWindow(zones, c, rows, out)
    decreases |cs|
  {
    hide InWindowOf, Apart, InOwnWindow, Upserted;
    if cs == [] {
    } else {
      var n := |cs| - 1;
      assert SyncedThen(zones, rows, cs[..n], cs[n], out);
      var mid :| Synced(zones, rows, cs[..n], mid) && Upserted(zones, mid, cs[n], out);
      PassApart(zones, rows, cs[..n], mid, c);
      UpsertApart(zones, cs[n], c, mid, out);
      SameWindowInTurn(zones, c, rows, mid, out);
    }
  }

  /** A pass at one of its corrections: before and after it, the correction's window is left alone. */
  lemma {:induction false} PassAt(zones: Zones, rows: seq<Event>, cs: seq<Correction>, out: seq<Event>, k: nat)
    returns (a: seq<Event>, b: seq<Event>)
    requires OnePerKey(zones, cs) && k < |cs| && Synced(zones, rows, cs, out)
    ensures SameWindow(zones, cs[k], rows, a) && Upserted(zones, a, cs[k], b) && SameWindow(zones, cs[k], b, out)
    decreases |cs|
  {
    hide InWindowOf, Apart, InOwnWindow, Upserted;
    var n := |cs| - 1;
    assert SyncedThen(zones, rows, cs[..n], cs[n], out);
    var mid :| Synced(zones, rows, cs[..n], mid) && Upserted(zones, mid, cs[n], out);
    if k == n {
      a, b := mid, out;
      assert forall c :: c in cs[..n] ==> Apart(zones, c, cs[n]);
      PassApart(zones, rows, cs[..n], mid, cs[n]);
    } else {
      a, b := PassAt(zones, rows, cs[..n], mid, k);
      UpsertApart(zones, cs[n], cs[k], mid, out);
      SameWindowInTurn(zones, cs[k], b, mid, out);
    }
  }

  // ---------------------------------------------------------------- settled windows

  /** The window is not empty, and every row an upsert may pick reads as the correction. */
  ghost predicate Settled(zones: Zones, c: Correction, rows: seq<Event>)
    requires c.category.Some?
  {
    !NoneInWindow(zones, c, rows) && forall i :: IsEarliest(zones, c, rows, i) ==> rows[i] == Corrected(c)
  }

  lemma UpsertSettles(zones: Zones, c: Correction, rows: seq<Event>, out: seq<Event>)
    requires c.category.Some? && InOwnWindow(zones, c) && RivalsAreLater(zones, c, rows)
    requires Upserted(zones, rows, c, out)
    ensures Settled(zones, c, out)
  {
    var i: int;
    if NoneInWindow(zones, c, rows) {
      i := |rows|;
    } else {
      i :| IsEarliest(zones, c, rows, i) && out == rows[i := Corrected(c)];
    }
    assert out[i] == Corrected(c) && InWindowOf(zones, c, out[i]);
    forall k | IsEarliest(zones, c, out, k)
      ensures out[k] == Corrected(c)
    {
      if k != i { assert out[k] == rows[k] && InWindowOf(zones, c, rows[k]); }
    }
  }

  lemma SameRivals(zones: Zones, c: Correction, rows: seq<Event>, out: seq<Event>)
    requires c.category.Some? && SameWindow(zones, c, rows, out)
    ensures RivalsAreLater(zones, c, out) <==> RivalsAreLater(zones, c, rows)
    ensures Settled(zones, c, out) <==> Settled(zones, c, rows)
  {
    SameChoice(zones, c, rows, out);
    hide NoneInWindow, InWindowOf;
  }

  lemma {:induction false} SettledPass(zones: Zones, rows: seq<Event>, cs: seq<Correction>, out: seq<Event>)
    requires HaveCategories(cs) && forall c :: c in cs ==> Settled(zones, c, rows)
    requires Synced(zones, rows, cs, out)
    ensures out == rows
    decreases |cs|
  {
    hide InWindowOf, NoneInWindow;
    if cs == [] {
    } else {
      var n := |cs| - 1;
      assert SyncedThen(zones, rows, cs[..n], cs[n], out);
      var mid :| Synced(zones, rows, cs[..n], mid) && Upserted(zones, mid, cs[n], out);
      SettledPass(zones, rows, cs[..n], mid);
    }
  }

  // ---------------------------------------------------------------- passes there are

  lemma SomeUpsert(zones: Zones, rows: seq<Event>, c: Correction) returns (out: seq<Event>)
    requires c.category.Some?
    ensures Upserted(zones, rows, c, out)
  {
    if NoneInWindow(zones, c, rows) {
      out := rows + [Corrected(c)];
    } else {
      var i := EarliestExists(zones, c, rows);
      out := rows[i := Corrected(c)];
    }
  }

  lemma {:induction false} SomePass(zones: Zones, rows: seq<Event>, cs: seq<Correction>) returns (out: seq<Event>)
    requires HaveCategories(cs)
    ensures Synced(zones, rows, cs, out)
    decreases |cs|
  {
    hide Upserted;
    if cs == [] {
      out := rows;
    } else {
      var n := |cs| - 1;
      var mid := SomePass(zones, rows, cs[..n]);
      out := SomeUpsert(zones, mid, cs[n]);
      assert SyncedThen(zones, rows, cs[..n], cs[n], out);
    }
  }

  /** An upsert that leaves an early rival for the next one to pick. */
  lemma RivalStays(zones: Zones, c: Correction, rows: seq<Event>) returns (out: seq<Event>)
    requires c.category.Some? && InOwnWindow(zones, c) && !RivalsAreLater(zones, c, rows)
    ensures Upserted(zones, rows, c, out) && !NoneInWindow(zones, c, out) && !Settled(zones, c, out)
  {
    var i, j :| 0 <= i < |rows| && 0 <= j < |rows| && i != j
             && IsEarliest(zones, c, rows, i) && InWindowOf(zones, c, rows[j])
             && !(c.fromAt < rows[j].at || rows[j] == Corrected(c));
    out := rows[i := Corrected(c)];
    assert InWindowOf(zones, c, out[j]);
    var k: int := EarliestExists(zones, c, out);
    if out[k].at == rows[j].at { k := j; }
    assert IsEarliest(zones, c, out, k) && out[k] != Corrected(c);
    assert Upserted(zones, rows, c, out);
  }

  lemma {:induction false} UnsettledPass(zones: Zones, rows: seq<Event>, cs: seq<Correction>, k: nat)
    returns (out: seq<Event>)
    requires OnePerKey(zones, cs) && k < |cs| && !RivalsAreLater(zones, cs[k], rows)
    ensures Synced(zones, rows, cs, out) && !NoneInWindow(zones, cs[k], out) && !Settled(zones, cs[k], out)
    decreases |cs|
  {
    hide InWindowOf, Apart, InOwnWindow, Upserted, RivalsAreLater, Settled, NoneInWindow;
    var n := |cs| - 1;
    var c, mid := cs[k], rows;
    if k == n {
      mid := SomePass(zones, rows, cs[..n]);
      assert forall a :: a in cs[..n] ==> Apart(zones, a, c);
      PassApart(zones, rows, cs[..n], mid, c);
      SameRivals(zones, c, rows, mid);
      out := RivalStays(zones, c, mid);
    } else {
      mid := UnsettledPass(zones, rows, cs[..n], k);
      out := SomeUpsert(zones, mid, cs[n]);
      UpsertApart(zones, cs[n], c, mid, out);
      SameRivals(zones, c, mid, out);
      SameChoice(zones, c, mid, out);
    }
    assert SyncedThen(zones, rows, cs[..n], cs[n], out);
  }

  /** Over an unsettled window some pass changes a row. */
  lemma {:induction false} ChangingPass(zones: Zones, rows: seq<Event>, cs: seq<Correction>, k: nat)
    returns (out: seq<Event>, i: int)
    requires OnePerKey(zones, cs) && k < |cs| && !NoneInWindow(zones, cs[k], rows) && !Settled(zones, cs[k], rows)
    ensures Synced(zones, rows, cs, out) && 0 <= i < |rows| <= |out|
    ensures rows[i] != out[i] == Corrected(cs[k])
    decreases |cs|
  {
    hide InWindowOf, Apart, InOwnWindow, NoneInWindow;
    var n := |cs| - 1;
    var c, mid := cs[k], rows;
    if k == n {
      i :| IsEarliest(zones, c, rows, i) && rows[i] != Corrected(c);
      mid := SomePass(zones, rows, cs[..n]);
      assert forall a :: a in cs[..n] ==> Apart(zones, a, c);
      PassApart(zones, rows, cs[..n], mid, c);
      SameChoice(zones, c, rows, mid);
      out := mid[i := Corrected(c)];
      assert Upserted(zones, mid, c, out);
    } else {
      mid, i := ChangingPass(zones, rows, cs[..n], k);
      out := SomeUpsert(zones, mid, cs[n]);
      UpsertApart(zones, cs[n], c, mid, out);
      CorrectedIsIn(zones, c);
    }
    assert SyncedThen(zones, rows, cs[..n], cs[n], out);
  }

  /**
   * A list with one correction per key can be synced again without a change, whatever the order of ties, exactly when
   * in each corrected window no row but the one overwritten is as early as the corrected time.
   */
  lemma SyncRepeatsIff(zones: Zones, cs: seq<Correction>, rows: seq<Event>)
    requires OnePerKey(zones, cs)
    ensures SyncRepeats(zones, cs, rows) <==> forall c :: c in cs ==> RivalsAreLater(zones, c, rows)
  {
    hide InWindowOf, Apart, NoneInWindow, RivalsAreLater, Settled, Upserted, Synced;
    if k :| 0 <= k < |cs| && !RivalsAreLater(zones, cs[k], rows) {
      var once := UnsettledPass(zones, rows, cs, k);
      var twice, i := ChangingPass(zones, once, cs, k);
    } else {
      forall once, twice | Synced(zones, rows, cs, once) && Synced(zones, once, cs, twice)
        ensures twice == once
      {
        forall k | 0 <= k < |cs|
          ensures Settled(zones, cs[k], once)
        {
          var a, b := PassAt(zones, rows, cs, once, k);
          SameRivals(zones, cs[k], rows, a);
          UpsertSettles(zones, cs[k], a, b);
          SameRivals(zones, cs[k], b, once);
        }
        SettledPass(zones, once, cs, twice);
      }
    }
  }
}
