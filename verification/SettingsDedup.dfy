/** The migration that keeps the newest business setting per key and then makes the keys unique. */
module SettingsDedup {
  import opened Common

  /**
   * Businesses, keys and times of update are numbered in the order in which the database sorts them. `others` has the
   * other columns that are not null.
   */
  datatype Row = Row(id: nat, businessId: int, key: int, updatedAt: int, deletedAt: Option<int>,
                     others: map<string, int>)

  datatype Field = BusinessId | Key | OtherField(name: string)

  /** The rows an index covers: all of them, or those its `where` clause lets through. */
  datatype Scope = EveryRow | UndeletedRows | SomeRows(covers: Row -> bool) {
    predicate Has(r: Row) {
      match this
      case EveryRow => true
      case UndeletedRows => r.deletedAt.None?
      case SomeRows(p) => p(r)
    }
  }

  datatype Index = Index(name: string, unique: bool, fields: seq<Field>, scope: Scope)

  predicate SameKey(a: Row, b: Row) {
    a.businessId == b.businessId && a.key == b.key
  }

  /** The rows the query looks at; a table without a `deletedAt` column has no deleted rows. */
  predicate Live(r: Row, hasDeletedAt: bool) {
    hasDeletedAt ==> r.deletedAt.None?
  }

  // ---------------------------------------------------------------- SELECT DISTINCT ON ... ORDER BY

  /** Order by business, key and, newest first, time of update. */
  predicate InOrder(a: Row, b: Row) {
    || a.businessId < b.businessId
    || (a.businessId == b.businessId && (a.key < b.key || (a.key == b.key && a.updatedAt >= b.updatedAt)))
  }

  /** One of the orders in which the database may go through the live rows; how ties are ordered is up to it. */
  ghost predicate IsListing(order: seq<Row>, rows: seq<Row>, hasDeletedAt: bool) {
    multiset(order) == multiset(Filter(rows, r => Live(r, hasDeletedAt))) && Sorted(order, InOrder)
  }

  /** The first row of every run of equal keys. */
  function Firsts(order: seq<Row>): (r: seq<Row>)
    ensures forall x :: x in r ==> x in order
  {
    if order == [] then []
    else
      var n := |order| - 1;
      Firsts(order[..n]) + if n == 0 || !SameKey(order[n - 1], order[n]) then [order[n]] else []
  }

  // ---------------------------------------------------------------- the table

  /** Ids are unique: `id` is the primary key. */
  ghost predicate UniqueIds(rows: seq<Row>) {
    forall i, j :: 0 <= i < j < |rows| ==> rows[i].id != rows[j].id
  }

  function Ids(rows: seq<Row>): set<nat> {
    set r | r in rows :: r.id
  }

  /** The DELETE's condition, for when the inner query gives the ids `kept`. */
  predicate IsDeleted(r: Row, hasDeletedAt: bool, kept: set<nat>) {
    r.id !in kept && Live(r, hasDeletedAt)
  }

  function Remaining(rows: seq<Row>, hasDeletedAt: bool, kept: set<nat>): seq<Row> {
    Filter(rows, r => !IsDeleted(r, hasDeletedAt, kept))
  }

  /** The guard before `addIndex`; it does not look at what rows an index covers. */
  predicate Guard(x: Index) {
    x.unique && |x.fields| == 2 && BusinessId in x.fields && Key in x.fields
  }

  /** A unique index takes null for different from everything. */
  predicate SameFields(fields: seq<Field>, a: Row, b: Row) {
    forall f :: f in fields ==>
      match f
      case BusinessId => a.businessId == b.businessId
      case Key => a.key == b.key
      case OtherField(n) => n in a.others && n in b.others && a.others[n] == b.others[n]
  }

  predicate Clash(x: Index, a: Row, b: Row) {
    x.unique && x.scope.Has(a) && x.scope.Has(b) && SameFields(x.fields, a, b)
  }

  /** The index can be built over `rows`, or has let all of them in. */
  ghost predicate Admits(x: Index, rows: seq<Row>) {
    forall i, j :: 0 <= i < j < |rows| ==> !Clash(x, rows[i], rows[j])
  }

  ghost predicate UniqueLiveKeys(rows: seq<Row>, hasDeletedAt: bool) {
    forall i, j :: 0 <= i < j < |rows| && Live(rows[i], hasDeletedAt) && Live(rows[j], hasDeletedAt) ==>
                     !SameKey(rows[i], rows[j])
  }

  const NEW_INDEX := "business_settings_businessId_key_unique"

  function NewIndex(hasDeletedAt: bool): Index {
    Index(NEW_INDEX, true, [BusinessId, Key], if hasDeletedAt then UndeletedRows else EveryRow)
  }

  predicate AlreadyExists(indexes: seq<Index>) {
    exists j :: 0 <= j < |indexes| && Guard(indexes[j])
  }

  /** Names of indexes are unique among all tables; `others` are those of other tables. */
  predicate NameIsTaken(indexes: seq<Index>, others: set<string>) {
    NEW_INDEX in others || exists j :: 0 <= j < |indexes| && indexes[j].name == NEW_INDEX
  }

  /** The look through the table's indexes. */
  method FindGuarded(indexes: seq<Index>) returns (alreadyExists: bool)
    ensures alreadyExists <==> AlreadyExists(indexes)
  {
    alreadyExists := false;
    for i := 0 to |indexes|
      invariant alreadyExists <==> exists j :: 0 <= j < i && Guard(indexes[j])
    {
      alreadyExists := alreadyExists || Guard(indexes[i]);
    }
  }

  class SettingsTable {
    const present: bool
    const hasDeletedAt: bool
    const others: set<string>
    var rows: seq<Row>
    var indexes: seq<Index>

    constructor (present: bool, hasDeletedAt: bool, others: set<string>, rows: seq<Row>, indexes: seq<Index>)
      ensures this.present == present && this.hasDeletedAt == hasDeletedAt && this.others == others
      ensures this.rows == rows && this.indexes == indexes
    {
      this.present, this.hasDeletedAt, this.others := present, hasDeletedAt, others;
      this.rows, this.indexes := rows, indexes;
    }

    /**
     * `up`; the database goes through the live rows in the order given. No data keeps it from building its index; it
     * fails, with the rows deleted, just when an index that the guard does not accept, or one of another table, has the
     * name.
     */
    method Up(order: seq<Row>) returns (ok: bool)
      requires UniqueIds(rows) && IsListing(order, rows, hasDeletedAt)
      requires forall x :: x in indexes ==> Admits(x, rows)
      modifies this
      ensures !present ==> ok && rows == old(rows) && indexes == old(indexes)
      ensures present ==> (ok <==> AlreadyExists(old(indexes)) || !NameIsTaken(old(indexes), others))
      ensures present ==> KeepsNewest(old(rows), rows, hasDeletedAt)
      ensures present ==> indexes == IndexesAfter(old(indexes), others, hasDeletedAt)
      ensures forall x :: x in indexes ==> Admits(x, rows)
      ensures present && ok && HaveNoConditions(old(indexes), hasDeletedAt) ==> Enforced(indexes, hasDeletedAt)
    {
      if HaveNoConditions(indexes, hasDeletedAt) { UpEnforces(indexes, others, hasDeletedAt); }
      hide IsListing, UniqueIds, Remaining, KeepsNewest, Live, Admits, Enforced, HaveNoConditions, Firsts, Ids,
          NameIsTaken, NewIndex, AlreadyExists;
      if !present { return true; }
      ListingKeepsNewest(rows, hasDeletedAt, order);
      ghost var before := rows;
      rows := Remaining(rows, hasDeletedAt, Ids(Firsts(order)));
      forall x | x in indexes
        ensures Admits(x, rows)
      {
        FewerRowsAdmitted(x, before, hasDeletedAt, Ids(Firsts(order)));
      }
      var alreadyExists := FindGuarded(indexes);
      if !alreadyExists {
        if NameIsTaken(indexes, others) { return false; }
        NewIndexAdmits(before, rows, hasDeletedAt);
        indexes := indexes + [NewIndex(hasDeletedAt)];
      }
      return true;
    }
  }

  ghost function IndexesAfter(indexes: seq<Index>, others: set<string>, hasDeletedAt: bool): seq<Index> {
    if AlreadyExists(indexes) || NameIsTaken(indexes, others) then indexes else indexes + [NewIndex(hasDeletedAt)]
  }

  // ---------------------------------------------------------------- one row of greatest updatedAt per live key

  /** What is meant by keeping the newest: said of the rows before and after, without a query. */
  ghost predicate KeepsNewest(before: seq<Row>, after: seq<Row>, hasDeletedAt: bool) {
    && (exists kept: set<nat> :: after == Remaining(before, hasDeletedAt, kept))
    && UniqueIds(after)
    && UniqueLiveKeys(after, hasDeletedAt)
    && (forall r :: r in after ==> r in before)
    && (forall r :: r in before && !Live(r, hasDeletedAt) ==> r in after)
    && (forall r :: r in before && Live(r, hasDeletedAt) ==> Outlived(r, after, hasDeletedAt))
  }

  /** A live row with the key of `r` and no older than it is among `after`. */
  ghost predicate Outlived(r: Row, after: seq<Row>, hasDeletedAt: bool) {
    exists s :: s in after && Live(s, hasDeletedAt) && SameKey(r, s) && s.updatedAt >= r.updatedAt
  }

  lemma FilterIs(rows: seq<Row>, p: Row -> bool, r: Row)
    ensures r in Filter(rows, p) <==> r in rows && p(r)
  {
    FilterMultiplicity(rows, p, r);
    assert r in multiset(Filter(rows, p)) <==> r in Filter(rows, p);
    assert r in multiset(rows) <==> r in rows;
  }

  lemma RemainingIs(rows: seq<Row>, hasDeletedAt: bool, kept: set<nat>, r: Row)
    ensures r in Remaining(rows, hasDeletedAt, kept) <==> r in rows && !IsDeleted(r, hasDeletedAt, kept)
  {
    FilterIs(rows, r => !IsDeleted(r, hasDeletedAt, kept), r);
  }

  lemma ListingIs(order: seq<Row>, rows: seq<Row>, hasDeletedAt: bool, r: Row)
    requires IsListing(order, rows, hasDeletedAt)
    ensures r in order <==> r in rows && Live(r, hasDeletedAt)
  {
    FilterIs(rows, r => Live(r, hasDeletedAt), r);
    assert r in multiset(order) <==> r in order;
    assert multiset(order) == multiset(Filter(rows, r => Live(r, hasDeletedAt)));
  }

  lemma FilterStep(rows: seq<Row>, p: Row -> bool)
    requires rows != []
    ensures Filter(rows, p) == if p(rows[0]) then [rows[0]] + Filter(rows[1..], p) else Filter(rows[1..], p)
  {
  }

  /** What is filtered stays in order. */
  lemma {:induction false} FilterOrder(rows: seq<Row>, p: Row -> bool, i: nat, j: nat) returns (k: nat, l: nat)
    requires i < j < |Filter(rows, p)|
    ensures k < l < |rows| && rows[k] == Filter(rows, p)[i] && rows[l] == Filter(rows, p)[j]
  {
    hide Filter;
    var rest, t := rows[1..], Filter(rows[1..], p);
    FilterStep(rows, p);
    if !p(rows[0]) {
      k, l := FilterOrder(rest, p, i, j);
      k, l := k + 1, l + 1;
    } else if i == 0 {
      assert t[j - 1] in rest;
      l :| 0 < l < |rows| && rest[l - 1] == t[j - 1];
      k := 0;
    } else {
      k, l := FilterOrder(rest, p, i - 1, j - 1);
      k, l := k + 1, l + 1;
    }
  }

  /** A property of pairs of rows survives leaving rows out. */
  lemma RemainingPairs(rows: seq<Row>, hasDeletedAt: bool, kept: set<nat>, bad: (Row, Row) -> bool)
    requires forall i, j :: 0 <= i < j < |rows| ==> !bad(rows[i], rows[j])
    ensures var s := Remaining(rows, hasDeletedAt, kept); forall i, j :: 0 <= i < j < |s| ==> !bad(s[i], s[j])
  {
    var s := Remaining(rows, hasDeletedAt, kept);
    forall i, j | 0 <= i < j < |s|
      ensures !bad(s[i], s[j])
    {
      var k, l := FilterOrder(rows, r => !IsDeleted(r, hasDeletedAt, kept), i, j);
    }
  }

  /** The unique index can always be built over what the deletion leaves. */
  lemma NewIndexAdmits(before: seq<Row>, after: seq<Row>, hasDeletedAt: bool)
    requires KeepsNewest(before, after, hasDeletedAt)
    ensures Admits(NewIndex(hasDeletedAt), after)
  {
    var x := NewIndex(hasDeletedAt);
    forall a, b | Clash(x, a, b)
      ensures Live(a, hasDeletedAt) && Live(b, hasDeletedAt) && SameKey(a, b)
    {
      assert x.fields[0] in x.fields && x.fields[1] in x.fields;
    }
    hide Clash;
  }

  lemma FewerRowsAdmitted(x: Index, rows: seq<Row>, hasDeletedAt: bool, kept: set<nat>)
    requires Admits(x, rows)
    ensures Admits(x, Remaining(rows, hasDeletedAt, kept))
  {
    hide Clash;
    RemainingPairs(rows, hasDeletedAt, kept, (a, b) => Clash(x, a, b));
    var s := Remaining(rows, hasDeletedAt, kept);
    assert forall i, j :: 0 <= i < j < |s| ==> !Clash(x, s[i], s[j]);
  }

  /** A key that was left behind does not come back. */
  lemma KeysInOrder(a: Row, b: Row, c: Row)
    requires (a == b || InOrder(a, b)) && InOrder(b, c) && !SameKey(b, c)
    ensures !SameKey(a, c)
  {
  }

  lemma SameKeyInTurn(a: Row, b: Row, c: Row)
    ensures SameKey(c, c) && (SameKey(a, b) && SameKey(b, c) ==> SameKey(a, c))
  {
  }

  lemma OneMoreFirst(order: seq<Row>)
    requires order != []
    ensures var n := |order| - 1;
            Firsts(order) == Firsts(order[..n]) + if n > 0 && SameKey(order[n - 1], order[n]) then [] else [order[n]]
  {
  }

  /** The first rows have different keys, in order, and the last of them has the key of the last row. */
  lemma {:induction false} FirstsDiffer(order: seq<Row>)
    requires Sorted(order, InOrder)
    ensures var s := Firsts(order);
            && (forall i, j :: 0 <= i < j < |s| ==> !SameKey(s[i], s[j]))
            && (order != [] ==> s != [] && SameKey(s[|s| - 1], order[|order| - 1]))
  {
    hide SameKey, InOrder;
    if order == [] {
    } else {
      var n := |order| - 1;
      FirstsDiffer(order[..n]);
      var s := Firsts(order[..n]);
      if n > 0 && !SameKey(order[n - 1], order[n]) {
        forall i | 0 <= i < |s|
          ensures !SameKey(s[i], order[n])
        {
          assert s[i] in order[..n];
          var k :| 0 <= k < n && order[k] == s[i];
          hide Firsts;
          KeysInOrder(order[k], order[n - 1], order[n]);
        }
      }
      OneMoreFirst(order);
      SameKeyInTurn(if s == [] then order[n] else s[|s| - 1], if n > 0 then order[n - 1] else order[n], order[n]);
    }
  }

  /** Every row has one of its key, and no older, among the first rows. */
  lemma {:induction false} FirstsOutlive(order: seq<Row>, r: Row)
    requires Sorted(order, InOrder) && r in order
    ensures exists s :: s in Firsts(order) && SameKey(r, s) && s.updatedAt >= r.updatedAt
  {
    var n := |order| - 1;
    if r in order[..n] {
      FirstsOutlive(order[..n], r);
    } else {
      assert r == order[n];
      if n > 0 && SameKey(order[n - 1], order[n]) {
        assert order[n - 1] == order[..n][n - 1];
        FirstsOutlive(order[..n], order[n - 1]);
      }
    }
  }

  lemma SameIdSameRow(rows: seq<Row>, a: Row, b: Row)
    requires UniqueIds(rows) && a in rows && b in rows && a.id == b.id
    ensures a == b
  {
  }

  lemma IdsStayUnique(rows: seq<Row>, hasDeletedAt: bool, kept: set<nat>)
    requires UniqueIds(rows)
    ensures UniqueIds(Remaining(rows, hasDeletedAt, kept))
  {
    RemainingPairs(rows, hasDeletedAt, kept, (a: Row, b: Row) => a.id == b.id);
  }

  lemma StaysIffFirst(rows: seq<Row>, hasDeletedAt: bool, order: seq<Row>, r: Row)
    requires UniqueIds(rows) && IsListing(order, rows, hasDeletedAt)
    ensures r in Remaining(rows, hasDeletedAt, Ids(Firsts(order))) <==>
              r in rows && (Live(r, hasDeletedAt) ==> r in Firsts(order))
  {
    var firsts := Firsts(order);
    RemainingIs(rows, hasDeletedAt, Ids(firsts), r);
    if r in rows && r.id in Ids(firsts) {
      var s :| s in firsts && s.id == r.id;
      ListingIs(order, rows, hasDeletedAt, s);
      SameIdSameRow(rows, r, s);
    }
  }

  lemma FirstsAreUnique(order: seq<Row>, after: seq<Row>, hasDeletedAt: bool)
    requires Sorted(order, InOrder) && UniqueIds(after)
    requires forall r :: r in after && Live(r, hasDeletedAt) ==> r in Firsts(order)
    ensures UniqueLiveKeys(after, hasDeletedAt)
  {
    hide Live;
    var firsts := Firsts(order);
    FirstsDiffer(order);
    hide Firsts, Sorted;
    forall i, j | 0 <= i < j < |after| && Live(after[i], hasDeletedAt) && Live(after[j], hasDeletedAt)
      ensures !SameKey(after[i], after[j])
    {
      var k :| 0 <= k < |firsts| && firsts[k] == after[i];
      var l :| 0 <= l < |firsts| && firsts[l] == after[j];
      assert k != l;
      assert if k < l then !SameKey(firsts[k], firsts[l]) else !SameKey(firsts[l], firsts[k]);
    }
  }

  /** Sorting and keeping the first of each key keeps one newest row per live key, whatever the order of ties. */
  lemma ListingKeepsNewest(rows: seq<Row>, hasDeletedAt: bool, order: seq<Row>)
    requires UniqueIds(rows) && IsListing(order, rows, hasDeletedAt)
    ensures KeepsNewest(rows, Remaining(rows, hasDeletedAt, Ids(Firsts(order))), hasDeletedAt)
  {
    hide Remaining, Firsts, Live, Ids;
    var firsts := Firsts(order);
    var after := Remaining(rows, hasDeletedAt, Ids(firsts));
    IdsStayUnique(rows, hasDeletedAt, Ids(firsts));
    forall r
      ensures r in after <==> r in rows && (Live(r, hasDeletedAt) ==> r in firsts)
    {
      StaysIffFirst(rows, hasDeletedAt, order, r);
    }
    forall r | r in rows && Live(r, hasDeletedAt)
      ensures Outlived(r, after, hasDeletedAt)
    {
      ListingIs(order, rows, hasDeletedAt, r);
      FirstsOutlive(order, r);
      var s :| s in firsts && SameKey(r, s) && s.updatedAt >= r.updatedAt;
      ListingIs(order, rows, hasDeletedAt, s);
    }
    FirstsAreUnique(order, after, hasDeletedAt);
  }

  // ---------------------------------------------------------------- there is a listing

  lemma InOrderIsAnOrder()
    ensures IsOrder(InOrder)
  {
  }

  /** So `up` can run on any table, and something is always kept. */
  lemma SomeOutcome(rows: seq<Row>, hasDeletedAt: bool) returns (order: seq<Row>)
    requires UniqueIds(rows)
    ensures IsListing(order, rows, hasDeletedAt)
    ensures KeepsNewest(rows, Remaining(rows, hasDeletedAt, Ids(Firsts(order))), hasDeletedAt)
  {
    order := Sort(Filter(rows, r => Live(r, hasDeletedAt)), InOrder);
    InOrderIsAnOrder();
    SortSorts(Filter(rows, r => Live(r, hasDeletedAt)), InOrder);
    ListingKeepsNewest(rows, hasDeletedAt, order);
  }

  lemma OneLivePerKey(rows: seq<Row>, hasDeletedAt: bool, a: Row, b: Row)
    requires UniqueLiveKeys(rows, hasDeletedAt) && a in rows && b in rows
    requires Live(a, hasDeletedAt) && Live(b, hasDeletedAt) && SameKey(a, b)
    ensures a == b
  {
  }

  // ---------------------------------------------------------------- again, and in another order

  lemma {:induction false} FilterAll(rows: seq<Row>, p: Row -> bool)
    requires forall r :: r in rows ==> p(r)
    ensures Filter(rows, p) == rows
  {
    if rows == [] {
    } else {
      FilterAll(rows[1..], p);
    }
  }

  lemma RemainsWhole(rows: seq<Row>, hasDeletedAt: bool, kept: set<nat>)
    requires forall r :: r in rows ==> !IsDeleted(r, hasDeletedAt, kept)
    ensures Remaining(rows, hasDeletedAt, kept) == rows
  {
    FilterAll(rows, r => !IsDeleted(r, hasDeletedAt, kept));
  }

  /** Once the live keys are unique, keeping the newest deletes nothing. */
  lemma NothingLeftToDelete(rows: seq<Row>, hasDeletedAt: bool, after: seq<Row>)
    requires UniqueIds(rows) && UniqueLiveKeys(rows, hasDeletedAt) && KeepsNewest(rows, after, hasDeletedAt)
    ensures after == rows
  {
    hide UniqueLiveKeys, UniqueIds, Remaining;
    var kept :| after == Remaining(rows, hasDeletedAt, kept);
    forall r | r in rows
      ensures !IsDeleted(r, hasDeletedAt, kept)
    {
      if Live(r, hasDeletedAt) {
        assert Outlived(r, after, hasDeletedAt);
        var s :| s in after && Live(s, hasDeletedAt) && SameKey(r, s);
        OneLivePerKey(rows, hasDeletedAt, r, s);
      }
      RemainingIs(rows, hasDeletedAt, kept, r);
    }
    RemainsWhole(rows, hasDeletedAt, kept);
  }

  /** A second run, whatever order it meets, changes neither rows nor indexes. */
  lemma SecondRunChangesNothing(rows: seq<Row>, once: seq<Row>, twice: seq<Row>, indexes: seq<Index>,
                                others: set<string>, hasDeletedAt: bool)
    requires KeepsNewest(rows, once, hasDeletedAt) && KeepsNewest(once, twice, hasDeletedAt)
    ensures twice == once
    ensures var before := IndexesAfter(indexes, others, hasDeletedAt);
            IndexesAfter(before, others, hasDeletedAt) == before
  {
    NothingLeftToDelete(once, hasDeletedAt, twice);
    var before := IndexesAfter(indexes, others, hasDeletedAt);
    assert Guard(NewIndex(hasDeletedAt));
    if before != indexes { assert before[|indexes|] == NewIndex(hasDeletedAt); }
  }

  /** No live row with the key of `r` is newer. */
  ghost predicate Newest(r: Row, rows: seq<Row>, hasDeletedAt: bool) {
    && r in rows && Live(r, hasDeletedAt)
    && forall s :: s in rows && Live(s, hasDeletedAt) && SameKey(r, s) ==> s.updatedAt <= r.updatedAt
  }

  /** Two newest rows of one key. */
  ghost predicate HasTie(rows: seq<Row>, hasDeletedAt: bool) {
    exists a, b :: Newest(a, rows, hasDeletedAt) && Newest(b, rows, hasDeletedAt) && SameKey(a, b) && a != b
  }

  /** What is kept is newest, and each newest row's key is kept. */
  lemma KeptIsNewest(before: seq<Row>, after: seq<Row>, hasDeletedAt: bool, r: Row)
    requires KeepsNewest(before, after, hasDeletedAt) && r in after && Live(r, hasDeletedAt)
    ensures Newest(r, before, hasDeletedAt)
  {
    hide UniqueLiveKeys, UniqueIds, Remaining, Live;
    forall s | s in before && Live(s, hasDeletedAt) && SameKey(r, s)
      ensures s.updatedAt <= r.updatedAt
    {
      assert Outlived(s, after, hasDeletedAt);
      var t :| t in after && Live(t, hasDeletedAt) && SameKey(s, t) && t.updatedAt >= s.updatedAt;
      OneLivePerKey(after, hasDeletedAt, r, t);
    }
  }

  lemma SameKept(before: seq<Row>, one: seq<Row>, other: seq<Row>, hasDeletedAt: bool, r: Row)
    requires KeepsNewest(before, one, hasDeletedAt) && KeepsNewest(before, other, hasDeletedAt)
    requires !HasTie(before, hasDeletedAt) && r in one
    ensures r in other
  {
    if Live(r, hasDeletedAt) {
      assert Outlived(r, other, hasDeletedAt);
      var s :| s in other && Live(s, hasDeletedAt) && SameKey(r, s);
      KeptIsNewest(before, one, hasDeletedAt, r);
      KeptIsNewest(before, other, hasDeletedAt, s);
    }
  }

  lemma {:induction false} SameFilter(rows: seq<Row>, p: Row -> bool, q: Row -> bool)
    requires forall r :: r in rows ==> p(r) == q(r)
    ensures Filter(rows, p) == Filter(rows, q)
  {
    if rows == [] {
    } else {
      SameFilter(rows[1..], p, q);
    }
  }

  lemma WithoutTiesOneOutcome(before: seq<Row>, one: seq<Row>, other: seq<Row>, hasDeletedAt: bool)
    requires KeepsNewest(before, one, hasDeletedAt) && KeepsNewest(before, other, hasDeletedAt)
        && !HasTie(before, hasDeletedAt)
    ensures one == other
  {
    var k :| one == Remaining(before, hasDeletedAt, k);
    var l :| other == Remaining(before, hasDeletedAt, l);
    forall r | r in before
      ensures IsDeleted(r, hasDeletedAt, k) == IsDeleted(r, hasDeletedAt, l)
    {
      RemainingIs(before, hasDeletedAt, k, r);
      RemainingIs(before, hasDeletedAt, l, r);
      if r in one { SameKept(before, one, other, hasDeletedAt, r); }
      if r in other { SameKept(before, other, one, hasDeletedAt, r); }
    }
    SameFilter(before, r => !IsDeleted(r, hasDeletedAt, k), r => !IsDeleted(r, hasDeletedAt, l));
  }

  /** A row that no row of its key stands before is among the first rows. */
  lemma {:induction false} HeadIsFirst(order: seq<Row>, k: nat)
    requires k < |order| && forall i :: 0 <= i < k ==> !SameKey(order[i], order[k])
    ensures order[k] in Firsts(order)
  {
    var n := |order| - 1;
    if k < n {
      assert order[..n][k] == order[k];
      HeadIsFirst(order[..n], k);
    }
  }

  lemma NewestGoesFirst(rows: seq<Row>, hasDeletedAt: bool, x: Row, y: Row)
    requires Newest(x, rows, hasDeletedAt) && y in rows && Live(y, hasDeletedAt)
    ensures SameKey(y, x) ==> InOrder(x, y)
  {
    hide Live;
  }

  /** In some order any newest row comes first of its key, and so it is kept. */
  lemma NewestMayBeKept(rows: seq<Row>, hasDeletedAt: bool, x: Row) returns (order: seq<Row>)
    requires UniqueIds(rows) && Newest(x, rows, hasDeletedAt)
    ensures IsListing(order, rows, hasDeletedAt) && x in Remaining(rows, hasDeletedAt, Ids(Firsts(order)))
  {
    var live := (r: Row) => Live(r, hasDeletedAt);
    var others := Filter(Filter(rows, live), r => r != x);
    var sorted := Sort(others, InOrder);
    order := Insert(sorted, x, InOrder);
    InOrderIsAnOrder();
    hide Live, Firsts, Remaining, Ids, Sort, Insert, Filter, InOrder;
    SortSorts(others, InOrder);
    InsertSorts(sorted, x, InOrder);
    assert multiset(order) == multiset(Filter(rows, live)) by { OnceAmongLive(rows, hasDeletedAt, x); }
    var k := InsertPlace(sorted, x, InOrder);
    assert order[k] == x;
    forall i | 0 <= i < k
      ensures !SameKey(order[i], x)
    {
      assert order[i] == sorted[i] && sorted[i] in multiset(sorted);
      FilterIs(Filter(rows, live), r => r != x, sorted[i]);
      FilterIs(rows, live, sorted[i]);
      NewestGoesFirst(rows, hasDeletedAt, x, sorted[i]);
    }
    HeadIsFirst(order, k);
    StaysIffFirst(rows, hasDeletedAt, order, x);
  }

  /** With unique ids a live row is listed once, so the others and it make up the live rows. */
  lemma OnceAmongLive(rows: seq<Row>, hasDeletedAt: bool, x: Row)
    requires UniqueIds(rows) && x in rows && Live(x, hasDeletedAt)
    ensures var live := Filter(rows, r => Live(r, hasDeletedAt));
            multiset(Filter(live, r => r != x)) + multiset{x} == multiset(live)
  {
    hide Live, Filter, UniqueIds;
    FilterMultiplicity(rows, r => Live(r, hasDeletedAt), x);
    Once(rows, x);
    AllButOne(Filter(rows, r => Live(r, hasDeletedAt)), x);
  }

  lemma AllButOne(rows: seq<Row>, x: Row)
    requires multiset(rows)[x] == 1
    ensures multiset(Filter(rows, r => r != x)) + multiset{x} == multiset(rows)
  {
    hide Filter;
    forall r: Row
      ensures (multiset(Filter(rows, r => r != x)) + multiset{x})[r] == multiset(rows)[r]
    {
      FilterMultiplicity(rows, r => r != x, r);
    }
  }

  lemma {:induction false} Once(rows: seq<Row>, x: Row)
    requires UniqueIds(rows) && x in rows
    ensures multiset(rows)[x] == 1
  {
    var rest := rows[1..];
    assert rows == [rows[0]] + rest;
    if rows[0] == x {
      assert x !in rest;
    } else {
      Once(rest, x);
    }
  }

  /** What `up` leaves does not depend on the order of ties exactly when no live key has two newest rows. */
  lemma OneOutcomeIffNoTie(rows: seq<Row>, hasDeletedAt: bool)
    requires UniqueIds(rows)
    ensures !HasTie(rows, hasDeletedAt) <==>
              forall one, other :: IsListing(one, rows, hasDeletedAt) && IsListing(other, rows, hasDeletedAt) ==>
                                     Remaining(rows, hasDeletedAt, Ids(Firsts(one))) ==
                                     Remaining(rows, hasDeletedAt, Ids(Firsts(other)))
  {
    hide IsListing, Remaining, Live, Ids, Firsts;
    if HasTie(rows, hasDeletedAt) {
      var a, b :| Newest(a, rows, hasDeletedAt) && Newest(b, rows, hasDeletedAt) && SameKey(a, b) && a != b;
      var one := NewestMayBeKept(rows, hasDeletedAt, a);
      var other := NewestMayBeKept(rows, hasDeletedAt, b);
      ListingKeepsNewest(rows, hasDeletedAt, one);
      var after := Remaining(rows, hasDeletedAt, Ids(Firsts(one)));
      if b in after { OneLivePerKey(after, hasDeletedAt, a, b); }
    } else {
      forall one, other | IsListing(one, rows, hasDeletedAt) && IsListing(other, rows, hasDeletedAt)
        ensures Remaining(rows, hasDeletedAt, Ids(Firsts(one))) == Remaining(rows, hasDeletedAt, Ids(Firsts(other)))
      {
        ListingKeepsNewest(rows, hasDeletedAt, one);
        ListingKeepsNewest(rows, hasDeletedAt, other);
        WithoutTiesOneOutcome(rows, Remaining(rows, hasDeletedAt, Ids(Firsts(one))),
                              Remaining(rows, hasDeletedAt, Ids(Firsts(other))), hasDeletedAt);
      }
    }
  }

  // ---------------------------------------------------------------- what the index guard misses

  /** Whatever rows the indexes let in, no two live ones have the same key. */
  ghost predicate Enforced(indexes: seq<Index>, hasDeletedAt: bool) {
    forall rows: seq<Row> :: UniqueIds(rows) && (forall x :: x in indexes ==> Admits(x, rows)) ==>
                               UniqueLiveKeys(rows, hasDeletedAt)
  }

  /** Some index keeps the two rows apart. */
  ghost predicate KeptApart(indexes: seq<Index>, a: Row, b: Row) {
    exists x :: x in indexes && Clash(x, a, b)
  }

  /**
   * Unique live keys are enforced exactly when some unique index covers any two live rows of a key and sees them alike.
   */
  lemma EnforcedByPairs(indexes: seq<Index>, hasDeletedAt: bool)
    ensures Enforced(indexes, hasDeletedAt) <==>
              forall a: Row, b: Row ::
                a.id != b.id && Live(a, hasDeletedAt) && Live(b, hasDeletedAt) && SameKey(a, b) ==>
                  KeptApart(indexes, a, b)
  {
    hide Clash, Live;
    if a: Row, b: Row :| a.id != b.id && Live(a, hasDeletedAt) && Live(b, hasDeletedAt) && SameKey(a, b)
                         && !KeptApart(indexes, a, b) {
      var rows := [a, b];
      assert UniqueIds(rows) && forall x :: x in indexes ==> Admits(x, rows);
      assert Live(rows[0], hasDeletedAt) && Live(rows[1], hasDeletedAt) && SameKey(rows[0], rows[1]);
      assert !UniqueLiveKeys(rows, hasDeletedAt);
    } else {
      forall rows: seq<Row> | UniqueIds(rows) && forall x :: x in indexes ==> Admits(x, rows)
        ensures UniqueLiveKeys(rows, hasDeletedAt)
      {
        forall i, j | 0 <= i < j < |rows| && Live(rows[i], hasDeletedAt) && Live(rows[j], hasDeletedAt)
          ensures !SameKey(rows[i], rows[j])
        {
          assert !SameKey(rows[i], rows[j]) || KeptApart(indexes, rows[i], rows[j]);
        }
      }
    }
  }

  predicate KeyFieldsOnly(x: Index) {
    forall f :: f in x.fields ==> f == BusinessId || f == Key
  }

  /**
   * Where no index has a condition of its own on rows: exactly when some unique index is over no other columns than
   * business and key, and covers the live rows.
   */
  lemma EnforcedWithoutConditions(indexes: seq<Index>, hasDeletedAt: bool)
    requires forall x :: x in indexes ==> !x.scope.SomeRows?
    ensures Enforced(indexes, hasDeletedAt) <==>
              exists x :: x in indexes && x.unique && KeyFieldsOnly(x) && (hasDeletedAt || x.scope.EveryRow?)
  {
    EnforcedByPairs(indexes, hasDeletedAt);
    hide Enforced;
    var deletedAt: Option<int> := if hasDeletedAt then None else Some(0);
    var a, b := Row(0, 0, 0, 0, deletedAt, map[]), Row(1, 0, 0, 0, deletedAt, map[]);
    if KeptApart(indexes, a, b) {
      var x :| x in indexes && Clash(x, a, b);
      assert KeyFieldsOnly(x);
    }
    if x :| x in indexes && x.unique && KeyFieldsOnly(x) && (hasDeletedAt || x.scope.EveryRow?) {
      forall a: Row, b: Row | Live(a, hasDeletedAt) && Live(b, hasDeletedAt) && SameKey(a, b)
        ensures KeptApart(indexes, a, b)
      {
        assert Clash(x, a, b);
      }
    }
  }

  /**
   * After `up` unique live keys are enforced exactly when it added its index, or the indexes it found had kept any
   * two live rows of a key apart already.
   */
  lemma EnforcedAfterUp(indexes: seq<Index>, others: set<string>, hasDeletedAt: bool)
    ensures Enforced(IndexesAfter(indexes, others, hasDeletedAt), hasDeletedAt) <==>
              || (!AlreadyExists(indexes) && !NameIsTaken(indexes, others))
              || forall a: Row, b: Row ::
                   a.id != b.id && Live(a, hasDeletedAt) && Live(b, hasDeletedAt) && SameKey(a, b) ==>
                     KeptApart(indexes, a, b)
  {
    EnforcedByPairs(IndexesAfter(indexes, others, hasDeletedAt), hasDeletedAt);
    hide Enforced;
    if !AlreadyExists(indexes) && !NameIsTaken(indexes, others) {
      var x, after := NewIndex(hasDeletedAt), IndexesAfter(indexes, others, hasDeletedAt);
      assert after[|indexes|] == x;
      forall a: Row, b: Row | Live(a, hasDeletedAt) && Live(b, hasDeletedAt) && SameKey(a, b)
        ensures KeptApart(after, a, b)
      {
        assert Clash(x, a, b);
      }
    }
  }

  /** Every index covers all rows, or all that are not deleted. */
  ghost predicate HaveNoConditions(indexes: seq<Index>, hasDeletedAt: bool) {
    forall x :: x in indexes ==> x.scope.EveryRow? || (hasDeletedAt && x.scope.UndeletedRows?)
  }

  /** Where no index has a condition of its own, an `up` that does not fail makes sure of unique live keys. */
  lemma UpEnforces(indexes: seq<Index>, others: set<string>, hasDeletedAt: bool)
    requires HaveNoConditions(indexes, hasDeletedAt)
    ensures AlreadyExists(indexes) || !NameIsTaken(indexes, others) ==>
              Enforced(IndexesAfter(indexes, others, hasDeletedAt), hasDeletedAt)
  {
    EnforcedAfterUp(indexes, others, hasDeletedAt);
    hide Enforced;
    if AlreadyExists(indexes) {
      var i :| 0 <= i < |indexes| && Guard(indexes[i]);
      var x := indexes[i];
      assert x in indexes;
      OnlyKeyFields(x);
      forall a: Row, b: Row | Live(a, hasDeletedAt) && Live(b, hasDeletedAt) && SameKey(a, b)
        ensures KeptApart(indexes, a, b)
      {
        assert Clash(x, a, b);
      }
    }
  }

  lemma OnlyKeyFields(x: Index)
    requires Guard(x)
    ensures x.unique && forall f :: f in x.fields ==> f == BusinessId || f == Key
  {
  }

  /** With an index over part of the rows the guard is satisfied, and a live key can be inserted twice. */
  lemma GuardMissesNarrowIndex(others: set<string>)
    ensures var narrow := Index("narrow", true, [BusinessId, Key], SomeRows((r: Row) => r.key == 0));
            IndexesAfter([narrow], others, true) == [narrow] && !Enforced([narrow], true)
  {
    var narrow := Index("narrow", true, [BusinessId, Key], SomeRows((r: Row) => r.key == 0));
    assert Guard([narrow][0]);
    EnforcedByPairs([narrow], true);
    var a, b := Row(1, 7, 1, 0, None, map[]), Row(2, 7, 1, 0, None, map[]);
    assert !KeptApart([narrow], a, b);
  }
}
