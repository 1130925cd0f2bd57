/** A second seeding run, with tied applications in any order: the exact condition for no change. */
module PostingSeedAgain {
  import opened Common
  import opened ApplicantSeeder
  import opened OfferSeeder
  import opened PostingSeed

  /** The query's own order, which leaves ties open. */
  predicate Before(a: Application, b: Application) {
    if a.score != b.score then a.score.None? || (b.score.Some? && a.score.value > b.score.value)
    else a.createdAt < b.createdAt
  }

  /** How many of the applications come before `a` in every order. */
  function BeforeCount(s: seq<Application>, a: Application): nat {
    |Filter(s, x => Before(x, a))|
  }

  /** Fewer than `limit` applications of the opening come before `a` in every order. */
  predicate MayBeOnTop(apps: seq<Application>, o: Opening, limit: int, a: Application) {
    a in Of(apps, o) && BeforeCount(Of(apps, o), a) < limit
  }

  // ---------------------------------------------------------------- counting

  lemma {:induction false} FilterTogether<T>(s: seq<T>, t: seq<T>, p: T -> bool)
    ensures Filter(s + t, p) == Filter(s, p) + Filter(t, p)
  {
    if s == [] {
      assert s + t == t;
    } else {
      assert (s + t)[1..] == s[1..] + t;
      FilterTogether(s[1..], t, p);
    }
  }

  lemma {:induction false} FilterAllOrNone<T>(s: seq<T>, p: T -> bool)
    ensures (forall x :: x in s ==> p(x)) ==> Filter(s, p) == s
    ensures (forall x :: x in s ==> !p(x)) ==> Filter(s, p) == []
  {
    if s == [] {
    } else {
      assert s == [s[0]] + s[1..];
      FilterAllOrNone(s[1..], p);
    }
  }

  /** The count does not depend on the order of the applications. */
  lemma CountInAnyOrder(s: seq<Application>, t: seq<Application>, a: Application)
    requires multiset(s) == multiset(t)
    ensures BeforeCount(s, a) == BeforeCount(t, a)
  {
    hide Before, Filter;
    var p := (x: Application) => Before(x, a);
    forall x: Application
      ensures multiset(Filter(s, p))[x] == multiset(Filter(t, p))[x]
    {
      FilterMultiplicity(s, p, x);
      FilterMultiplicity(t, p, x);
    }
    assert multiset(Filter(s, p)) == multiset(Filter(t, p));
    assert |multiset(Filter(s, p))| == |multiset(Filter(t, p))|;
  }

  lemma CountInParts(s: seq<Application>, i: nat, a: Application)
    requires i <= |s|
    ensures BeforeCount(s, a) == BeforeCount(s[..i], a) + BeforeCount(s[i..], a)
    ensures BeforeCount(s[..i], a) <= i
    ensures (forall x :: x in s[..i] ==> Before(x, a)) ==> BeforeCount(s[..i], a) == i
    ensures (forall x :: x in s[i..] ==> !Before(x, a)) ==> BeforeCount(s[i..], a) == 0
  {
    var p := (x: Application) => Before(x, a);
    assert s == s[..i] + s[i..];
    FilterTogether(s[..i], s[i..], p);
    FilterAllOrNone(s[..i], p);
    FilterAllOrNone(s[i..], p);
  }

  // ---------------------------------------------------------------- who may be on top

  /** Whatever the order of ties, only those that may be on top are. */
  lemma TopMayBe(apps: seq<Application>, o: Opening, cfg: Config, x: Application)
    requires x in Top(apps, o, cfg)
    ensures MayBeOnTop(apps, o, cfg.limit, x)
  {
    hide Of, BeforeCount;
    var all, top := Ordered(Of(apps, o), cfg.tie), Top(apps, o, cfg);
    OrderedDescends(Of(apps, o), cfg.tie);
    var i :| 0 <= i < |top| && top[i] == x;
    assert all[i] == x && x in multiset(all);
    forall y | y in all[i..]
      ensures !Before(y, x)
    {
      var j :| i <= j < |all| && all[j] == y;
      if i < j { assert !Above(all[j], all[i], cfg.tie); }
    }
    CountInParts(all, i, x);
    CountInAnyOrder(all, Of(apps, o), x);
  }

  /** The order of ties that puts one application first among those tied with it. */
  function Favouring(id: nat): nat -> int {
    x => if x == id then 0 else 1
  }

  lemma FirstIndex(s: seq<Application>, a: Application) returns (i: nat)
    requires a in s
    ensures i < |s| && s[i] == a && a !in s[..i]
  {
    if s[0] == a {
      i := 0;
    } else {
      assert s == [s[0]] + s[1..];
      var j := FirstIndex(s[1..], a);
      i := j + 1;
      assert s[..i] == [s[0]] + s[1..][..j];
    }
  }

  lemma BeforeFavoured(y: Application, a: Application)
    requires !Above(a, y, Favouring(a.id)) && y.id != a.id
    ensures Before(y, a)
  {
  }

  /** Everything that comes first is before the favoured application in every order. */
  lemma FavouredComes(all: seq<Application>, a: Application, limit: int) returns (i: nat)
    requires Descending(all, Favouring(a.id)) && (forall x :: x in all && x.id == a.id ==> x == a)
    requires a in all && BeforeCount(all, a) < limit
    ensures i < |all| && i < limit && all[i] == a
  {
    hide BeforeCount, Above, Before, Favouring;
    i := FirstIndex(all, a);
    forall y | y in all[..i]
      ensures Before(y, a)
    {
      var j :| 0 <= j < i && all[j] == y;
      assert all[j] == all[..i][j];
      BeforeFavoured(y, a);
    }
    CountInParts(all, i, a);
  }

  /** Whoever may be on top is, in some order of ties. */
  lemma FavouredIsOnTop(apps: seq<Application>, o: Opening, cfg: Config, a: Application)
    requires Numbered(apps) && MayBeOnTop(apps, o, cfg.limit, a)
    ensures a in Top(apps, o, cfg.(tie := Favouring(a.id)))
  {
    hide Of, BeforeCount, Ordered, Descending, Numbered, Favouring;
    var s, tie := Of(apps, o), Favouring(a.id);
    var all := Ordered(s, tie);
    OrderedDescends(s, tie);
    OneOfEach(apps, o, a);
    CountInAnyOrder(all, s, a);
    assert a in multiset(all);
    forall x | x in all && x.id == a.id
      ensures x == a
    {
      assert x in multiset(all);
    }
    var i := FavouredComes(all, a, cfg.limit);
    assert Top(apps, o, cfg.(tie := tie))[i] == a;
  }

  lemma OneOfEach(apps: seq<Application>, o: Opening, a: Application)
    requires Numbered(apps) && a in Of(apps, o)
    ensures forall x :: x in Of(apps, o) && x.id == a.id ==> x == a
  {
    hide Of, Numbered, IsFor;
    OfIsFor(apps, o);
  }

  // ---------------------------------------------------------------- some run there is

  /** The number of applications goes up by one at a time. */
  lemma {:induction false} GrownReaches(apps: seq<Application>, o: Opening, cfg: Config, n: nat, m: nat)
    returns (k: nat)
    requires |apps| <= m <= |Grown(apps, o, cfg, n)|
    ensures |Grown(apps, o, cfg, k)| == m
  {
    hide NewApplication, Taken, EmailAt;
    k := n;
    if m < |Grown(apps, o, cfg, n)| { k := GrownReaches(apps, o, cfg, n - 1, m); }
  }

  lemma SomeApplicants(apps: seq<Application>, o: Opening, cfg: Config) returns (after: seq<Application>)
    ensures ApplicantsSeeded(apps, after, o, cfg)
  {
    hide Grown, Of;
    var n := |Of(apps, o)| + Missing(apps, o, cfg);
    Pigeonhole(apps, o, cfg, n);
    var k := GrownReaches(apps, o, cfg, n, |apps| + Missing(apps, o, cfg));
    after := Grown(apps, o, cfg, k);
  }

  lemma {:induction false} SomeRun(s: State, openings: seq<Opening>, cfg: Config) returns (t: State)
    ensures Ran(s, t, openings, cfg)
    decreases |openings|
  {
    hide ApplicantsSeeded, WithOffers;
    if openings == [] {
      t := s;
    } else {
      var n := |openings| - 1;
      var mid := SomeRun(s, openings[..n], cfg);
      var apps := SomeApplicants(mid.apps, openings[n], cfg);
      t := WithOffers(State(apps, mid.offers), openings[n], cfg);
      assert Seeded(mid, t, openings[n], cfg);
    }
  }

  // ---------------------------------------------------------------- the condition

  /** Every application that may be on top has an offer. */
  ghost predicate EachHasOffer(t: State, openings: seq<Opening>, limit: int) {
    forall o, a :: o in openings && MayBeOnTop(t.apps, o, limit, a) ==> HasOffer(t.offers, o.businessId, a.email)
  }

  /** Whatever order of ties a run meets, it changes nothing. */
  ghost predicate RunsAddNothing(t: State, openings: seq<Opening>, cfg: Config) {
    forall tie: nat -> int, u: State :: Ran(t, u, openings, cfg.(tie := tie)) ==> u == t
  }

  lemma EachHasOfferSettles(t: State, openings: seq<Opening>, cfg: Config, tie: nat -> int, u: State)
    requires forall o :: o in openings ==> Missing(t.apps, o, cfg) == 0
    requires EachHasOffer(t, openings, cfg.limit) && Ran(t, u, openings, cfg.(tie := tie))
    ensures u == t
  {
    hide Ran, MayBeOnTop, HasOffer, Top, Of;
    var other := cfg.(tie := tie);
    forall o | o in openings
      ensures Settled(t, o, other)
    {
      assert Missing(t.apps, o, other) == Missing(t.apps, o, cfg);
      forall k | 0 <= k < |Top(t.apps, o, other)|
        ensures HasOffer(t.offers, o.businessId, Top(t.apps, o, other)[k].email)
      {
        TopMayBe(t.apps, o, other, Top(t.apps, o, other)[k]);
      }
    }
    SettledRunsNothing(t, u, openings, other);
  }

  /** Without an offer to somebody who may be on top, the order of ties that favours them makes one. */
  lemma SomebodyGetsOffer(t: State, openings: seq<Opening>, cfg: Config, o: Opening, a: Application)
    requires Numbered(t.apps) && DifferentOpenings(openings) && o in openings
    requires MayBeOnTop(t.apps, o, cfg.limit, a) && !HasOffer(t.offers, o.businessId, a.email)
    ensures !RunsAddNothing(t, openings, cfg)
  {
    hide Ran, MayBeOnTop, HasOffer, Top, Of, Missing;
    var other := cfg.(tie := Favouring(a.id));
    var u := SomeRun(t, openings, other);
    RunSettles(t, u, openings, other);
    FavouredIsOnTop(t.apps, o, cfg, a);
    assert Settled(u, o, other);
  }

  /**
   * With no applicant missing, no run changes anything, whatever order of ties it meets, exactly when everybody who
   * may be on top has an offer.
   */
  lemma RunsAddNothingIff(t: State, openings: seq<Opening>, cfg: Config)
    requires Numbered(t.apps) && DifferentOpenings(openings)
    requires forall o :: o in openings ==> Missing(t.apps, o, cfg) == 0
    ensures RunsAddNothing(t, openings, cfg) <==> EachHasOffer(t, openings, cfg.limit)
  {
    hide Ran, MayBeOnTop, HasOffer, Missing;
    if EachHasOffer(t, openings, cfg.limit) {
      forall tie: nat -> int, u: State | Ran(t, u, openings, cfg.(tie := tie))
        ensures u == t
      {
        EachHasOfferSettles(t, openings, cfg, tie, u);
      }
    } else {
      var o, a :| o in openings && MayBeOnTop(t.apps, o, cfg.limit, a) && !HasOffer(t.offers, o.businessId, a.email);
      SomebodyGetsOffer(t, openings, cfg, o, a);
    }
  }

  /** So it is after a run, which leaves no applicant missing. */
  lemma SecondRunAddsNothingIff(s: State, t: State, openings: seq<Opening>, cfg: Config)
    requires Numbered(s.apps) && DifferentOpenings(openings) && Ran(s, t, openings, cfg)
    ensures RunsAddNothing(t, openings, cfg) <==> EachHasOffer(t, openings, cfg.limit)
  {
    hide Ran, Missing, RunsAddNothing, EachHasOffer;
    RunSettles(s, t, openings, cfg);
    RunsAddNothingIff(t, openings, cfg);
  }
}
