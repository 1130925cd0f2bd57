/** Seeding of offers: the best applications of an opening get an offer each, unless their email has one. */
module OfferSeeder {
  import opened Common
  import opened ApplicantSeeder

  datatype Offer = Offer(businessId: nat, email: string, salary: int)

  datatype State = State(apps: seq<Application>, offers: seq<Offer>)

  // ---------------------------------------------------------------- ORDER BY score DESC, createdAt ASC LIMIT

  /** The database returns `a` before `b`; missing scores come first when scores descend. */
  predicate Above(a: Application, b: Application, tie: nat -> int) {
    if a.score != b.score then a.score.None? || (b.score.Some? && a.score.value > b.score.value)
    else if a.createdAt != b.createdAt then a.createdAt < b.createdAt
    else tie(a.id) < tie(b.id)
  }

  function NotBelow(tie: nat -> int): (Application, Application) -> bool {
    (a, b) => !Above(b, a, tie)
  }

  function Ordered(apps: seq<Application>, tie: nat -> int): (r: seq<Application>)
    ensures |r| == |apps|
  {
    Sort(apps, NotBelow(tie))
  }

  function Min(a: int, b: int): int {
    if a < b then a else b
  }

  function Top(apps: seq<Application>, o: Opening, cfg: Config): (r: seq<Application>)
    ensures |r| == if cfg.limit < 1 then 0 else Min(cfg.limit, |Of(apps, o)|)
  {
    if cfg.limit < 1 then [] else Ordered(Of(apps, o), cfg.tie)[..Min(cfg.limit, |Of(apps, o)|)]
  }

  ghost predicate Descending(s: seq<Application>, tie: nat -> int) {
    forall i, j :: 0 <= i < j < |s| ==> !Above(s[j], s[i], tie)
  }

  lemma AboveIsAnOrder(tie: nat -> int)
    ensures IsOrder(NotBelow(tie))
  {
  }

  lemma OrderedDescends(apps: seq<Application>, tie: nat -> int)
    ensures Descending(Ordered(apps, tie), tie)
    ensures multiset(Ordered(apps, tie)) == multiset(apps)
  {
    AboveIsAnOrder(tie);
    SortSorts(apps, NotBelow(tie));
    hide Above, Sort;
    assert forall i, j :: 0 <= i < j < |apps| ==> NotBelow(tie)(Ordered(apps, tie)[i], Ordered(apps, tie)[j]);
  }

  /** The offers go to applications of the opening that no other application of it is above. */
  lemma TopIsHighest(apps: seq<Application>, o: Opening, cfg: Config, x: Application, y: Application)
    requires x in Top(apps, o, cfg) && y in Of(apps, o) && y !in Top(apps, o, cfg)
    ensures x in Of(apps, o) && !Above(y, x, cfg.tie)
  {
    hide Of, Above;
    var all, top := Ordered(Of(apps, o), cfg.tie), Top(apps, o, cfg);
    OrderedDescends(Of(apps, o), cfg.tie);
    var i :| 0 <= i < |top| && top[i] == x;
    assert x in multiset(all) && y in multiset(all);
    var j :| 0 <= j < |all| && all[j] == y;
    if j < |top| { assert top[j] == y; }
    assert all[i] == x;
  }

  /** Whoever is left out has no better score, and with the same score did not come earlier. */
  lemma TopByScore(apps: seq<Application>, o: Opening, cfg: Config, x: Application, y: Application)
    requires x in Top(apps, o, cfg)
    requires y in apps && y.businessId == o.businessId && y.openingId == o.id && y !in Top(apps, o, cfg)
    ensures x in apps && x.businessId == o.businessId && x.openingId == o.id
    ensures x.score.Some? && y.score.Some? ==> x.score.value >= y.score.value
    ensures y.score.None? ==> x.score.None?
    ensures x.score == y.score ==>
              x.createdAt < y.createdAt || (x.createdAt == y.createdAt && cfg.tie(x.id) <= cfg.tie(y.id))
  {
    OfIs(apps, o, y);
    OfIs(apps, o, x);
    assert y in multiset(Of(apps, o));
    hide Top, Of;
    TopIsHighest(apps, o, cfg, x, y);
    assert x in multiset(Of(apps, o));
  }

  // ---------------------------------------------------------------- the loop

  predicate HasOffer(offers: seq<Offer>, businessId: nat, email: string) {
    exists i :: 0 <= i < |offers| && offers[i].businessId == businessId && offers[i].email == email
  }

  /** `application.update({ stage: "offered" })`. */
  function SetStage(apps: seq<Application>, id: nat): (r: seq<Application>)
    ensures |r| == |apps|
  {
    if id < |apps| then apps[id := apps[id].(stage := "offered")] else apps
  }

  /** The tables after the first `n` of the applications. */
  function Offered(s: State, o: Opening, top: seq<Application>, n: nat): State
    requires n <= |top|
  {
    if n == 0 then s
    else
      var before, a := Offered(s, o, top, n - 1), top[n - 1];
      if HasOffer(before.offers, o.businessId, a.email) then before
      else State(SetStage(before.apps, a.id), before.offers + [Offer(o.businessId, a.email, 25000 + (n - 1) * 3500)])
  }

  /** One offer for each of the emails comes after the old offers. */
  ghost predicate OfferedTo(before: seq<Offer>, after: seq<Offer>, businessId: nat, emails: seq<string>) {
    && |after| == |before| + |emails| && after[..|before|] == before
    && forall j :: |before| <= j < |after| ==>
                     after[j].email == emails[j - |before|] && after[j].businessId == businessId
  }

  /** The application at place `k` is the first with its email, and no offer has gone to the email before. */
  predicate GetsOffer(offers: seq<Offer>, o: Opening, top: seq<Application>, k: nat) {
    && k < |top| && (forall x :: x in offers ==> !(x.businessId == o.businessId && x.email == top[k].email))
    && forall j: nat :: j < k ==> top[j].email != top[k].email
  }

  /** Who has had an offer by the first `n` turns. */
  lemma {:induction false} HasOfferByTurn(s: State, o: Opening, top: seq<Application>, n: nat, email: string)
    requires n <= |top|
    ensures HasOffer(Offered(s, o, top, n).offers, o.businessId, email) <==>
              HasOffer(s.offers, o.businessId, email) || exists k: nat :: k < n && top[k].email == email
  {
    hide HasOffer;
    if n > 0 {
      HasOfferByTurn(s, o, top, n - 1, email);
      HasOfferByTurn(s, o, top, n - 1, top[n - 1].email);
      var before, a := Offered(s, o, top, n - 1), top[n - 1];
      OneMoreOffer(before.offers, Offer(o.businessId, a.email, 25000 + (n - 1) * 3500), o.businessId, email);
      assert (exists k: nat :: k < n && top[k].email == email) <==>
               a.email == email || exists k: nat :: k < n - 1 && top[k].email == email;
    }
  }

  lemma HasOfferIs(offers: seq<Offer>, businessId: nat, email: string)
    ensures HasOffer(offers, businessId, email) <==>
              exists x :: x in offers && x.businessId == businessId && x.email == email
  {
    if HasOffer(offers, businessId, email) {
      var i :| 0 <= i < |offers| && offers[i].businessId == businessId && offers[i].email == email;
      assert offers[i] in offers;
    }
  }

  lemma OneMoreOffer(offers: seq<Offer>, x: Offer, businessId: nat, email: string)
    ensures HasOffer(offers + [x], businessId, email) <==>
              HasOffer(offers, businessId, email) || (x.businessId == businessId && x.email == email)
  {
    var all := offers + [x];
    if HasOffer(offers, businessId, email) {
      var i :| 0 <= i < |offers| && offers[i].businessId == businessId && offers[i].email == email;
      assert all[i] == offers[i];
    }
    assert all[|offers|] == x;
  }

  /** The offer and the stage that the loop's turn `k` leaves behind. */
  lemma TurnMeans(s: State, o: Opening, top: seq<Application>, k: nat)
    requires k < |top|
    ensures var before, after, a := Offered(s, o, top, k), Offered(s, o, top, k + 1), top[k];
            if GetsOffer(s.offers, o, top, k) then
              && after.offers == before.offers + [Offer(o.businessId, a.email, 25000 + 3500 * k)]
              && |after.apps| == |before.apps|
              && forall i: nat :: i < |after.apps| ==>
                   after.apps[i] == if i == a.id then before.apps[i].(stage := "offered") else before.apps[i]
            else after == before
  {
    HasOfferByTurn(s, o, top, k, top[k].email);
    HasOfferIs(s.offers, o.businessId, top[k].email);
    hide HasOffer;
  }

  /** The application numbered `i` got an offer within the first `n` turns. */
  predicate IsChosen(offers: seq<Offer>, o: Opening, top: seq<Application>, n: nat, i: nat) {
    exists k: nat :: k < n && GetsOffer(offers, o, top, k) && top[k].id == i
  }

  /** Exactly those chosen have the stage "offered" set; nothing else of any application changes. */
  lemma {:induction false} ChosenAreMarked(s: State, o: Opening, top: seq<Application>, n: nat)
    requires n <= |top|
    ensures var t := Offered(s, o, top, n);
            |t.apps| == |s.apps|
            && forall i: nat :: i < |s.apps| ==>
                 t.apps[i] == if IsChosen(s.offers, o, top, n, i) then s.apps[i].(stage := "offered") else s.apps[i]
  {
    hide GetsOffer, Offered;
    if n == 0 {
      NoTurnYet(s, o, top);
    } else {
      ChosenAreMarked(s, o, top, n - 1);
      TurnMeans(s, o, top, n - 1);
      forall i: nat
        ensures IsChosen(s.offers, o, top, n, i) <==>
                  IsChosen(s.offers, o, top, n - 1, i) || (GetsOffer(s.offers, o, top, n - 1) && top[n - 1].id == i)
      {
      }
      hide IsChosen;
    }
  }

  lemma NoTurnYet(s: State, o: Opening, top: seq<Application>)
    ensures Offered(s, o, top, 0) == s
  {
  }

  /** The offer for place `k` of the list. */
  function OfferFor(o: Opening, top: seq<Application>, k: nat): Offer
    requires k < |top|
  {
    Offer(o.businessId, top[k].email, 25000 + 3500 * k)
  }

  /** The new offers are those for the places chosen. */
  lemma {:induction false} ChosenHaveOffers(s: State, o: Opening, top: seq<Application>, n: nat, x: Offer)
    requires n <= |top|
    ensures var t := Offered(s, o, top, n);
            |s.offers| <= |t.offers| && t.offers[..|s.offers|] == s.offers
            && (x in t.offers[|s.offers|..] <==>
                  exists k: nat :: k < n && GetsOffer(s.offers, o, top, k) && OfferFor(o, top, k) == x)
  {
    hide GetsOffer, Offered;
    if n == 0 {
      NoTurnYet(s, o, top);
    } else {
      ChosenHaveOffers(s, o, top, n - 1, x);
      TurnMeans(s, o, top, n - 1);
      var before, after := Offered(s, o, top, n - 1), Offered(s, o, top, n);
      assert (exists k: nat :: k < n && GetsOffer(s.offers, o, top, k) && OfferFor(o, top, k) == x) <==>
               || (GetsOffer(s.offers, o, top, n - 1) && OfferFor(o, top, n - 1) == x)
               || exists k: nat :: k < n - 1 && GetsOffer(s.offers, o, top, k) && OfferFor(o, top, k) == x;
      if GetsOffer(s.offers, o, top, n - 1) {
        assert after.offers[|s.offers|..] == before.offers[|s.offers|..] + [OfferFor(o, top, n - 1)];
      }
    }
  }

  /** `seedPendingOffersForOpening`. */
  method SeedOffers(s: State, o: Opening, cfg: Config) returns (t: State, created: seq<string>, reused: seq<string>)
    ensures var top := Top(s.apps, o, cfg); t == Offered(s, o, top, |top|)
    ensures |created| + |reused| == if cfg.limit < 1 then 0 else Min(cfg.limit, |Of(s.apps, o)|)
    ensures OfferedTo(s.offers, t.offers, o.businessId, created)
    ensures |t.apps| == |s.apps|
    ensures var top := Top(s.apps, o, cfg);
            forall i: nat :: i < |s.apps| ==>
              t.apps[i] == if IsChosen(s.offers, o, top, |top|, i) then s.apps[i].(stage := "offered") else s.apps[i]
    ensures var top := Top(s.apps, o, cfg);
            forall e :: e in created <==>
                          exists k: nat :: k < |top| && GetsOffer(s.offers, o, top, k) && top[k].email == e
  {
    hide GetsOffer, IsChosen, HasOffer, Top, SetStage;
    t, created, reused := s, [], [];
    var applications := Top(s.apps, o, cfg);
    ChosenAreMarked(s, o, applications, |applications|);
    if cfg.limit < 1 { return; }
    for index := 0 to |applications|
      invariant t == Offered(s, o, applications, index) && |created| + |reused| == index
      invariant OfferedTo(s.offers, t.offers, o.businessId, created)
      invariant forall e :: e in created <==>
                  exists k: nat :: k < index && GetsOffer(s.offers, o, applications, k) && applications[k].email == e
    {
      var a := applications[index];
      TurnMeans(s, o, applications, index);
      if HasOffer(t.offers, o.businessId, a.email) {
        reused := reused + [a.email];
      } else {
        t := State(SetStage(t.apps, a.id), t.offers + [Offer(o.businessId, a.email, 25000 + index * 3500)]);
        created := created + [a.email];
      }
    }
  }

  // ---------------------------------------------------------------- offers are only made where there was none

  /** New offers come after the old ones, none goes where one was, and no two go to the same place. */
  ghost predicate OnlyWhereNone(before: seq<Offer>, after: seq<Offer>) {
    && |before| <= |after| && after[..|before|] == before
    && forall j :: |before| <= j < |after| ==>
                     forall i :: 0 <= i < j ==>
                                   !(after[i].businessId == after[j].businessId && after[i].email == after[j].email)
  }

  lemma OnlyWhereNoneInTurn(a: seq<Offer>, b: seq<Offer>, c: seq<Offer>)
    requires OnlyWhereNone(a, b) && OnlyWhereNone(b, c)
    ensures OnlyWhereNone(a, c)
  {
    assert c[..|a|] == c[..|b|][..|a|];
    forall i, j | |a| <= j < |c| && 0 <= i < j
      ensures !(c[i].businessId == c[j].businessId && c[i].email == c[j].email)
    {
      if j < |b| { assert c[j] == b[j] && c[i] == b[i]; }
    }
  }

  lemma {:induction false} OfferedOnlyWhereNone(s: State, o: Opening, top: seq<Application>, n: nat)
    requires n <= |top|
    ensures OnlyWhereNone(s.offers, Offered(s, o, top, n).offers)
  {
    if n > 0 {
      var before := Offered(s, o, top, n - 1);
      OfferedOnlyWhereNone(s, o, top, n - 1);
      OnlyWhereNoneInTurn(s.offers, before.offers, Offered(s, o, top, n).offers);
    }
  }

  /** Each application looked at ends with an offer to its email. */
  lemma {:induction false} OfferedToAll(s: State, o: Opening, top: seq<Application>, n: nat, k: nat)
    requires k < n <= |top|
    ensures HasOffer(Offered(s, o, top, n).offers, o.businessId, top[k].email)
  {
    var before, after := Offered(s, o, top, n - 1), Offered(s, o, top, n);
    if k < n - 1 {
      OfferedToAll(s, o, top, n - 1, k);
      var i :| 0 <= i < |before.offers|
               && before.offers[i].businessId == o.businessId && before.offers[i].email == top[k].email;
      assert after.offers[i] == before.offers[i];
    } else if !HasOffer(before.offers, o.businessId, top[k].email) {
      assert after.offers[|before.offers|].email == top[k].email;
    }
  }

  /** With an offer to every email nothing is left to do. */
  lemma {:induction false} OfferedNothing(s: State, o: Opening, top: seq<Application>, n: nat)
    requires n <= |top| && forall k :: 0 <= k < |top| ==> HasOffer(s.offers, o.businessId, top[k].email)
    ensures Offered(s, o, top, n) == s
  {
    if n > 0 { OfferedNothing(s, o, top, n - 1); }
  }

  // ---------------------------------------------------------------- stages do not matter to the order

  predicate SameButStage(a: Application, b: Application) {
    a == b.(stage := a.stage)
  }

  ghost predicate AllSameButStage(s: seq<Application>, t: seq<Application>) {
    |s| == |t| && forall i :: 0 <= i < |s| ==> SameButStage(s[i], t[i])
  }

  lemma {:induction false} InsertIgnoresStage(s: seq<Application>, t: seq<Application>, a: Application, b: Application,
                                              tie: nat -> int)
    requires AllSameButStage(s, t) && SameButStage(a, b)
    ensures AllSameButStage(Insert(s, a, NotBelow(tie)), Insert(t, b, NotBelow(tie)))
  {
    if s == [] {
    } else if Above(s[0], a, tie) {
      InsertIgnoresStage(s[1..], t[1..], a, b, tie);
    }
  }

  lemma {:induction false} OrderIgnoresStage(s: seq<Application>, t: seq<Application>, tie: nat -> int)
    requires AllSameButStage(s, t)
    ensures AllSameButStage(Ordered(s, tie), Ordered(t, tie))
  {
    if s == [] {
    } else {
      var n := |s| - 1;
      OrderIgnoresStage(s[..n], t[..n], tie);
      InsertIgnoresStage(Ordered(s[..n], tie), Ordered(t[..n], tie), s[n], t[n], tie);
    }
  }

  lemma {:induction false} OfIgnoresStage(s: seq<Application>, t: seq<Application>, o: Opening)
    requires AllSameButStage(s, t)
    ensures AllSameButStage(Of(s, o), Of(t, o))
  {
    if s == [] {
    } else {
      OfIgnoresStage(s[..|s| - 1], t[..|s| - 1], o);
    }
  }

  /** Offers change applications in nothing but their stage, so the same ones stay on top. */
  lemma {:induction false} OfferedChangesStages(s: State, o: Opening, top: seq<Application>, n: nat)
    requires n <= |top|
    ensures AllSameButStage(Offered(s, o, top, n).apps, s.apps)
  {
    if n > 0 { OfferedChangesStages(s, o, top, n - 1); }
  }

  lemma TopIgnoresStage(s: seq<Application>, t: seq<Application>, o: Opening, cfg: Config)
    requires AllSameButStage(s, t)
    ensures AllSameButStage(Top(s, o, cfg), Top(t, o, cfg))
  {
    OfIgnoresStage(s, t, o);
    OrderIgnoresStage(Of(s, o), Of(t, o), cfg.tie);
  }

  // ---------------------------------------------------------------- other openings

  /** What is on top for an opening is for it. */
  lemma {:induction false} OfIsFor(apps: seq<Application>, o: Opening)
    requires Numbered(apps)
    ensures forall a :: a in Of(apps, o) ==> IsFor(a, o) && a.id < |apps| && apps[a.id] == a
  {
    if apps == [] {
    } else {
      OfIsFor(apps[..|apps| - 1], o);
    }
  }

  lemma TopIsFor(apps: seq<Application>, o: Opening, cfg: Config)
    requires Numbered(apps)
    ensures forall a :: a in Top(apps, o, cfg) ==> IsFor(a, o) && a.id < |apps| && apps[a.id] == a
  {
    OfIsFor(apps, o);
    OrderedDescends(Of(apps, o), cfg.tie);
    forall a | a in Top(apps, o, cfg)
      ensures a in Of(apps, o)
    {
      assert a in multiset(Ordered(Of(apps, o), cfg.tie));
    }
  }

  lemma {:induction false} SameOf(s: seq<Application>, t: seq<Application>, p: Opening)
    requires |s| == |t| && forall i :: 0 <= i < |s| ==> s[i] == t[i] || (!IsFor(s[i], p) && !IsFor(t[i], p))
    ensures Of(s, p) == Of(t, p)
  {
    if s == [] {
    } else {
      SameOf(s[..|s| - 1], t[..|s| - 1], p);
    }
  }

  /** Offers for one opening leave the applications for the others as they are. */
  lemma {:induction false} OfferedElsewhere(s: State, o: Opening, top: seq<Application>, n: nat, p: Opening)
    requires n <= |top| && p.id != o.id
    requires forall a :: a in top ==> IsFor(a, o) && a.id < |s.apps| && s.apps[a.id] == a
    ensures var t := Offered(s, o, top, n);
            |t.apps| == |s.apps| && forall i :: 0 <= i < |s.apps| ==> t.apps[i] == s.apps[i] || !IsFor(s.apps[i], p)
    ensures Of(Offered(s, o, top, n).apps, p) == Of(s.apps, p)
  {
    OfferedChangesStages(s, o, top, n);
    if n > 0 {
      OfferedElsewhere(s, o, top, n - 1, p);
      assert IsFor(top[n - 1], o);
    }
    SameOf(Offered(s, o, top, n).apps, s.apps, p);
  }

  lemma StagesKeepNumbers(s: seq<Application>, t: seq<Application>)
    requires AllSameButStage(s, t) && Numbered(t)
    ensures Numbered(s)
  {
  }
}
