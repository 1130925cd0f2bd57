/** The seeding run over all openings of a business. */
module PostingSeed {
  import opened Common
  import opened ApplicantSeeder
  import opened OfferSeeder

  datatype Failure = BadTarget | BadLimit

  /** What one turn of the loop does: applicants first, then offers on the applications there are by then. */
  ghost predicate Seeded(s: State, t: State, o: Opening, cfg: Config) {
    exists apps :: ApplicantsSeeded(s.apps, apps, o, cfg) && t == WithOffers(State(apps, s.offers), o, cfg)
  }

  ghost function WithOffers(s: State, o: Opening, cfg: Config): State {
    Offered(s, o, Top(s.apps, o, cfg), |Top(s.apps, o, cfg)|)
  }

  ghost predicate Ran(s: State, t: State, openings: seq<Opening>, cfg: Config)
    decreases |openings|
  {
    if openings == [] then t == s
    else
      var n := |openings| - 1;
      exists mid :: Ran(s, mid, openings[..n], cfg) && Seeded(mid, t, openings[n], cfg)
  }

  class Board {
    var state: State

    constructor (state: State)
      ensures this.state == state
    {
      this.state := state;
    }

    /** `run`, once it has found the business and its active openings. */
    method Run(openings: seq<Opening>, cfg: Config) returns (r: Result<(), Failure>)
      modifies this
      ensures cfg.target < 1.0 ==> r == Err(BadTarget)
      ensures cfg.target >= 1.0 && cfg.limit < 0 ==> r == Err(BadLimit)
      ensures r.Ok? <==> cfg.target >= 1.0 && cfg.limit >= 0
      ensures r.Err? ==> state == old(state)
      ensures r.Ok? ==> Ran(old(state), state, openings, cfg)
    {
      if cfg.target < 1.0 { return Err(BadTarget); }
      if cfg.limit < 0 { return Err(BadLimit); }
      ghost var s := state;
      for i := 0 to |openings|
        invariant Ran(s, state, openings[..i], cfg)
      {
        ghost var mid := state;
        var apps, createdApplicants, reusedApplicants := SeedApplicants(state.apps, openings[i], cfg);
        state := State(apps, state.offers);
        var t, createdOffers, reusedOffers := SeedOffers(state, openings[i], cfg);
        state := t;
        assert Seeded(mid, state, openings[i], cfg);
        assert openings[..i + 1][..i] == openings[..i];
      }
      assert openings[..|openings|] == openings;
      r := Ok(());
    }
  }

  // ---------------------------------------------------------------- all openings together

  lemma SeededOnlyWhereNone(s: State, t: State, o: Opening, cfg: Config)
    requires Seeded(s, t, o, cfg)
    ensures OnlyWhereNone(s.offers, t.offers)
  {
    hide OnlyWhereNone, Offered, Top, ApplicantsSeeded;
    var apps :| ApplicantsSeeded(s.apps, apps, o, cfg) && t == WithOffers(State(apps, s.offers), o, cfg);
    OfferedOnlyWhereNone(State(apps, s.offers), o, Top(apps, o, cfg), |Top(apps, o, cfg)|);
  }

  /** Over all openings, at most one offer per business and email is made, and only where there was none. */
  lemma {:induction false} RunOffersOnlyWhereNone(s: State, t: State, openings: seq<Opening>, cfg: Config)
    requires Ran(s, t, openings, cfg)
    ensures OnlyWhereNone(s.offers, t.offers)
    decreases |openings|
  {
    hide OnlyWhereNone, Seeded;
    if openings == [] {
      SameOffers(s.offers);
    } else {
      var n := |openings| - 1;
      var mid :| Ran(s, mid, openings[..n], cfg) && Seeded(mid, t, openings[n], cfg);
      RunOffersOnlyWhereNone(s, mid, openings[..n], cfg);
      SeededOnlyWhereNone(mid, t, openings[n], cfg);
      OnlyWhereNoneInTurn(s.offers, mid.offers, t.offers);
    }
  }

  lemma SameOffers(offers: seq<Offer>)
    ensures OnlyWhereNone(offers, offers)
  {
  }

  /** Nothing is left to do for the opening: no applicant is missing and the best applications have their offers. */
  ghost predicate Settled(s: State, o: Opening, cfg: Config) {
    && Missing(s.apps, o, cfg) == 0
    && forall k :: 0 <= k < |Top(s.apps, o, cfg)| ==> HasOffer(s.offers, o.businessId, Top(s.apps, o, cfg)[k].email)
  }

  lemma OfferStays(before: seq<Offer>, after: seq<Offer>, businessId: nat, email: string)
    requires OnlyWhereNone(before, after) && HasOffer(before, businessId, email)
    ensures HasOffer(after, businessId, email)
  {
    var i :| 0 <= i < |before| && before[i].businessId == businessId && before[i].email == email;
    assert after[i] == before[i];
  }

  lemma SeededSettles(s: State, t: State, o: Opening, cfg: Config)
    requires Numbered(s.apps) && Seeded(s, t, o, cfg)
    ensures Settled(t, o, cfg) && Numbered(t.apps)
    ensures |t.apps| >= |s.apps| && AllSameButStage(t.apps[..|s.apps|], s.apps)
    ensures |Of(t.apps, o)| as int == if |Of(s.apps, o)| > Ceil(cfg.target) then |Of(s.apps, o)| else Ceil(cfg.target)
  {
    hide Offered, Of, Top, HasOffer;
    var apps :| ApplicantsSeeded(s.apps, apps, o, cfg) && t == WithOffers(State(apps, s.offers), o, cfg);
    SeedingFillsUp(s.apps, apps, o, cfg);
    var mid, top := State(apps, s.offers), Top(apps, o, cfg);
    OfferedChangesStages(mid, o, top, |top|);
    StagesKeepNumbers(t.apps, apps);
    OfIgnoresStage(t.apps, apps, o);
    TopIgnoresStage(t.apps, apps, o, cfg);
    forall k | 0 <= k < |Top(t.apps, o, cfg)|
      ensures HasOffer(t.offers, o.businessId, Top(t.apps, o, cfg)[k].email)
    {
      OfferedToAll(mid, o, top, |top|, k);
      assert SameButStage(Top(t.apps, o, cfg)[k], top[k]);
    }
    forall i | 0 <= i < |s.apps|
      ensures SameButStage(t.apps[..|s.apps|][i], s.apps[i])
    {
      assert apps[..|s.apps|][i] == apps[i];
    }
  }

  /** Turns for other openings do not unsettle an opening. */
  lemma SettledStays(s: State, t: State, o: Opening, p: Opening, cfg: Config)
    requires Numbered(s.apps) && Seeded(s, t, o, cfg) && p.id != o.id
    ensures Of(t.apps, p) == Of(s.apps, p)
    ensures Settled(s, p, cfg) ==> Settled(t, p, cfg)
  {
    hide Offered, Of, HasOffer, OnlyWhereNone;
    var apps :| ApplicantsSeeded(s.apps, apps, o, cfg) && t == WithOffers(State(apps, s.offers), o, cfg);
    SeedingFillsUp(s.apps, apps, o, cfg);
    var mid, top := State(apps, s.offers), Top(apps, o, cfg);
    TopIsFor(apps, o, cfg);
    OfferedElsewhere(mid, o, top, |top|, p);
    OfferedOnlyWhereNone(mid, o, top, |top|);
    assert Top(t.apps, p, cfg) == Top(s.apps, p, cfg);
    if Settled(s, p, cfg) {
      forall k | 0 <= k < |Top(s.apps, p, cfg)|
        ensures HasOffer(t.offers, p.businessId, Top(s.apps, p, cfg)[k].email)
      {
        OfferStays(s.offers, t.offers, p.businessId, Top(s.apps, p, cfg)[k].email);
      }
    }
  }

  lemma SettledSeedsNothing(s: State, t: State, o: Opening, cfg: Config)
    requires Settled(s, o, cfg) && Seeded(s, t, o, cfg)
    ensures t == s
  {
    hide Offered, Of, HasOffer;
    var apps :| ApplicantsSeeded(s.apps, apps, o, cfg) && t == WithOffers(State(apps, s.offers), o, cfg);
    FullSeedsNothing(s.apps, apps, o, cfg);
    OfferedNothing(s, o, Top(s.apps, o, cfg), |Top(s.apps, o, cfg)|);
  }

  ghost predicate DifferentOpenings(openings: seq<Opening>) {
    forall i, j :: 0 <= i < j < |openings| ==> openings[i].id != openings[j].id
  }

  /**
   * After a run every opening is settled and has the target number of applicants, or as many as before if they were
   * more.
   */
  lemma {:induction false} RunSettles(s: State, t: State, openings: seq<Opening>, cfg: Config)
    requires Numbered(s.apps) && DifferentOpenings(openings) && Ran(s, t, openings, cfg)
    ensures Numbered(t.apps) && |t.apps| >= |s.apps| && AllSameButStage(t.apps[..|s.apps|], s.apps)
    ensures forall o :: o in openings ==>
              Settled(t, o, cfg)
              && |Of(t.apps, o)| as int ==
                   if |Of(s.apps, o)| > Ceil(cfg.target) then |Of(s.apps, o)| else Ceil(cfg.target)
    ensures forall p: Opening :: (forall o :: o in openings ==> o.id != p.id) ==> Of(t.apps, p) == Of(s.apps, p)
    decreases |openings|
  {
    hide Settled, Of, Seeded;
    if openings == [] {
    } else {
      var n := |openings| - 1;
      var last := openings[n];
      var mid :| Ran(s, mid, openings[..n], cfg) && Seeded(mid, t, last, cfg);
      RunSettles(s, mid, openings[..n], cfg);
      SeededSettles(mid, t, last, cfg);
      assert forall o :: o in openings[..n] ==> o.id != last.id;
      forall p: Opening | p.id != last.id
        ensures Of(t.apps, p) == Of(mid.apps, p) && (Settled(mid, p, cfg) ==> Settled(t, p, cfg))
      {
        SettledStays(mid, t, last, p, cfg);
      }
      forall o | o in openings
        ensures o == last || o in openings[..n]
      {
      }
      assert forall i :: 0 <= i < |s.apps| ==> t.apps[..|s.apps|][i] == t.apps[..|mid.apps|][i];
    }
  }

  lemma {:induction false} SettledRunsNothing(s: State, t: State, openings: seq<Opening>, cfg: Config)
    requires Ran(s, t, openings, cfg) && forall o :: o in openings ==> Settled(s, o, cfg)
    ensures t == s
    decreases |openings|
  {
    hide Settled, Seeded;
    if openings == [] {
    } else {
      var n := |openings| - 1;
      var mid :| Ran(s, mid, openings[..n], cfg) && Seeded(mid, t, openings[n], cfg);
      SettledRunsNothing(s, mid, openings[..n], cfg);
      SettledSeedsNothing(s, t, openings[n], cfg);
    }
  }

  /** A second run over the same openings changes nothing, whatever order the database settled on for ties. */
  lemma SecondRunAddsNothing(s: State, t: State, u: State, openings: seq<Opening>, cfg: Config)
    requires Numbered(s.apps) && DifferentOpenings(openings)
    requires Ran(s, t, openings, cfg) && Ran(t, u, openings, cfg)
    ensures u == t
  {
    hide Settled, Ran;
    RunSettles(s, t, openings, cfg);
    SettledRunsNothing(t, u, openings, cfg);
  }

  // ---------------------------------------------------------------- stages

  /** Between the two states an application was marked only for an offer, and every offer marked an application. */
  ghost predicate Marks(s: State, t: State) {
    && |s.apps| <= |t.apps| && |s.offers| <= |t.offers| && t.offers[..|s.offers|] == s.offers
    && (forall i :: 0 <= i < |s.apps| ==>
          || t.apps[i] == s.apps[i]
          || (t.apps[i] == s.apps[i].(stage := "offered") && IsOffered(t.offers, |s.offers|, s.apps[i])))
    && (forall j :: |s.offers| <= j < |t.offers| ==> IsMarked(t.apps, t.offers[j]))
  }

  /** One of the offers from number `n` on goes to the application's email, for its business. */
  ghost predicate IsOffered(offers: seq<Offer>, n: nat, a: Application) {
    exists j :: n <= j < |offers| && offers[j].businessId == a.businessId && offers[j].email == a.email
  }

  /** An application with the offer's business and email has the stage "offered". */
  ghost predicate IsMarked(apps: seq<Application>, x: Offer) {
    exists i :: 0 <= i < |apps| && apps[i].businessId == x.businessId && apps[i].email == x.email
             && apps[i].stage == "offered"
  }

  lemma MarkedStays(a: seq<Application>, b: seq<Application>, x: Offer)
    requires |a| <= |b| && forall i :: 0 <= i < |a| ==> b[i] == a[i] || b[i] == a[i].(stage := "offered")
    requires IsMarked(a, x)
    ensures IsMarked(b, x)
  {
    var i :| 0 <= i < |a| && a[i].businessId == x.businessId && a[i].email == x.email && a[i].stage == "offered";
    assert b[i].stage == "offered";
  }

  lemma MarksInTurn(a: State, b: State, c: State)
    requires Marks(a, b) && Marks(b, c)
    ensures Marks(a, c)
  {
    assert c.offers[..|a.offers|] == c.offers[..|b.offers|][..|a.offers|];
    forall j | |a.offers| <= j < |c.offers|
      ensures IsMarked(c.apps, c.offers[j])
    {
      if j < |b.offers| {
        assert c.offers[j] == c.offers[..|b.offers|][j] == b.offers[j];
        MarkedStays(b.apps, c.apps, b.offers[j]);
      }
    }
    hide IsMarked;
    forall i | 0 <= i < |a.apps| && c.apps[i] != a.apps[i]
      ensures c.apps[i] == a.apps[i].(stage := "offered") && IsOffered(c.offers, |a.offers|, a.apps[i])
    {
      if b.apps[i] != a.apps[i] {
        var j :| |a.offers| <= j < |b.offers| && b.offers[j].businessId == a.apps[i].businessId
                 && b.offers[j].email == a.apps[i].email;
        assert c.offers[j] == c.offers[..|b.offers|][j] == b.offers[j];
      }
    }
  }

  /** One opening's offers. */
  lemma OfferedMarks(s: State, o: Opening, cfg: Config)
    requires Numbered(s.apps)
    ensures Marks(s, WithOffers(s, o, cfg))
  {
    hide Top, Of, Offered, GetsOffer, HasOffer;
    var top, t := Top(s.apps, o, cfg), WithOffers(s, o, cfg);
    TopIsFor(s.apps, o, cfg);
    ChosenAreMarked(s, o, top, |top|);
    ChosenHaveOffers(s, o, top, |top|, Offer(0, "", 0));
    forall j | |s.offers| <= j < |t.offers|
      ensures IsMarked(t.apps, t.offers[j])
    {
      assert t.offers[j] == t.offers[|s.offers|..][j - |s.offers|];
      ChosenHaveOffers(s, o, top, |top|, t.offers[j]);
      var k: nat :| k < |top| && GetsOffer(s.offers, o, top, k) && OfferFor(o, top, k) == t.offers[j];
      assert top[k] in top && IsChosen(s.offers, o, top, |top|, top[k].id);
      assert t.apps[top[k].id].stage == "offered";
    }
    forall i: nat | i < |s.apps| && t.apps[i] != s.apps[i]
      ensures IsOffered(t.offers, |s.offers|, s.apps[i])
    {
      var k: nat :| k < |top| && GetsOffer(s.offers, o, top, k) && top[k].id == i;
      ChosenHaveOffers(s, o, top, |top|, OfferFor(o, top, k));
      assert top[k] in top && OfferFor(o, top, k) in t.offers[|s.offers|..];
      var j :| 0 <= j < |t.offers[|s.offers|..]| && t.offers[|s.offers|..][j] == OfferFor(o, top, k);
      assert t.offers[|s.offers| + j] == OfferFor(o, top, k);
    }
  }

  lemma SeededMarks(s: State, t: State, o: Opening, cfg: Config)
    requires Numbered(s.apps) && Seeded(s, t, o, cfg)
    ensures Marks(s, t)
  {
    hide Offered, Of, Top, WithOffers, IsOffered, IsMarked;
    var apps :| ApplicantsSeeded(s.apps, apps, o, cfg) && t == WithOffers(State(apps, s.offers), o, cfg);
    SeedingFillsUp(s.apps, apps, o, cfg);
    assert forall i :: 0 <= i < |s.apps| ==> apps[..|s.apps|][i] == apps[i];
    assert Marks(s, State(apps, s.offers));
    OfferedMarks(State(apps, s.offers), o, cfg);
    MarksInTurn(s, State(apps, s.offers), t);
  }

  /**
   * Over all openings: an application changes only by being marked as offered, for a new offer to its email, and every
   * new offer has an application with its email that is so marked.
   */
  lemma {:induction false} RunMarks(s: State, t: State, openings: seq<Opening>, cfg: Config)
    requires Numbered(s.apps) && DifferentOpenings(openings) && Ran(s, t, openings, cfg)
    ensures Marks(s, t)
    decreases |openings|
  {
    hide Marks, Seeded, Settled;
    if openings == [] {
      NothingMarks(s);
    } else {
      var n := |openings| - 1;
      var mid :| Ran(s, mid, openings[..n], cfg) && Seeded(mid, t, openings[n], cfg);
      RunMarks(s, mid, openings[..n], cfg);
      RunSettles(s, mid, openings[..n], cfg);
      SeededMarks(mid, t, openings[n], cfg);
      MarksInTurn(s, mid, t);
    }
  }

  lemma NothingMarks(s: State)
    ensures Marks(s, s)
  {
  }

  // ---------------------------------------------------------------- the order of ties matters

  /** For an opening with two applications that the query does not tell apart, and one offer to give. */
  function Tied(o: Opening, email: string, other: string): seq<Application> {
    [Application(0, o.businessId, o.id, email, None, 0, "applied"),
     Application(1, o.businessId, o.id, other, None, 0, "applied")]
  }

  function OneOffer(tie: nat -> int): Config {
    Config(2.0, 1, "example.com", n => 0, tie)
  }

  lemma FirstOfTwo(apps: seq<Application>, o: Opening, tie: nat -> int)
    requires |apps| == 2 && IsFor(apps[0], o) && IsFor(apps[1], o)
    ensures Missing(apps, o, OneOffer(tie)) == 0
    ensures Top(apps, o, OneOffer(tie)) == [if Above(apps[0], apps[1], tie) then apps[0] else apps[1]]
  {
    assert Of(apps[..1], o) == [apps[0]] && Of(apps, o) == apps;
    assert apps[..1] == [apps[0]] && [apps[0]][..0] == [];
    assert Sort([apps[0]], NotBelow(tie)) == [apps[0]];
    assert Sort(apps, NotBelow(tie)) == Insert([apps[0]], apps[1], NotBelow(tie));
    assert Ceil(2.0) == 2;
  }

  lemma OneTurn(s: State, o: Opening, tie: nat -> int)
    requires |s.apps| == 2 && IsFor(s.apps[0], o) && IsFor(s.apps[1], o)
    ensures Ran(s, WithOffers(s, o, OneOffer(tie)), [o], OneOffer(tie))
  {
    var cfg := OneOffer(tie);
    FirstOfTwo(s.apps, o, tie);
    hide Top, Offered, Missing, Of;
    assert s.apps == Grown(s.apps, o, cfg, 0);
    assert ApplicantsSeeded(s.apps, s.apps, o, cfg);
    assert Seeded(s, WithOffers(s, o, cfg), o, cfg);
    assert Ran(s, s, [], cfg) && [o][..0] == [];
  }

  lemma TurnOffers(s: State, o: Opening, cfg: Config, x: Application)
    requires Top(s.apps, o, cfg) == [x] && !HasOffer(s.offers, o.businessId, x.email)
    ensures WithOffers(s, o, cfg) == State(SetStage(s.apps, x.id), s.offers + [Offer(o.businessId, x.email, 25000)])
  {
    hide Top;
    assert Offered(s, o, [x], 0) == s;
  }

  function AsCreated(id: nat): int {
    id
  }

  function LastFirst(id: nat): int {
    -(id as int)
  }

  /** When ties come in another order on the second run, it offers the job to somebody else. */
  lemma OtherTiesOfferAgain(o: Opening, email: string, other: string) returns (t: State, u: State)
    requires email != other
    ensures Ran(State(Tied(o, email, other), []), t, [o], OneOffer(AsCreated)) && Ran(t, u, [o], OneOffer(LastFirst))
    ensures t.offers == [Offer(o.businessId, email, 25000)]
    ensures u.offers == [Offer(o.businessId, email, 25000), Offer(o.businessId, other, 25000)]
  {
    var s := State(Tied(o, email, other), []);
    FirstOfTwo(s.apps, o, AsCreated);
    OneTurn(s, o, AsCreated);
    hide Ran, Top, WithOffers;
    TurnOffers(s, o, OneOffer(AsCreated), s.apps[0]);
    t := WithOffers(s, o, OneOffer(AsCreated));
    FirstOfTwo(t.apps, o, LastFirst);
    OneTurn(t, o, LastFirst);
    TurnOffers(t, o, OneOffer(LastFirst), t.apps[1]);
    u := WithOffers(t, o, OneOffer(LastFirst));
  }
}
