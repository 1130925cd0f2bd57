/** Seeding of applicants: generated emails, and the search for those that are not yet taken. */
module ApplicantSeeder {
  import opened Common

  /**
   * A row of the applications table. Rows are numbered in the order of their creation; `createdAt` is the time the
   * database notes, which several rows can share.
   */
  datatype Application = Application(id: nat, businessId: nat, openingId: nat, email: string, score: Option<real>,
                                     createdAt: int, stage: string)

  /** `slug` is made of the title, `key` is the first part of the id. */
  datatype Opening = Opening(id: nat, businessId: nat, slug: string, key: string)

  /**
   * What a run is told: applicants and offers wanted per opening, the emails' domain, when the row of a number gets
   * created, and in which order the database returns rows that `ORDER BY` does not tell apart.
   */
  datatype Config = Config(target: real, limit: int, domain: string, clock: nat -> int, tie: nat -> int)

  predicate IsFor(a: Application, o: Opening) {
    a.businessId == o.businessId && a.openingId == o.id
  }

  /** The applications for an opening. */
  function Of(apps: seq<Application>, o: Opening): (r: seq<Application>)
    ensures |r| <= |apps|
  {
    if apps == [] then []
    else
      var n := |apps| - 1;
      Of(apps[..n], o) + if IsFor(apps[n], o) then [apps[n]] else []
  }

  predicate Numbered(apps: seq<Application>) {
    forall i :: 0 <= i < |apps| ==> apps[i].id == i
  }

  // ---------------------------------------------------------------- emails

  function Digit(d: nat): char
    requires d < 10
  {
    ('0' as int + d) as char
  }

  function Decimal(n: nat): string {
    if n < 10 then [Digit(n)] else Decimal(n / 10) + [Digit(n % 10)]
  }

  function Parse(s: string): int {
    if s == "" then 0 else Parse(s[..|s| - 1]) * 10 + (s[|s| - 1] as int - '0' as int)
  }

  lemma {:induction false} ParseDecimal(n: nat)
    ensures Parse(Decimal(n)) == n
  {
    var s := Decimal(n);
    if n < 10 {
      assert s[..0] == "";
    } else {
      ParseDecimal(n / 10);
      assert s[..|s| - 1] == Decimal(n / 10);
    }
  }

  function EmailAt(o: Opening, domain: string, index: nat): string {
    o.slug + "." + o.key + ".applicant" + Decimal(index + 1) + "@" + domain
  }

  /** Every index has an email of its own. */
  lemma EmailsDiffer(o: Opening, domain: string, i: nat, j: nat)
    requires EmailAt(o, domain, i) == EmailAt(o, domain, j)
    ensures i == j
  {
    hide Decimal;
    var head, tail := o.slug + "." + o.key + ".applicant", "@" + domain;
    var a, b := Decimal(i + 1), Decimal(j + 1);
    var x := EmailAt(o, domain, i);
    assert x == head + a + tail && x == head + b + tail;
    assert |a| == |b|;
    assert a == x[|head|..|head| + |a|] == b;
    ParseDecimal(i + 1);
    ParseDecimal(j + 1);
  }

  // ---------------------------------------------------------------- the loop

  function ScoreFor(index: nat): int {
    var s := 62 + (index * 7) % 34;
    if s < 98 then s else 98
  }

  /** The cap is never reached, and 34 indices in a row have 34 different scores. */
  lemma ScoreSpread(i: nat, j: nat)
    ensures 62 <= ScoreFor(i) <= 95
    ensures ScoreFor(i) == ScoreFor(j) <==> i % 34 == j % 34
  {
    assert (i * 7) % 34 == ((i % 34) * 7) % 34 by { Reduce(i); }
    assert (j * 7) % 34 == ((j % 34) * 7) % 34 by { Reduce(j); }
    Sevens(i % 34, j % 34);
  }

  lemma Remainder(x: int, q: int, r: int)
    requires x == 34 * q + r && 0 <= r < 34
    ensures x % 34 == r
  {
    assert x / 34 == q;
  }

  lemma Reduce(i: nat)
    ensures (i * 7) % 34 == ((i % 34) * 7) % 34
  {
    var q, r := i / 34, i % 34;
    var k, t := r * 7 / 34, r * 7 % 34;
    Remainder(i * 7, 7 * q + k, t);
  }

  lemma Sevens(a: nat, b: nat)
    requires a < 34 && b < 34
    ensures (a * 7) % 34 == (b * 7) % 34 <==> a == b
  {
    if (a * 7) % 34 == (b * 7) % 34 {
      var k := a * 7 / 34 - b * 7 / 34;
      assert 7 * (a - b) == 34 * k;
      MultipleOf34(a - b, k);
    }
  }

  lemma MultipleOf34(d: int, k: int)
    requires -34 < d < 34 && 7 * d == 34 * k
    ensures d == 0
  {
  }

  const STAGES := ["applied", "screened", "shortlisted"]

  function NewApplication(id: nat, o: Opening, cfg: Config, index: nat): Application {
    Application(id, o.businessId, o.id, EmailAt(o, cfg.domain, index), Some(ScoreFor(index) as real), cfg.clock(id),
                STAGES[index % 3])
  }

  predicate Taken(apps: seq<Application>, o: Opening, email: string) {
    exists i :: 0 <= i < |apps| && IsFor(apps[i], o) && apps[i].email == email
  }

  /** The applications after `findOrCreate` for the first `n` indices. */
  function Grown(apps: seq<Application>, o: Opening, cfg: Config, n: nat): seq<Application> {
    if n == 0 then apps
    else
      var before := Grown(apps, o, cfg, n - 1);
      if Taken(before, o, EmailAt(o, cfg.domain, n - 1)) then before
      else before + [NewApplication(|before|, o, cfg, n - 1)]
  }

  function Ceil(x: real): int {
    -(-x).Floor
  }

  /** How many applicants are missing: the target may be a fraction. */
  function Missing(apps: seq<Application>, o: Opening, cfg: Config): nat {
    var n := Ceil(cfg.target) - |Of(apps, o)|;
    if n > 0 then n else 0
  }

  /**
   * What seeding does to the applications of one opening: exactly the missing number is added, for the first
   * generated emails that are not taken.
   */
  ghost predicate ApplicantsSeeded(before: seq<Application>, after: seq<Application>, o: Opening, cfg: Config) {
    |after| == |before| + Missing(before, o, cfg) && exists n :: after == Grown(before, o, cfg, n)
  }

  lemma {:induction false} GrownKeeps(apps: seq<Application>, o: Opening, cfg: Config, n: nat)
    ensures var after := Grown(apps, o, cfg, n);
            && |apps| <= |after| && after[..|apps|] == apps
            && |Of(after, o)| == |Of(apps, o)| + |after| - |apps|
            && (Numbered(apps) ==> Numbered(after))
            && (forall p: Opening :: p.id != o.id ==> Of(after, p) == Of(apps, p))
  {
    hide NewApplication, Taken, EmailAt;
    if n > 0 {
      GrownKeeps(apps, o, cfg, n - 1);
      var before := Grown(apps, o, cfg, n - 1);
      var row := NewApplication(|before|, o, cfg, n - 1);
      assert row.id == |before| && IsFor(row, o) by { NewIsFor(|before|, o, cfg, n - 1); }
      assert (before + [row])[..|before|] == before;
      assert (before + [row])[..|apps|] == before[..|apps|];
    }
  }

  lemma NewIsFor(id: nat, o: Opening, cfg: Config, index: nat)
    ensures var row := NewApplication(id, o, cfg, index);
            row.id == id && IsFor(row, o) && row.email == EmailAt(o, cfg.domain, index)
                && row.createdAt == cfg.clock(id)
  {
  }

  /** After `n` indices all of the first `n` emails are taken. */
  lemma {:induction false} GrownTakes(apps: seq<Application>, o: Opening, cfg: Config, n: nat, index: nat)
    requires index < n
    ensures Taken(Grown(apps, o, cfg, n), o, EmailAt(o, cfg.domain, index))
  {
    hide NewApplication, EmailAt;
    var before := Grown(apps, o, cfg, n - 1);
    var email := EmailAt(o, cfg.domain, index);
    var after := Grown(apps, o, cfg, n);
    if index < n - 1 {
      GrownTakes(apps, o, cfg, n - 1, index);
      var i :| 0 <= i < |before| && IsFor(before[i], o) && before[i].email == email;
      assert after[i] == before[i];
    } else if !Taken(before, o, email) {
      NewIsFor(|before|, o, cfg, n - 1);
      assert after[|before|] == NewApplication(|before|, o, cfg, n - 1);
    }
  }

  /** The applications of an opening are those of its business and its id, each as often as in the table. */
  lemma {:induction false} OfIs(apps: seq<Application>, o: Opening, x: Application)
    ensures multiset(Of(apps, o))[x] ==
              if x.businessId == o.businessId && x.openingId == o.id then multiset(apps)[x] else 0
  {
    if apps == [] {
    } else {
      var n := |apps| - 1;
      OfIs(apps[..n], o, x);
      assert apps == apps[..n] + [apps[n]];
    }
  }

  /** The first score, and each from the one before. */
  lemma ScoreSteps(index: nat)
    ensures ScoreFor(0) == 62
    ensures ScoreFor(index + 1) == if ScoreFor(index) <= 88 then ScoreFor(index) + 7 else ScoreFor(index) - 27
  {
    var q, r := index * 7 / 34, index * 7 % 34;
    if r <= 26 { Remainder((index + 1) * 7, q, r + 7); } else { Remainder((index + 1) * 7, q + 1, r - 27); }
  }

  /** The turn for index `n`: with an application of this email for the opening there is nothing to do. */
  lemma GrownTurn(apps: seq<Application>, o: Opening, cfg: Config, n: nat)
    ensures var before, after := Grown(apps, o, cfg, n), Grown(apps, o, cfg, n + 1);
            var email := o.slug + "." + o.key + ".applicant" + Decimal(n + 1) + "@" + cfg.domain;
            if exists x :: x in before && x.businessId == o.businessId && x.openingId == o.id && x.email == email
            then after == before
            else
              && |after| == |before| + 1 && after[..|before|] == before
              && var row := after[|before|];
                 && row.id == |before| && row.businessId == o.businessId && row.openingId == o.id && row.email == email
                 && row.score == Some(ScoreFor(n) as real) && row.createdAt == cfg.clock(|before|)
                 && (n % 3 == 0 ==> row.stage == "applied") && (n % 3 == 1 ==> row.stage == "screened")
                 && (n % 3 == 2 ==> row.stage == "shortlisted")
  {
    hide Decimal, ScoreFor;
    GrownNext(apps, o, cfg, n);
    var before := Grown(apps, o, cfg, n);
    hide Grown;
    assert Taken(before, o, EmailAt(o, cfg.domain, n)) ==>
             exists x :: x in before && x.businessId == o.businessId && x.openingId == o.id
                         && x.email == EmailAt(o, cfg.domain, n);
  }

  /** Missing applicants are counted up to the next whole number. */
  lemma CeilIs(x: real)
    ensures x <= Ceil(x) as real < x + 1.0
  {
  }

  function Emails(s: seq<Application>): set<string> {
    set i | 0 <= i < |s| :: s[i].email
  }

  lemma {:induction false} OfHolds(apps: seq<Application>, o: Opening, i: nat)
    requires i < |apps| && IsFor(apps[i], o)
    ensures apps[i] in Of(apps, o)
  {
    var n := |apps| - 1;
    if i < n { OfHolds(apps[..n], o, i); }
  }

  lemma {:induction false} EmailsAtMost(s: seq<Application>)
    ensures |Emails(s)| <= |s|
  {
    if s == [] {
      assert Emails(s) == {};
    } else {
      var n := |s| - 1;
      EmailsAtMost(s[..n]);
      assert Emails(s) == Emails(s[..n]) + {s[n].email};
    }
  }

  function FirstEmails(o: Opening, domain: string, n: nat): set<string> {
    set i | 0 <= i < n :: EmailAt(o, domain, i)
  }

  lemma {:induction false} FirstEmailsCount(o: Opening, domain: string, n: nat)
    ensures |FirstEmails(o, domain, n)| == n
  {
    hide EmailAt;
    if n > 0 {
      FirstEmailsCount(o, domain, n - 1);
      assert FirstEmails(o, domain, n) == FirstEmails(o, domain, n - 1) + {EmailAt(o, domain, n - 1)};
      if EmailAt(o, domain, n - 1) in FirstEmails(o, domain, n - 1) {
        var i :| 0 <= i < n - 1 && EmailAt(o, domain, i) == EmailAt(o, domain, n - 1);
        EmailsDiffer(o, domain, i, n - 1);
      }
    }
  }

  /**
   * Of `n` different emails at most as many are found as there were applications, so the others are created.
   */
  lemma Pigeonhole(apps: seq<Application>, o: Opening, cfg: Config, n: nat)
    ensures |Grown(apps, o, cfg, n)| - |apps| >= n - |Of(apps, o)|
  {
    var after := Grown(apps, o, cfg, n);
    GrownKeeps(apps, o, cfg, n);
    FirstEmailsCount(o, cfg.domain, n);
    EmailsAtMost(Of(after, o));
    hide EmailAt, Grown, Of;
    forall e | e in FirstEmails(o, cfg.domain, n)
      ensures e in Emails(Of(after, o))
    {
      var index :| 0 <= index < n && EmailAt(o, cfg.domain, index) == e;
      GrownTakes(apps, o, cfg, n, index);
      var i :| 0 <= i < |after| && IsFor(after[i], o) && after[i].email == e;
      OfHolds(after, o, i);
      var k :| 0 <= k < |Of(after, o)| && Of(after, o)[k] == after[i];
    }
    SubsetCardinality(FirstEmails(o, cfg.domain, n), Emails(Of(after, o)));
  }

  /** Fewer than needed are created as long as fewer are than what is missing. */
  lemma NeededIsMissing(target: real, existing: nat, created: nat)
    ensures var needed := if target - existing as real > 0.0 then target - existing as real else 0.0;
            created as real < needed <==> created < Ceil(target) - existing
    ensures target >= 1.0 ==> 0 <= Ceil(target)
  {
  }

  lemma TwiceIsEnough(target: real, index: nat)
    requires target >= 1.0 && index <= Ceil(target)
    ensures index as real < target * 2.0
  {
  }

  /** What the loop has done after looking at the first `n` emails. */
  ghost predicate Looked(apps: seq<Application>, o: Opening, cfg: Config, n: nat,
                         after: seq<Application>, created: seq<string>, reused: seq<string>) {
    && after == Grown(apps, o, cfg, n) && |after| == |apps| + |created|
    && |created| + |reused| == n && |created| <= Missing(apps, o, cfg) && n <= Ceil(cfg.target)
    && AreEmails(created + reused, o, cfg, n)
    && (forall k :: 0 <= k < |created| ==> after[|apps| + k].email == created[k] && !Taken(apps, o, created[k]))
    && (forall e :: e in reused ==> Taken(apps, o, e))
  }

  lemma GrownNext(apps: seq<Application>, o: Opening, cfg: Config, n: nat)
    ensures var before := Grown(apps, o, cfg, n);
            Grown(apps, o, cfg, n + 1) == if Taken(before, o, EmailAt(o, cfg.domain, n)) then before
                                          else before + [NewApplication(|before|, o, cfg, n)]
  {
  }

  /** While somebody is missing, fewer emails were looked at than the target has. */
  lemma LookedRoom(apps: seq<Application>, o: Opening, cfg: Config, n: nat,
                   after: seq<Application>, created: seq<string>, reused: seq<string>)
    requires Looked(apps, o, cfg, n, after, created, reused) && |created| < Missing(apps, o, cfg)
    ensures n < Ceil(cfg.target)
  {
    hide Of, Taken, AreEmails, Grown, Ceil;
    Pigeonhole(apps, o, cfg, n);
  }

  lemma LookedReuses(apps: seq<Application>, o: Opening, cfg: Config, n: nat,
                     after: seq<Application>, created: seq<string>, reused: seq<string>)
    requires Looked(apps, o, cfg, n, after, created, reused) && |created| < Missing(apps, o, cfg)
    requires Taken(after, o, EmailAt(o, cfg.domain, n))
    ensures Looked(apps, o, cfg, n + 1, after, created, reused + [EmailAt(o, cfg.domain, n)])
  {
    hide Of, EmailAt, NewApplication, Taken, AreEmails, Grown, Ceil, Missing;
    GrownNext(apps, o, cfg, n);
    LookedRoom(apps, o, cfg, n, after, created, reused);
    FreshEmail(apps, o, cfg, n);
    AnotherEmail(created, reused, o, cfg, n);
  }

  lemma LookedCreates(apps: seq<Application>, o: Opening, cfg: Config, n: nat,
                      after: seq<Application>, created: seq<string>, reused: seq<string>)
    requires Looked(apps, o, cfg, n, after, created, reused) && |created| < Missing(apps, o, cfg)
    requires !Taken(after, o, EmailAt(o, cfg.domain, n))
    ensures Looked(apps, o, cfg, n + 1, after + [NewApplication(|after|, o, cfg, n)],
                   created + [EmailAt(o, cfg.domain, n)], reused)
  {
    hide Of, EmailAt, NewApplication, Taken, AreEmails, Grown, Ceil, Missing;
    GrownNext(apps, o, cfg, n);
    LookedRoom(apps, o, cfg, n, after, created, reused);
    FreshEmail(apps, o, cfg, n);
    AnotherEmail(created, reused, o, cfg, n);
    NewIsFor(|after|, o, cfg, n);
  }

  lemma LookedBounds(apps: seq<Application>, o: Opening, cfg: Config, n: nat,
                     after: seq<Application>, created: seq<string>, reused: seq<string>)
    requires Looked(apps, o, cfg, n, after, created, reused)
    ensures |created| <= Missing(apps, o, cfg) && n <= Ceil(cfg.target)
  {
  }

  lemma LookedEnds(apps: seq<Application>, o: Opening, cfg: Config, n: nat,
                   after: seq<Application>, created: seq<string>, reused: seq<string>)
    requires Looked(apps, o, cfg, n, after, created, reused) && Missing(apps, o, cfg) <= |created|
    ensures ApplicantsSeeded(apps, after, o, cfg)
    ensures |created| == Missing(apps, o, cfg) && |created| + |reused| <= Ceil(cfg.target)
        && |after| == |apps| + |created|
    ensures forall k :: 0 <= k < |created| ==> after[|apps| + k].email == created[k] && !Taken(apps, o, created[k])
    ensures forall e :: e in reused ==> Taken(apps, o, e)
    ensures Distinct(created + reused)
  {
    EmailsAreDistinct(created + reused, o, cfg, n);
    hide Of, EmailAt, NewApplication, Taken, AreEmails, Distinct, Grown;
  }

  /** `seedApplicantsForOpening`: the bound of twice the target is never what ends the loop. */
  method SeedApplicants(apps: seq<Application>, o: Opening, cfg: Config)
    returns (after: seq<Application>, created: seq<string>, reused: seq<string>)
    requires cfg.target >= 1.0
    ensures ApplicantsSeeded(apps, after, o, cfg)
    ensures |created| == Missing(apps, o, cfg)
    ensures |created| + |reused| <= Ceil(cfg.target)
    ensures forall k :: 0 <= k < |created| ==> after[|apps| + k].email == created[k] && !Taken(apps, o, created[k])
    ensures forall e :: e in reused ==> Taken(apps, o, e)
    ensures Distinct(created + reused)
  {
    var existing := |Of(apps, o)|;
    var needed := if cfg.target - existing as real > 0.0 then cfg.target - existing as real else 0.0;
    after, created, reused := apps, [], [];
    var index := 0;
    assert Looked(apps, o, cfg, index, after, created, reused);
    hide Looked, Of, EmailAt, NewApplication, Taken, Distinct, Ceil;
    while index as real < cfg.target * 2.0 && |created| as real < needed
      invariant Looked(apps, o, cfg, index, after, created, reused)
      invariant |created| <= Missing(apps, o, cfg) && index <= Ceil(cfg.target)
      decreases Ceil(cfg.target) - index
    {
      NeededIsMissing(cfg.target, existing, |created|);
      var email := EmailAt(o, cfg.domain, index);
      if Taken(after, o, email) {
        LookedReuses(apps, o, cfg, index, after, created, reused);
        reused := reused + [email];
      } else {
        LookedCreates(apps, o, cfg, index, after, created, reused);
        after := after + [NewApplication(|after|, o, cfg, index)];
        created := created + [email];
      }
      index := index + 1;
      LookedBounds(apps, o, cfg, index, after, created, reused);
    }
    NeededIsMissing(cfg.target, existing, |created|);
    TwiceIsEnough(cfg.target, index);
    LookedEnds(apps, o, cfg, index, after, created, reused);
  }

  /** These are the first `n` emails in some order. */
  ghost predicate AreEmails(s: seq<string>, o: Opening, cfg: Config, n: nat) {
    |s| == n && forall i :: 0 <= i < n ==> EmailAt(o, cfg.domain, i) in s
  }

  lemma AnotherEmail(created: seq<string>, reused: seq<string>, o: Opening, cfg: Config, n: nat)
    requires AreEmails(created + reused, o, cfg, n)
    ensures AreEmails(created + (reused + [EmailAt(o, cfg.domain, n)]), o, cfg, n + 1)
    ensures AreEmails((created + [EmailAt(o, cfg.domain, n)]) + reused, o, cfg, n + 1)
  {
    hide EmailAt;
    forall i | 0 <= i <= n
      ensures EmailAt(o, cfg.domain, i) in created + (reused + [EmailAt(o, cfg.domain, n)])
      ensures EmailAt(o, cfg.domain, i) in (created + [EmailAt(o, cfg.domain, n)]) + reused
    {
      if i < n { assert EmailAt(o, cfg.domain, i) in created + reused; }
    }
  }

  /** A sequence of length `n` with `n` different elements has none twice. */
  lemma EmailsAreDistinct(s: seq<string>, o: Opening, cfg: Config, n: nat)
    requires AreEmails(s, o, cfg, n)
    ensures Distinct(s)
  {
    hide EmailAt;
    FirstEmailsCount(o, cfg.domain, n);
    forall i, j | 0 <= i < j < |s|
      ensures s[i] != s[j]
    {
      if s[i] == s[j] {
        var rest := s[..j] + s[j + 1..];
        forall e | e in FirstEmails(o, cfg.domain, n)
          ensures e in rest
        {
          var k :| 0 <= k < |s| && s[k] == e;
          if k < j { assert rest[k] == e; } else if k == j { assert rest[i] == e; } else { assert rest[k - 1] == e; }
        }
        SubsetCardinality(FirstEmails(o, cfg.domain, n), Elements(rest));
        ElementsAtMost(rest);
      }
    }
  }

  lemma {:induction false} ElementsAtMost<T>(s: seq<T>)
    ensures |Elements(s)| <= |s|
  {
    if s == [] {
      assert Elements(s) == {};
    } else {
      var n := |s| - 1;
      ElementsAtMost(s[..n]);
      assert Elements(s) == Elements(s[..n]) + {s[n]};
    }
  }

  /** An email of a later index is taken only by an application that was there before. */
  lemma FreshEmail(apps: seq<Application>, o: Opening, cfg: Config, n: nat)
    ensures Taken(Grown(apps, o, cfg, n), o, EmailAt(o, cfg.domain, n)) <==> Taken(apps, o, EmailAt(o, cfg.domain, n))
  {
    LaterEmailIsNew(apps, o, cfg, n, n);
  }

  lemma {:induction false} LaterEmailIsNew(apps: seq<Application>, o: Opening, cfg: Config, n: nat, index: nat)
    requires n <= index
    ensures Taken(Grown(apps, o, cfg, n), o, EmailAt(o, cfg.domain, index)) <==>
        Taken(apps, o, EmailAt(o, cfg.domain, index))
  {
    hide EmailAt, NewApplication;
    if n > 0 {
      LaterEmailIsNew(apps, o, cfg, n - 1, index);
      var before, after := Grown(apps, o, cfg, n - 1), Grown(apps, o, cfg, n);
      NewIsFor(|before|, o, cfg, n - 1);
      if EmailAt(o, cfg.domain, n - 1) == EmailAt(o, cfg.domain, index) { EmailsDiffer(o, cfg.domain, n - 1, index); }
      if Taken(before, o, EmailAt(o, cfg.domain, index)) {
        var i :| 0 <= i < |before| && IsFor(before[i], o) && before[i].email == EmailAt(o, cfg.domain, index);
        assert after[i] == before[i];
      }
    }
  }

  // ---------------------------------------------------------------- what seeding leaves

  /** The opening has the applicants it lacked, old applications stay, and no other opening is touched. */
  lemma SeedingFillsUp(before: seq<Application>, after: seq<Application>, o: Opening, cfg: Config)
    requires ApplicantsSeeded(before, after, o, cfg)
    ensures |Of(after, o)| as int == if |Of(before, o)| > Ceil(cfg.target) then |Of(before, o)| else Ceil(cfg.target)
    ensures Missing(after, o, cfg) == 0
    ensures |before| <= |after| && after[..|before|] == before
    ensures Numbered(before) ==> Numbered(after)
    ensures forall p: Opening :: p.id != o.id ==> Of(after, p) == Of(before, p)
  {
    hide Grown, Of;
    var n :| after == Grown(before, o, cfg, n);
    GrownKeeps(before, o, cfg, n);
  }

  lemma FullSeedsNothing(before: seq<Application>, after: seq<Application>, o: Opening, cfg: Config)
    requires ApplicantsSeeded(before, after, o, cfg) && Missing(before, o, cfg) == 0
    ensures after == before
  {
    hide Grown;
    var n :| after == Grown(before, o, cfg, n);
    GrownKeeps(before, o, cfg, n);
    assert after == after[..|before|];
  }
}
