/** The bootstrap command: a page loop at one mark, and what it guarantees when it is interrupted, raced
    by deliveries, or run again. */
module Bootstrap {
  import opened Wrappers
  import opened Model
  import opened Effects
  import opened Transactions
  import opened Queries
  import opened Runs
  import opened Marks
  import opened Projectors
  import opened Deliveries

  datatype SnapshotPage = SnapshotPage(highWaterMark: int, rows: seq<SnapshotRow>, cursor: string)
  {
    predicate Last() {
      cursor == ""
    }
  }

  /** A page without a positive mark is an error; an answer that could not be read is one of those. */
  function Fetch(answer: SnapshotPage): Result<SnapshotPage, Error> {
    if answer.highWaterMark > 0 then Success(answer) else Failure(Unavailable)
  }

  function PageAttempt(consumer: string, page: SnapshotPage, mark: int, fate: Fate, at: int): Attempt {
    Attempt(consumer, Page(page.rows, mark, page.Last()), at, fate)
  }

  /** The databases a loop goes through: before any page, and after each. */
  function Trail(before: Database, consumer: string, pages: seq<SnapshotPage>, fates: seq<Fate>,
    ats: seq<int>): (trail: seq<Database>)
    requires |pages| <= |fates| && |pages| <= |ats|
    ensures |trail| == |pages| + 1 && trail[0] == before
  {
    if pages == [] then [before]
    else
      var n := |pages| - 1;
      var trail := Trail(before, consumer, pages[..n], fates, ats);
      trail + [Next(trail[n], PageAttempt(consumer, pages[n], pages[0].highWaterMark, fates[n], ats[n]))]
  }

  lemma {:induction false} TrailStep(before: Database, consumer: string, pages: seq<SnapshotPage>, fates: seq<Fate>,
    ats: seq<int>, i: nat)
    requires i < |pages| && |pages| <= |fates| && |pages| <= |ats|
    ensures var trail := Trail(before, consumer, pages, fates, ats);
            trail[i + 1] == Next(trail[i], PageAttempt(consumer, pages[i], pages[0].highWaterMark, fates[i], ats[i]))
    decreases |pages|
  {
    if i < |pages| - 1 {
      TrailStep(before, consumer, pages[..|pages| - 1], fates, ats, i);
    }
  }

  /** The first n pages are of one snapshot: one positive mark throughout, and none after the last. */
  predicate Continuous(pages: seq<SnapshotPage>, n: nat, mark: int)
    requires n <= |pages|
  {
    if n == 0 then mark > 0
    else Continuous(pages, n - 1, mark) && pages[n - 1].highWaterMark == mark && (n == 1 || !pages[n - 2].Last())
  }

  lemma {:induction false} ContinuousIsLocal(pages: seq<SnapshotPage>, page: SnapshotPage, n: nat, mark: int)
    requires n <= |pages|
    ensures Continuous(pages + [page], n, mark) == Continuous(pages, n, mark)
  {
    if n > 0 {
      ContinuousIsLocal(pages, page, n - 1, mark);
    }
  }

  /** The first n pages were applied, and their commits answered. */
  predicate Applied(pages: seq<SnapshotPage>, n: nat, mark: int, fates: seq<Fate>)
    requires n <= |pages| && n <= |fates|
  {
    n == 0 || (Applied(pages, n - 1, mark, fates) && fates[n - 1].Commits?
        && SeedVerdict(pages[n - 1].rows, mark).Success?)
  }

  /** The newest page is the only one that may have failed. */
  predicate Tried(pages: seq<SnapshotPage>, n: nat, mark: int, fates: seq<Fate>)
    requires n <= |pages| && n <= |fates|
  {
    n > 0 ==> Continuous(pages, n, mark) && Applied(pages, n - 1, mark, fates)
  }

  lemma {:induction false} OneMorePage(before: Database, after: Database, consumer: string, pages: seq<SnapshotPage>,
    n: nat, mark: int, fates: seq<Fate>, ats: seq<int>, seeded: Result<(), Error>)
    requires n < |pages| == |fates| == |ats|
    requires pages[n].highWaterMark == mark == pages[0].highWaterMark > 0
    requires Tried(pages, n, mark, fates) && Applied(pages, n, mark, fates) && (n > 0 ==> !pages[n - 1].Last())
    requires var earlier := Trail(before, consumer, pages, fates, ats)[n];
             after == Ended(earlier, Seeded(earlier, consumer, pages[n].rows, mark, pages[n].Last(), ats[n]), fates[n])
    requires seeded == Seen(SeedVerdict(pages[n].rows, mark), fates[n])
    ensures after == Trail(before, consumer, pages, fates, ats)[n + 1]
    ensures Tried(pages, n + 1, mark, fates) && (seeded.Success? <==> Applied(pages, n + 1, mark, fates))
    ensures seeded.Success? && pages[n].Last() ==> SnapshotMark(after, consumer) == Some(mark)
  {
    TrailStep(before, consumer, pages, fates, ats, n);
  }

  /** Every row of a page is reflected, its membership and its tenant, by its own columns. */
  ghost predicate SaidBy(page: SnapshotPage, t: Tables) {
    forall x :: x in page.rows ==> Reflects(t, MemberSaid(x)) && Reflects(t, TenantSaid(x))
  }

  lemma {:induction false} OneRowSays(t: Tables, rows: seq<SnapshotRow>, i: nat, mark: int, at: int)
    requires SeedVerdict(rows, mark).Success? && i < |rows| && Seedable(rows[i])
    ensures var after := Fold(t, PageEffects(rows, mark, at));
            Reflects(after, MemberSaid(rows[i])) && Reflects(after, TenantSaid(rows[i]))
  {
    var es := PageEffects(rows, mark, at);
    var put, tenant := es[2 * i], es[2 * i + 1];
    assert put == PageEffect(rows, 2 * i, mark, at) && tenant == PageEffect(rows, 2 * i + 1, mark, at);
    assert put.Claims() == MemberSaid(rows[i]) && tenant.Claims() == TenantSaid(rows[i]);
    FoldReflects(t, es, put);
    FoldReflects(t, es, tenant);
  }

  lemma {:induction false} OnePageSays(db: Database, consumer: string, page: SnapshotPage, mark: int, at: int)
    requires SeedVerdict(page.rows, mark).Success?
    ensures SaidBy(page, Next(db, PageAttempt(consumer, page, mark, Commits, at)).tables)
  {
    APageIsAcceptedExactlyWhen(page.rows, mark);
    forall x | x in page.rows
      ensures var t := Fold(db.tables, PageEffects(page.rows, mark, at));
              Reflects(t, MemberSaid(x)) && Reflects(t, TenantSaid(x))
    {
      var i :| 0 <= i < |page.rows| && page.rows[i] == x;
      OneRowSays(db.tables, page.rows, i, mark, at);
    }
  }

  lemma {:induction false} OnePageKeepsSaid(db: Database, consumer: string, page: SnapshotPage, mark: int, at: int,
    earlier: SnapshotPage)
    requires SaidBy(earlier, db.tables)
    ensures SaidBy(earlier, Next(db, PageAttempt(consumer, page, mark, Commits, at)).tables)
  {
    if SeedVerdict(page.rows, mark).Success? {
      var es := PageEffects(page.rows, mark, at);
      forall x | x in earlier.rows
        ensures Reflects(Fold(db.tables, es), MemberSaid(x)) && Reflects(Fold(db.tables, es), TenantSaid(x))
      {
        FoldKeepsReflected(db.tables, es, MemberSaid(x));
        FoldKeepsReflected(db.tables, es, TenantSaid(x));
      }
    }
  }

  /** The trail of pages all applied says what each page says. */
  lemma {:induction false} TrailSays(before: Database, consumer: string, pages: seq<SnapshotPage>, fates: seq<Fate>,
    ats: seq<int>, n: nat)
    requires n <= |pages| == |fates| == |ats| && (n > 0 ==> Applied(pages, n, pages[0].highWaterMark, fates))
    ensures forall i :: 0 <= i < n ==> SaidBy(pages[i], Trail(before, consumer, pages, fates, ats)[n].tables)
  {
    if n > 0 {
      var mark, k := pages[0].highWaterMark, n - 1;
      TrailSays(before, consumer, pages, fates, ats, k);
      TrailStep(before, consumer, pages, fates, ats, k);
      var db := Trail(before, consumer, pages, fates, ats)[k];
      OnePageSays(db, consumer, pages[k], mark, ats[k]);
      forall i | 0 <= i < k
        ensures SaidBy(pages[i], Next(db, PageAttempt(consumer, pages[k], mark, Commits, ats[k])).tables)
      {
        OnePageKeepsSaid(db, consumer, pages[k], mark, ats[k], pages[i]);
      }
    }
  }

  /** Until a last page, no watermark moves. */
  lemma {:induction false} TrailKeepsWatermarks(before: Database, consumer: string, pages: seq<SnapshotPage>,
    fates: seq<Fate>, ats: seq<int>, n: nat)
    requires n <= |pages| == |fates| == |ats| && forall i :: 0 <= i < n ==> !pages[i].Last()
    ensures Trail(before, consumer, pages, fates, ats)[n].watermarks == before.watermarks
  {
    if n > 0 {
      TrailKeepsWatermarks(before, consumer, pages, fates, ats, n - 1);
      TrailStep(before, consumer, pages, fates, ats, n - 1);
    }
  }

  lemma {:induction false} NoneIsLastBefore(pages: seq<SnapshotPage>, n: nat, mark: int)
    requires n <= |pages| && Continuous(pages, n, mark)
    ensures forall i :: 0 <= i < n - 1 ==> !pages[i].Last()
  {
    if n > 0 {
      NoneIsLastBefore(pages, n - 1, mark);
    }
  }

  /** The first m answers are one whole snapshot, every page of which is applied. */
  predicate Loaded(answers: seq<SnapshotPage>, fates: seq<Fate>, m: nat)
    requires |answers| == |fates|
  {
    && 0 < m <= |answers| && Continuous(answers, m, answers[0].highWaterMark) && answers[m - 1].Last()
    && Applied(answers, m, answers[0].highWaterMark, fates)
  }

  lemma {:induction false} ContinuousBefore(pages: seq<SnapshotPage>, n: nat, m: nat, mark: int)
    requires n < m <= |pages| && Continuous(pages, m, mark)
    ensures Continuous(pages, n, mark) && pages[n].highWaterMark == mark && mark > 0 && (n > 0 ==> !pages[n - 1].Last())
  {
    if n + 1 < m {
      ContinuousBefore(pages, n, m - 1, mark);
    } else if n > 0 {
      MarkIsPositive(pages, n, mark);
    }
  }

  lemma {:induction false} MarkIsPositive(pages: seq<SnapshotPage>, n: nat, mark: int)
    requires n <= |pages| && Continuous(pages, n, mark)
    ensures mark > 0
  {
    if n > 0 {
      MarkIsPositive(pages, n - 1, mark);
    }
  }

  lemma {:induction false} AppliedBefore(pages: seq<SnapshotPage>, n: nat, m: nat, mark: int, fates: seq<Fate>)
    requires n <= m <= |pages| && m <= |fates| && Applied(pages, m, mark, fates)
    ensures Applied(pages, n, mark, fates)
  {
    if n < m {
      AppliedBefore(pages, n, m - 1, mark, fates);
    }
  }

  /** A loop that stopped where it did, and not at the end of the answers, was not stopped short of a snapshot. */
  lemma {:induction false} LoadedIsReached(answers: seq<SnapshotPage>, fates: seq<Fate>, n: nat, m: nat, success: bool)
    requires |answers| == |fates| && n <= |answers| && Loaded(answers, fates, m)
    requires success <==> n > 0 && answers[n - 1].Last() && Applied(answers, n, answers[0].highWaterMark, fates)
    requires n > 0 ==> Tried(answers, n, answers[0].highWaterMark, fates)
    requires !success && n < |answers| ==>
               || (n > 0 && !Applied(answers, n, answers[0].highWaterMark, fates))
               || answers[n].highWaterMark <= 0
               || answers[n].highWaterMark != answers[0].highWaterMark
    ensures success && n == m
  {
    var mark := answers[0].highWaterMark;
    if n < m {
      ContinuousBefore(answers, n, m, mark);
      AppliedBefore(answers, n, m, mark, fates);
    } else if m < n {
      ContinuousBefore(answers, m, n, mark);
    }
  }

  lemma {:induction false} EveryLoadedIsReached(answers: seq<SnapshotPage>, fates: seq<Fate>, n: nat, success: bool)
    requires |answers| == |fates| && n <= |answers|
    requires success <==> n > 0 && answers[n - 1].Last() && Applied(answers, n, answers[0].highWaterMark, fates)
    requires n > 0 ==> Tried(answers, n, answers[0].highWaterMark, fates)
    requires !success && n < |answers| ==>
               || (n > 0 && !Applied(answers, n, answers[0].highWaterMark, fates))
               || answers[n].highWaterMark <= 0
               || answers[n].highWaterMark != answers[0].highWaterMark
    ensures forall m :: Loaded(answers, fates, m) ==> success && n == m
  {
    forall m | Loaded(answers, fates, m)
      ensures success && n == m
    {
      LoadedIsReached(answers, fates, n, m, success);
    }
  }

  lemma {:induction false} WhatLoadLeaves(before: Database, consumer: string, answers: seq<SnapshotPage>,
    fates: seq<Fate>, ats: seq<int>, n: nat)
    requires n <= |answers| == |fates| == |ats| && (n > 0 ==> Tried(answers, n, answers[0].highWaterMark, fates))
    ensures n == 0 || !answers[n - 1].Last() ==>
              Trail(before, consumer, answers, fates, ats)[n].watermarks == before.watermarks
    ensures n > 0 && Applied(answers, n, answers[0].highWaterMark, fates) ==>
              forall i :: 0 <= i < n ==> SaidBy(answers[i], Trail(before, consumer, answers, fates, ats)[n].tables)
  {
    if n == 0 || !answers[n - 1].Last() {
      if n > 0 {
        NoneIsLastBefore(answers, n, answers[0].highWaterMark);
      }
      TrailKeepsWatermarks(before, consumer, answers, fates, ats, n);
    }
    if n > 0 && Applied(answers, n, answers[0].highWaterMark, fates) {
      TrailSays(before, consumer, answers, fates, ats, n);
    }
  }

  /** The n-th page, seeded after the n before it. */
  method SeedPage(p: Projector, answers: seq<SnapshotPage>, fates: seq<Fate>, ats: seq<int>, n: nat, mark: int,
    ghost before: Database)
    returns (seeded: Result<(), Error>)
    requires n < |answers| == |fates| == |ats| && answers[n].highWaterMark == mark == answers[0].highWaterMark > 0
    requires Tried(answers, n, mark, fates) && Applied(answers, n, mark, fates) && (n > 0 ==> !answers[n - 1].Last())
    requires p.pool.db == Trail(before, p.consumer, answers, fates, ats)[n]
    modifies p.pool
    ensures p.pool.db == Trail(before, p.consumer, answers, fates, ats)[n + 1]
    ensures Tried(answers, n + 1, mark, fates) && (seeded.Success? <==> Applied(answers, n + 1, mark, fates))
    ensures seeded.Success? && answers[n].Last() ==> SnapshotMark(p.pool.db, p.consumer) == Some(mark)
  {
    seeded := p.Seed(answers[n].rows, mark, answers[n].cursor == "", ats[n], fates[n]);
    OneMorePage(before, p.pool.db, p.consumer, answers, n, mark, fates, ats, seeded);
  }

  /** One run of the command, against the answers it is given and the instants they come at. It tries n of
      them: they are of one snapshot, all but the newest were applied, and the database is what trying them
      leaves. It succeeds exactly when the newest is a last page and was applied too, and then the mark is
      recorded. */
  method Load(p: Projector, answers: seq<SnapshotPage>, fates: seq<Fate>, ats: seq<int>)
    returns (r: Result<int, Error>, n: nat)
    requires |fates| == |answers| == |ats|
    modifies p.pool
    ensures n <= |answers| && (n > 0 ==> Tried(answers, n, answers[0].highWaterMark, fates))
    ensures p.pool.db == Trail(old(p.pool.db), p.consumer, answers, fates, ats)[n]
    ensures r.Success? <==> n > 0 && answers[n - 1].Last() && Applied(answers, n, answers[0].highWaterMark, fates)
    ensures r.Success? ==> r.value == answers[0].highWaterMark && SnapshotMark(p.pool.db, p.consumer) == Some(r.value)
    ensures r.Failure? && n < |answers| ==>
              || (n > 0 && !Applied(answers, n, answers[0].highWaterMark, fates))
              || answers[n].highWaterMark <= 0
              || answers[n].highWaterMark != answers[0].highWaterMark
    ensures forall m :: Loaded(answers, fates, m) ==> r.Success? && n == m
    ensures n == 0 || !answers[n - 1].Last() ==> p.pool.db.watermarks == old(p.pool.db).watermarks
    ensures r.Success? ==> forall i :: 0 <= i < n ==> SaidBy(answers[i], p.pool.db.tables)
  {
    ghost var trail := Trail(p.pool.db, p.consumer, answers, fates, ats);
    var mark := 0;
    r, n := Failure(Unavailable), 0;
    while n < |answers|
      invariant n <= |answers| && r.Failure?
      invariant if n == 0 then mark == 0 else mark == answers[0].highWaterMark > 0 && !answers[n - 1].Last()
      invariant Tried(answers, n, mark, fates) && Applied(answers, n, mark, fates)
      invariant p.pool.db == trail[n]
    {
      var fetched := Fetch(answers[n]);
      if fetched.Failure? {
        break;
      }
      var page := fetched.value;
      if mark == 0 {
        mark := page.highWaterMark;
      } else if page.highWaterMark != mark {
        break;
      }
      var final := page.cursor == "";
      var seeded := SeedPage(p, answers, fates, ats, n, mark, old(p.pool.db));
      n := n + 1;
      if seeded.Failure? {
        break;
      }
      if final {
        var position := p.Position();
        assert position.snapshotMark == Some(mark);
        r := Success(mark);
        break;
      }
    }
    EveryLoadedIsReached(answers, fates, n, r.Success?);
    WhatLoadLeaves(old(p.pool.db), p.consumer, answers, fates, ats, n);
  }

  // Any number of bootstraps, interrupted anywhere, beside deliveries.

  /** A loop between two pages. */
  datatype Progress = Progress(consumer: string, mark: int, pages: seq<SnapshotPage>)

  /** `completed` and `removed` only remember: the snapshots whose last page committed, and the
      memberships a sweep removed. */
  datatype World = World(db: Database, loops: map<nat, Progress>, completed: set<Progress>, removed: set<Id>)

  const NEW_WORLD := World(EMPTY_DATABASE, map[], {}, {})

  datatype Move =
    | Begin(loop: nat, consumer: string)
    | Turn(loop: nat, answer: SnapshotPage, at: int, fate: Fate)
    | Crash(loop: nat)
    | Hear(consumer: string, envelope: Envelope, at: int, fate: Fate)

  function RemovedBy(cs: set<Claim>): set<Id> {
    set c | c in cs && c.Removal? :: c.id
  }

  /** One turn of a loop. Every error ends it, a lost answer included, though the page then stands. */
  function TurnOf(w: World, loop: nat, answer: SnapshotPage, at: int, fate: Fate): World
    requires loop in w.loops
  {
    var p := w.loops[loop];
    var ended := w.(loops := w.loops - {loop});
    match Fetch(answer)
    case Failure(_) => ended
    case Success(page) =>
      var mark := if p.mark == 0 then page.highWaterMark else p.mark;
      if page.highWaterMark != mark then ended
      else
        var seed := Attempt(p.consumer, Page(page.rows, mark, page.Last()), at, fate);
        var db := Next(w.db, seed);
        var grown := Progress(p.consumer, mark, p.pages + [page]);
        if !seed.Accepted() then ended.(db := db)
        else if page.Last() then ended.(db := db, completed := w.completed + {grown})
        else if fate.AnswerLost? then ended.(db := db)
        else w.(db := db, loops := w.loops[loop := grown])
  }

  function Moved(w: World, m: Move): World {
    match m
    case Begin(loop, consumer) => w.(loops := w.loops[loop := Progress(consumer, 0, [])])
    case Turn(loop, answer, at, fate) => if loop in w.loops then TurnOf(w, loop, answer, at, fate) else w
    case Crash(loop) => w.(loops := w.loops - {loop})
    case Hear(consumer, e, at, fate) =>
      var a := Attempt(consumer, Event(e), at, fate);
      w.(db := Next(w.db, a), removed := w.removed + RemovedBy(a.Claims()))
  }

  function Play(moves: seq<Move>): World {
    if moves == [] then NEW_WORLD else Moved(Play(moves[..|moves| - 1]), moves[|moves| - 1])
  }

  /** Everything these pages say is reflected, save rows a sweep has removed. */
  ghost predicate Holds(t: Tables, pages: seq<SnapshotPage>, mark: int, removed: set<Id>) {
    forall i, c :: 0 <= i < |pages| && c in PageClaims(pages[i].rows, mark) ==>
      Reflects(t, c) || (c.MemberClaim? && c.id in removed)
  }

  /** Every page of one snapshot, at one mark, up to its last. */
  predicate Complete(p: Progress) {
    && p.pages != [] && Continuous(p.pages, |p.pages|, p.mark) && p.pages[|p.pages| - 1].Last()
    && forall i :: 0 <= i < |p.pages| ==> SeedVerdict(p.pages[i].rows, p.mark).Success?
  }

  ghost predicate LoopSound(t: Tables, p: Progress, removed: set<Id>) {
    && (p.pages == [] <==> p.mark == 0)
    && (p.pages != [] ==> Continuous(p.pages, |p.pages|, p.mark) && !p.pages[|p.pages| - 1].Last())
    && (forall i :: 0 <= i < |p.pages| ==> SeedVerdict(p.pages[i].rows, p.mark).Success?)
    && Holds(t, p.pages, p.mark, removed)
  }

  ghost predicate SnapshotSound(t: Tables, s: Progress, removed: set<Id>) {
    Complete(s) && Holds(t, s.pages, s.mark, removed)
  }

  ghost predicate Sound(w: World) {
    && (forall l :: l in w.loops ==> LoopSound(w.db.tables, w.loops[l], w.removed))
    && (forall s :: s in w.completed ==> SnapshotSound(w.db.tables, s, w.removed))
    && MarksSound(w.db, w.completed)
  }

  predicate Names(s: Progress, c: string, mark: int) {
    s.consumer == c && s.mark == mark
  }

  ghost predicate MarksSound(db: Database, completed: set<Progress>) {
    forall c :: SnapshotMark(db, c).Some? ==> exists s :: s in completed && Names(s, c, SnapshotMark(db, c).value)
  }

  lemma {:induction false} OneAttemptKeepsHeld(db: Database, a: Attempt, pages: seq<SnapshotPage>, mark: int,
    removed: set<Id>)
    requires Holds(db.tables, pages, mark, removed)
    ensures Holds(Next(db, a).tables, pages, mark, removed + RemovedBy(a.Claims()))
  {
    forall i, c | 0 <= i < |pages| && c in PageClaims(pages[i].rows, mark) && Reflects(db.tables, c)
      ensures Reflects(Next(db, a).tables, c) || (c.MemberClaim? && c.id in RemovedBy(a.Claims()))
    {
      if a.Accepted() && (c.MemberClaim? ==> Removal(c.id) !in a.Claims()) {
        RunOfOne(db, a);
        ReflectionLasts(db, [a], c);
      } else if a.Accepted() {
        assert Removal(c.id).Removal?;
      }
    }
  }

  lemma {:induction false} PageIsReflected(db: Database, a: Attempt)
    requires a.Accepted() && a.input.Page?
    ensures RemovedBy(a.Claims()) == {}
    ensures forall c :: c in PageClaims(a.input.rows, a.input.mark) ==> Reflects(Next(db, a).tables, c)
  {
    AttemptClaims(a);
    var es := a.Effects();
    forall c | c in a.Claims()
      ensures Reflects(Next(db, a).tables, c) && !c.Removal?
    {
      var e :| e in es && e.Claims() == c;
      FoldReflects(db.tables, es, e);
    }
  }

  /** An attempt leaves every other loop and every completed snapshot as it was. */
  lemma {:induction false} OneAttemptKeepsTheRest(w: World, a: Attempt)
    requires Sound(w)
    ensures forall l :: l in w.loops ==> LoopSound(Next(w.db, a).tables, w.loops[l], w.removed + RemovedBy(a.Claims()))
    ensures forall s :: s in w.completed ==> SnapshotSound(Next(w.db, a).tables, s, w.removed + RemovedBy(a.Claims()))
  {
    forall l | l in w.loops
      ensures LoopSound(Next(w.db, a).tables, w.loops[l], w.removed + RemovedBy(a.Claims()))
    {
      OneAttemptKeepsHeld(w.db, a, w.loops[l].pages, w.loops[l].mark, w.removed);
    }
    forall s | s in w.completed
      ensures SnapshotSound(Next(w.db, a).tables, s, w.removed + RemovedBy(a.Claims()))
    {
      OneAttemptKeepsHeld(w.db, a, s.pages, s.mark, w.removed);
    }
  }

  lemma {:induction false} OneMoreHeldPage(t: Tables, pages: seq<SnapshotPage>, page: SnapshotPage, mark: int,
    removed: set<Id>)
    requires Holds(t, pages, mark, removed) && forall c :: c in PageClaims(page.rows, mark) ==> Reflects(t, c)
    ensures Holds(t, pages + [page], mark, removed)
  {
  }

  /** An accepted page extends its loop, or completes its snapshot. */
  lemma {:induction false} OnePageGrows(w: World, p: Progress, page: SnapshotPage, mark: int, seed: Attempt)
    requires LoopSound(w.db.tables, p, w.removed) && (p.mark == 0 || p.mark == mark) && page.highWaterMark == mark > 0
    requires seed.Accepted() && seed.input == Page(page.rows, mark, page.Last())
    ensures var grown := Progress(p.consumer, mark, p.pages + [page]);
            && (page.Last() ==> SnapshotSound(Next(w.db, seed).tables, grown, w.removed))
            && (!page.Last() ==> LoopSound(Next(w.db, seed).tables, grown, w.removed))
  {
    PageIsReflected(w.db, seed);
    OneAttemptKeepsHeld(w.db, seed, p.pages, mark, w.removed);
    assert w.removed + {} == w.removed;
    OneMoreHeldPage(Next(w.db, seed).tables, p.pages, page, mark, w.removed);
    ContinuousIsLocal(p.pages, page, |p.pages|, mark);
  }

  lemma {:induction false} OnePageMarks(w: World, p: Progress, page: SnapshotPage, mark: int, seed: Attempt)
    requires MarksSound(w.db, w.completed)
    requires seed.Accepted() && seed.input == Page(page.rows, mark, page.Last()) && seed.consumer == p.consumer
    ensures !page.Last() ==> MarksSound(Next(w.db, seed), w.completed)
    ensures page.Last() ==> MarksSound(Next(w.db, seed), w.completed + {Progress(p.consumer, mark, p.pages + [page])})
  {
    var db, completed := Next(w.db, seed), w.completed + {Progress(p.consumer, mark, p.pages + [page])};
    if !page.Last() {
      assert db.watermarks == w.db.watermarks;
      assert forall c :: SnapshotMark(db, c) == SnapshotMark(w.db, c);
    }
    forall c | SnapshotMark(db, c).Some? && page.Last()
      ensures exists s :: s in completed && Names(s, c, SnapshotMark(db, c).value)
    {
      if c == p.consumer {
        assert Names(Progress(p.consumer, mark, p.pages + [page]), c, mark);
      } else {
        assert SnapshotMark(w.db, c) == SnapshotMark(db, c);
        var s :| s in w.completed && Names(s, c, SnapshotMark(db, c).value);
        assert s in completed;
      }
    }
  }

  lemma {:induction false} TurnKeepsSound(w: World, m: Move)
    requires Sound(w) && m.Turn? && m.loop in w.loops
    ensures Sound(Moved(w, m))
  {
    var p := w.loops[m.loop];
    if Fetch(m.answer).Success? {
      var page := Fetch(m.answer).value;
      var mark := if p.mark == 0 then page.highWaterMark else p.mark;
      var seed := Attempt(p.consumer, Page(page.rows, mark, page.Last()), m.at, m.fate);
      if page.highWaterMark == mark && seed.Accepted() {
        OnePageGrows(w, p, page, mark, seed);
        OnePageMarks(w, p, page, mark, seed);
        OneAttemptKeepsTheRest(w, seed);
        PageIsReflected(w.db, seed);
        assert w.removed + {} == w.removed;
      }
    }
  }

  lemma {:induction false} HearKeepsSound(w: World, m: Move)
    requires Sound(w) && m.Hear?
    ensures Sound(Moved(w, m))
  {
    var a := Attempt(m.consumer, Event(m.envelope), m.at, m.fate);
    OneAttemptKeepsTheRest(w, a);
    assert forall c :: SnapshotMark(Next(w.db, a), c) == SnapshotMark(w.db, c);
  }

  lemma {:induction false} EveryReachableWorldIsSound(moves: seq<Move>)
    ensures Sound(Play(moves))
  {
    if moves != [] {
      EveryReachableWorldIsSound(moves[..|moves| - 1]);
      var w, m := Play(moves[..|moves| - 1]), moves[|moves| - 1];
      match m
      case Turn(loop, _, _, _) => if loop in w.loops { TurnKeepsSound(w, m); }
      case Hear(_, _, _, _) => HearKeepsSound(w, m);
      case _ =>
    }
  }

  /** In every reachable state, through crashes between pages, lost answers, several bootstraps at once and
      events before any of them: a consumer that holds a snapshot mark took every page of one snapshot at
      that mark, and what those pages said is still reflected; and one that holds none has no age and
      nothing to report. */
  lemma {:induction false} NoAuthorityBeforeACompleteSnapshot(moves: seq<Move>, c: string, now: int)
    ensures var w := Play(moves);
            match SnapshotMark(w.db, c)
            case Some(mark) =>
              exists s :: s in w.completed && Names(s, c, mark) && SnapshotSound(w.db.tables, s, w.removed)
            case None =>
              AgeOf(w.db, c, now) == Failure(NotBootstrapped) && ReportOf(w.db, c) == Failure(NotBootstrapped)
  {
    EveryReachableWorldIsSound(moves);
  }

  /** Every page an interrupted run seeded is seeded again later, at whatever mark. */
  ghost predicate SeededAgain(first: seq<Attempt>, again: seq<Attempt>) {
    forall x :: x in first && x.Accepted() && x.input.Page? ==> exists y :: y in again && SamePage(x, y)
  }

  predicate SamePage(x: Attempt, y: Attempt) {
    x.input.Page? && y.Accepted() && y.input.Page? && y.input.rows == x.input.rows
  }

  /** The deliveries among some attempts. */
  function WithoutPages(run: seq<Attempt>): seq<Attempt> {
    if run == [] then []
    else WithoutPages(run[..|run| - 1]) + if run[|run| - 1].input.Page? then [] else [run[|run| - 1]]
  }

  lemma {:induction false} EventsAreKept(run: seq<Attempt>, a: Attempt)
    ensures a in WithoutPages(run) <==> a in run && a.input.Event?
  {
    if run != [] {
      EventsAreKept(run[..|run| - 1], a);
      assert run == run[..|run| - 1] + [run[|run| - 1]];
    }
  }

  lemma {:induction false} InterruptedPagesSayNothingNew(first: seq<Attempt>, again: seq<Attempt>)
    requires SeededAgain(first, again)
    ensures Claims(first) + Claims(again) == Claims(WithoutPages(first)) + Claims(again)
  {
    forall c | c in Claims(first)
      ensures c in Claims(WithoutPages(first)) + Claims(again)
    {
      ClaimsComeFrom(first, c);
      var x :| x in first && x.Accepted() && c in x.Claims();
      if x.input.Page? {
        var y :| y in again && SamePage(x, y);
        SamePageClaimsAtAnyMark(x.input.rows, x.input.mark, y.input.mark);
        ClaimsInclude(again, y);
      } else {
        EventsAreKept(first, x);
        ClaimsInclude(WithoutPages(first), x);
      }
    }
    forall c | c in Claims(WithoutPages(first))
      ensures c in Claims(first)
    {
      ClaimsComeFrom(WithoutPages(first), c);
      var x :| x in WithoutPages(first) && x.Accepted() && c in x.Claims();
      EventsAreKept(first, x);
      ClaimsInclude(first, x);
    }
  }

  lemma {:induction false} SamePageClaimsAtAnyMark(rows: seq<SnapshotRow>, mark: int, mark': int)
    requires SeedVerdict(rows, mark).Success? && SeedVerdict(rows, mark').Success?
    ensures PageClaims(rows, mark) <= PageClaims(rows, mark')
  {
    var a, b := PageEffects(rows, mark, 0), PageEffects(rows, mark', 0);
    forall e | e in a
      ensures e.Claims() in ClaimsOf(b)
    {
      var j :| 0 <= j < |a| && a[j] == e;
      assert b[j] in b && b[j].Claims() == e.Claims();
    }
  }

  /** Running an interrupted bootstrap again reaches the state of one that was never interrupted, at whatever mark
      each was taken. Deliveries may come anywhere: before it, between its pages, after the interruption, between
      the pages of the second run and after that. */
  lemma {:induction false} RerunningIsAsIfUninterrupted(before: seq<Attempt>, first: seq<Attempt>,
    again: seq<Attempt>, after: seq<Attempt>)
    requires SeededAgain(first, again)
    requires IdsDetermine(before + first + again + after) && IdsDetermine(before + WithoutPages(first) + again + after)
    requires Coherent(Claims(before + first + again + after))
             && RemovalsHarmless(Claims(before + first + again + after))
    ensures SameState(Run(EMPTY_DATABASE, before + first + again + after).tables,
                      Run(EMPTY_DATABASE, before + WithoutPages(first) + again + after).tables)
  {
    var kept := WithoutPages(first);
    InterruptedPagesSayNothingNew(first, again);
    FourClaims(before, first, again, after);
    FourClaims(before, kept, again, after);
    assert Claims(before + first + again + after) == Claims(before + kept + again + after);
    OrderIsIrrelevant(before + first + again + after, before + kept + again + after);
  }

  lemma {:induction false} FourClaims(a: seq<Attempt>, b: seq<Attempt>, c: seq<Attempt>, d: seq<Attempt>)
    ensures Claims(a + b + c + d) == Claims(a) + (Claims(b) + Claims(c)) + Claims(d)
  {
    ClaimsConcat(a + b + c, d);
    ClaimsConcat(a + b, c);
    ClaimsConcat(a, b);
  }
}
