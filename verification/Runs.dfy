/** Runs of the projection: any schedule of attempts, by any consumers of one database, each of which
    may roll back or lose its answer. */
module Runs {
  import opened Wrappers
  import opened Model
  import opened Effects
  import opened Transactions
  import opened Queries

  datatype Input =
    | Event(envelope: Envelope)
    | Page(rows: seq<SnapshotRow>, mark: int, final: bool)

  /** One try at one input, by one consumer, at one instant of its clock. */
  datatype Attempt = Attempt(consumer: string, input: Input, at: int, fate: Fate)
  {
    /** Committed, and not refused. */
    predicate Accepted() {
      && !fate.RollsBack?
      && match input
         case Event(e) => !Judge(consumer, e, at).Refuse?
         case Page(rows, mark, _) => SeedVerdict(rows, mark).Success?
    }

    /** The inbox record an accepted attempt stands for: an acknowledged event and a page have none. */
    function Registers(): set<(Id, string)> {
      if Accepted() && input.Event? && Judge(consumer, input.envelope, at).Project? then {(input.envelope.id, consumer)}
      else {}
    }

    /** The statements of an accepted attempt. */
    function Effects(): seq<Effect>
      requires Accepted()
    {
      match input
      case Event(e) => (match Judge(consumer, e, at) case Project(es) => es case _ => [])
      case Page(rows, mark, _) => PageEffects(rows, mark, at)
    }

    /** What an attempt says about authority, whenever it says it. */
    function Claims(): set<Claim> {
      if !Accepted() then {}
      else match input
        case Event(e) => EnvelopeClaims(consumer, e)
        case Page(rows, mark, _) => PageClaims(rows, mark)
    }
  }

  function Next(db: Database, a: Attempt): Database {
    if a.fate.RollsBack? then db
    else match a.input
      case Event(e) => Delivered(db, a.consumer, e, a.at)
      case Page(rows, mark, final) => Seeded(db, a.consumer, rows, mark, final, a.at)
  }

  function Run(db: Database, run: seq<Attempt>): Database {
    if run == [] then db else Next(Run(db, run[..|run| - 1]), run[|run| - 1])
  }

  lemma {:induction false} RunOfOne(db: Database, a: Attempt)
    ensures Run(db, [a]) == Next(db, a)
    ensures Claims([a]) == a.Claims()
  {
    assert [a][..0] == [];
  }

  lemma {:induction false} RunOfTwo(db: Database, a: Attempt, b: Attempt)
    ensures Run(db, [a]) == Next(db, a)
    ensures Run(db, [a, b]) == Next(Next(db, a), b)
  {
    assert [a][..0] == [] && [a, b][..1] == [a];
  }

  /** A page of one row, spelled out. */
  lemma {:induction false} PageOfOne(t: Tables, r: SnapshotRow, mark: int, at: int)
    requires RowError(r).None? && mark > 0
    ensures SeedVerdict([r], mark).Success?
    ensures Fold(t, PageEffects([r], mark, at))
            == Step(Step(t, PutMember(r.membershipId, SeedRow(r, mark, at))),
                PutTenant(r.tenantId, SeedTenant(r, mark, at)))
  {
    var es := PageEffects([r], mark, at);
    assert es[..1] == [es[0]];
    FoldOne(t, es[0]);
  }

  // Exactly once.

  /** The inbox after a run, told from the schedule alone. */
  function Registered(inbox: set<(Id, string)>, run: seq<Attempt>): set<(Id, string)> {
    if run == [] then inbox else Registered(inbox, run[..|run| - 1]) + run[|run| - 1].Registers()
  }

  /** The attempts that took effect: of each event, for each consumer, the first that was accepted. */
  function FirstCommits(inbox: set<(Id, string)>, run: seq<Attempt>): seq<Attempt> {
    if run == [] then []
    else
      var earlier, last := run[..|run| - 1], run[|run| - 1];
      FirstCommits(inbox, earlier)
      + if last.Accepted() && last.Registers() !! Registered(inbox, earlier) then [last] else []
  }

  /** One attempt with no guard, no rollback and no refusal. */
  function Plainly(db: Database, a: Attempt): Database {
    match a.input
    case Event(e) => Effected(db, a.consumer, e, a.at)
    case Page(rows, mark, final) => Seeded(db, a.consumer, rows, mark, final, a.at)
  }

  function RunPlainly(db: Database, run: seq<Attempt>): Database {
    if run == [] then db else Plainly(RunPlainly(db, run[..|run| - 1]), run[|run| - 1])
  }

  /** An attempt takes effect as if there were no guard, exactly when it is accepted and its record is new. */
  lemma {:induction false} OneAttempt(db: Database, a: Attempt)
    ensures Next(db, a) == if a.Accepted() && a.Registers() !! db.inbox then Plainly(db, a) else db
    ensures Next(db, a).inbox == db.inbox + a.Registers()
  {
    if a.Accepted() && !(a.Registers() !! db.inbox) {
      var key :| key in a.Registers() && key in db.inbox;
    }
  }

  /** Every schedule of attempts, rollbacks, lost answers and redeliveries leaves what applying each
      distinct event once, in the order of first commit, with no guard at all would leave; and an event
      is in the inbox exactly when it is among those. */
  lemma {:induction false} ExactlyOnce(db: Database, run: seq<Attempt>)
    ensures Run(db, run) == RunPlainly(db, FirstCommits(db.inbox, run))
    ensures Run(db, run).inbox == Registered(db.inbox, run)
    ensures Registered(db.inbox, run) == Registered(db.inbox, FirstCommits(db.inbox, run))
  {
    if run != [] {
      var earlier, last := run[..|run| - 1], run[|run| - 1];
      ExactlyOnce(db, earlier);
      OneAttempt(Run(db, earlier), last);
      var once := FirstCommits(db.inbox, earlier);
      if last.Accepted() && last.Registers() !! Registered(db.inbox, earlier) {
        assert (once + [last])[..|once + [last]| - 1] == once;
      } else {
        assert once + [] == once;
      }
    }
  }

  /** Each was accepted in the run, none was registered before it, and none appears twice. */
  lemma {:induction false} FirstCommitsAreDistinct(inbox: set<(Id, string)>, run: seq<Attempt>)
    ensures forall a :: a in FirstCommits(inbox, run) ==>
              a.Accepted() && a in run && a.Registers() !! inbox && a.Registers() <= Registered(inbox, run)
    ensures forall i, j :: 0 <= i < j < |FirstCommits(inbox, run)| ==>
              FirstCommits(inbox, run)[i].Registers() !! FirstCommits(inbox, run)[j].Registers()
    ensures inbox <= Registered(inbox, run)
  {
    if run != [] {
      var earlier, last := run[..|run| - 1], run[|run| - 1];
      assert run == earlier + [last];
      FirstCommitsAreDistinct(inbox, earlier);
      var before, once := FirstCommits(inbox, earlier), FirstCommits(inbox, run);
      assert once == before || once == before + [last];
      forall i, j | 0 <= i < j < |once|
        ensures once[i].Registers() !! once[j].Registers()
      {
        assert once[i] == before[i] && before[i] in before;
      }
    }
  }

  /** An acknowledged event has no inbox record, so hearing it again is not discarded; all it can change
      is the instant its consumer was last heard from. */
  lemma {:induction false} AcknowledgedTwice(db: Database, a: Attempt, b: Attempt)
    requires a.Accepted() && b.Accepted() && a.consumer == b.consumer && a.input == b.input
    requires a.input.Event? && Judge(a.consumer, a.input.envelope, a.at).Acknowledge?
    ensures var once, twice := Next(db, a), Next(Next(db, a), b);
            twice == once.(watermarks := once.watermarks[a.consumer := once.watermarks[a.consumer].(updatedAt := b.at)])
  {
    ClaimsAreTimeless(a.consumer, a.input.envelope, a.at);
    ClaimsAreTimeless(a.consumer, a.input.envelope, b.at);
  }

  /** Hearing an accepted event again changes nothing at all if and only if it is one that is projected, or its
      consumer was last heard from at that very instant. */
  lemma {:induction false} HeardAgainChangesNothingExactlyWhen(db: Database, a: Attempt, b: Attempt)
    requires a.Accepted() && b.Accepted() && a.consumer == b.consumer && a.input == b.input && a.input.Event?
    ensures var once := Next(db, a);
            && (Judge(a.consumer, a.input.envelope, a.at).Project? || a.consumer in once.watermarks)
            && (Next(once, b) == once <==>
                  || Judge(a.consumer, a.input.envelope, a.at).Project?
                  || once.watermarks[a.consumer].updatedAt == b.at)
  {
    ClaimsAreTimeless(a.consumer, a.input.envelope, a.at);
    ClaimsAreTimeless(a.consumer, a.input.envelope, b.at);
    if Judge(a.consumer, a.input.envelope, a.at).Acknowledge? {
      AcknowledgedTwice(db, a, b);
      var once := Next(db, a);
      var moved := once.watermarks[a.consumer].(updatedAt := b.at);
      assert once.watermarks[a.consumer := moved][a.consumer] == moved;
      assert moved == once.watermarks[a.consumer] ==> once.watermarks[a.consumer := moved] == once.watermarks;
    }
  }

  // What a run says.

  function Claims(run: seq<Attempt>): set<Claim> {
    if run == [] then {} else Claims(run[..|run| - 1]) + run[|run| - 1].Claims()
  }

  /** The statements that took effect, in order. */
  function Log(run: seq<Attempt>): seq<Effect>
    requires forall a :: a in run ==> a.Accepted()
  {
    if run == [] then [] else Log(run[..|run| - 1]) + run[|run| - 1].Effects()
  }

  lemma {:induction false} AttemptClaims(a: Attempt)
    requires a.Accepted()
    ensures ClaimsOf(a.Effects()) == a.Claims()
  {
    match a.input
    case Event(e) => ClaimsAreTimeless(a.consumer, e, a.at);
    case Page(rows, mark, _) => PageClaimsAreTimeless(rows, mark, a.at);
  }

  lemma {:induction false} RunFolds(db: Database, run: seq<Attempt>)
    requires forall a :: a in run ==> a.Accepted()
    ensures RunPlainly(db, run).tables == Fold(db.tables, Log(run))
    ensures ClaimsOf(Log(run)) == Claims(run)
  {
    if run != [] {
      var earlier, last := run[..|run| - 1], run[|run| - 1];
      assert run == earlier + [last];
      RunFolds(db, earlier);
      FoldConcat(db.tables, Log(earlier), last.Effects());
      AttemptClaims(last);
      assert ClaimsOf(Log(run)) == ClaimsOf(Log(earlier)) + ClaimsOf(last.Effects());
    }
  }

  lemma {:induction false} ClaimsConcat(a: seq<Attempt>, b: seq<Attempt>)
    ensures Claims(a + b) == Claims(a) + Claims(b)
  {
    if b == [] {
      assert a + b == a;
    } else {
      assert (a + b)[..|a + b| - 1] == a + b[..|b| - 1];
      ClaimsConcat(a, b[..|b| - 1]);
    }
  }

  lemma {:induction false} ClaimsInclude(run: seq<Attempt>, a: Attempt)
    requires a in run
    ensures a.Claims() <= Claims(run)
  {
    if a != run[|run| - 1] {
      assert a in run[..|run| - 1];
      ClaimsInclude(run[..|run| - 1], a);
    }
  }

  lemma {:induction false} ClaimsComeFrom(run: seq<Attempt>, c: Claim)
    requires c in Claims(run)
    ensures exists a :: a in run && a.Accepted() && c in a.Claims()
  {
    var last := run[|run| - 1];
    if c !in last.Claims() {
      ClaimsComeFrom(run[..|run| - 1], c);
      var a :| a in run[..|run| - 1] && a.Accepted() && c in a.Claims();
      assert a in run;
    } else {
      assert last in run;
    }
  }

  /** The tables after a run are the fold of what took effect, and that says nothing the run did not. */
  lemma {:induction false} RunIsAFold(db: Database, run: seq<Attempt>)
    ensures var once := FirstCommits(db.inbox, run);
            && (forall a :: a in once ==> a.Accepted())
            && Run(db, run).tables == Fold(db.tables, Log(once))
            && ClaimsOf(Log(once)) == Claims(once)
            && Claims(once) <= Claims(run)
  {
    var once := FirstCommits(db.inbox, run);
    ExactlyOnce(db, run);
    FirstCommitsAreDistinct(db.inbox, run);
    RunFolds(db, once);
    forall c | c in Claims(once)
      ensures c in Claims(run)
    {
      ClaimsComeFrom(once, c);
      var a :| a in once && a.Accepted() && c in a.Claims();
      ClaimsInclude(run, a);
    }
  }

  /** An event's identifier determines the envelope, for each consumer that accepts it. */
  ghost predicate IdsDetermine(run: seq<Attempt>) {
    forall a, b :: a in run && b in run && a.Registers() != {} && a.Registers() == b.Registers() ==> a.input == b.input
  }

  lemma {:induction false} RegisteredBy(inbox: set<(Id, string)>, run: seq<Attempt>, key: (Id, string))
    requires key in Registered(inbox, run) && key !in inbox
    ensures exists a :: a in run && key in a.Registers()
  {
    var last := run[|run| - 1];
    if key !in last.Registers() {
      RegisteredBy(inbox, run[..|run| - 1], key);
      var a :| a in run[..|run| - 1] && key in a.Registers();
      assert a in run;
    } else {
      assert last in run;
    }
  }

  lemma {:induction false} AlreadySaid(inbox: set<(Id, string)>, earlier: seq<Attempt>, last: Attempt)
    requires last.Accepted() && last.Registers() !! inbox && !(last.Registers() !! Registered(inbox, earlier))
    requires forall a :: a in earlier && a.Registers() != {} && a.Registers() == last.Registers() ==>
             a.input == last.input
    ensures last.Claims() <= Claims(earlier)
  {
    var key :| key in last.Registers() && key in Registered(inbox, earlier);
    RegisteredBy(inbox, earlier, key);
    var a :| a in earlier && key in a.Registers();
    assert a.Registers() == {key} == last.Registers();
    ClaimsInclude(earlier, a);
  }

  /** Discarding duplicates discards nothing that was said. */
  lemma {:induction false} DuplicatesSayNothingNew(inbox: set<(Id, string)>, run: seq<Attempt>)
    requires IdsDetermine(run)
    requires forall a :: a in run ==> a.Registers() !! inbox
    ensures Claims(FirstCommits(inbox, run)) == Claims(run)
  {
    if run != [] {
      var earlier, last := run[..|run| - 1], run[|run| - 1];
      assert last in run;
      assert forall a :: a in earlier ==> a in run;
      DuplicatesSayNothingNew(inbox, earlier);
      var once := FirstCommits(inbox, earlier);
      if last.Accepted() && last.Registers() !! Registered(inbox, earlier) {
        assert (once + [last])[..|once + [last]| - 1] == once;
      } else {
        assert once + [] == once;
        if last.Accepted() {
          AlreadySaid(inbox, earlier, last);
        }
      }
    }
  }

  /** From nothing, the tables after any run are the pointwise maximum, by version, of everything the run
      said: a reference no delivery order appears in. */
  lemma {:induction false} RunSettles(run: seq<Attempt>)
    requires IdsDetermine(run) && Coherent(Claims(run)) && RemovalsHarmless(Claims(run))
    ensures Settled(Run(EMPTY_DATABASE, run).tables, Claims(run))
  {
    RunIsAFold(EMPTY_DATABASE, run);
    DuplicatesSayNothingNew({}, run);
    var log := Log(FirstCommits({}, run));
    assert {} + ClaimsOf(log) == Claims(run);
    FoldSettles(NO_TABLES, log, {});
  }

  /** Order, duplication and grouping do not matter: two runs that say the same things, in whatever
      order, however often, and by events, pages or sweeps, agree on identity, status and version. */
  lemma {:induction false} OrderIsIrrelevant(a: seq<Attempt>, b: seq<Attempt>)
    requires IdsDetermine(a) && IdsDetermine(b)
    requires Claims(a) == Claims(b) && Coherent(Claims(a)) && RemovalsHarmless(Claims(a))
    ensures SameState(Run(EMPTY_DATABASE, a).tables, Run(EMPTY_DATABASE, b).tables)
  {
    RunSettles(a);
    RunSettles(b);
    SettledIsUnique(Run(EMPTY_DATABASE, a).tables, Run(EMPTY_DATABASE, b).tables, Claims(a));
  }

  /** Every input `a` accepts is one that `b` accepts, for the same consumer. */
  ghost predicate Covers(b: seq<Attempt>, a: seq<Attempt>) {
    forall x :: x in a && x.Accepted() ==> exists y :: y in b && Same(x, y)
  }

  predicate Same(x: Attempt, y: Attempt) {
    y.Accepted() && y.consumer == x.consumer && y.input == x.input
  }

  lemma {:induction false} CoveringSaysAsMuch(b: seq<Attempt>, a: seq<Attempt>)
    requires Covers(b, a)
    ensures Claims(a) <= Claims(b)
  {
    forall c | c in Claims(a)
      ensures c in Claims(b)
    {
      ClaimsComeFrom(a, c);
      var x :| x in a && x.Accepted() && c in x.Claims();
      var y :| y in b && Same(x, y);
      assert y.Claims() == x.Claims();
      ClaimsInclude(b, y);
    }
  }

  lemma {:induction false} SameRegisters(x: Attempt, y: Attempt)
    requires x.Accepted() && Same(x, y)
    ensures x.Registers() == y.Registers()
  {
    if x.input.Event? {
      ClaimsAreTimeless(x.consumer, x.input.envelope, x.at);
      ClaimsAreTimeless(x.consumer, x.input.envelope, y.at);
    }
  }

  lemma {:induction false} CoveredIdsDetermine(b: seq<Attempt>, a: seq<Attempt>)
    requires Covers(b, a) && IdsDetermine(b)
    ensures IdsDetermine(a)
  {
    forall x, x' | x in a && x' in a && x.Registers() != {} && x.Registers() == x'.Registers()
      ensures x.input == x'.input
    {
      var y :| y in b && Same(x, y);
      var y' :| y' in b && Same(x', y');
      SameRegisters(x, y);
      SameRegisters(x', y');
    }
  }

  /** What a run was told and accepted, and for whom. */
  function AcceptedInputs(run: seq<Attempt>): set<(string, Input)> {
    set x | x in run && x.Accepted() :: (x.consumer, x.input)
  }

  lemma {:induction false} SameInputsCover(b: seq<Attempt>, a: seq<Attempt>)
    requires AcceptedInputs(a) <= AcceptedInputs(b)
    ensures Covers(b, a)
  {
    forall x | x in a && x.Accepted()
      ensures exists y :: y in b && Same(x, y)
    {
      assert (x.consumer, x.input) in AcceptedInputs(b);
      var y :| y in b && y.Accepted() && (y.consumer, y.input) == (x.consumer, x.input);
    }
  }

  /** Two delivery sequences over the same set of inputs reach the same identity, status and versions. */
  lemma {:induction false} SameInputsSameState(a: seq<Attempt>, b: seq<Attempt>)
    requires AcceptedInputs(a) == AcceptedInputs(b)
    requires IdsDetermine(a) && Coherent(Claims(a)) && RemovalsHarmless(Claims(a))
    ensures SameState(Run(EMPTY_DATABASE, a).tables, Run(EMPTY_DATABASE, b).tables)
  {
    SameInputsCover(a, b);
    SameInputsCover(b, a);
    CoveredIdsDetermine(a, b);
    CoveringSaysAsMuch(a, b);
    CoveringSaysAsMuch(b, a);
    OrderIsIrrelevant(a, b);
  }

  // What no run undoes.

  lemma {:induction false} NothingRemoves(db: Database, run: seq<Attempt>, m: Id)
    requires Removal(m) !in Claims(run)
    ensures var once := FirstCommits(db.inbox, run);
            (forall a :: a in once ==> a.Accepted()) && !Removes(Log(once), m)
  {
    RunIsAFold(db, run);
    var log := Log(FirstCommits(db.inbox, run));
    forall e | e in log
      ensures e != Remove(m)
    {
      assert e.Claims() in ClaimsOf(log);
    }
  }

  predicate SweepsOut(a: Attempt, m: Id) {
    && a.Accepted() && a.input.Event? && a.input.envelope.etype.RepairReconciled?
    && a.input.envelope.data.repair.Some? && a.input.envelope.data.repair.value.consumerId == a.consumer
    && Finding("extra", m, None) in a.input.envelope.data.repair.value.findings
  }

  lemma {:induction false} RemovingIsSweepingOut(a: Attempt, m: Id)
    requires a.Accepted() && Remove(m) in a.Effects()
    ensures SweepsOut(a, m)
  {
    var i :| 0 <= i < |a.Effects()| && a.Effects()[i] == Remove(m);
    if a.input.Event? && a.input.envelope.etype.RepairReconciled? {
      var f := a.input.envelope.data.repair.value.findings[i];
      assert f in a.input.envelope.data.repair.value.findings && FindingEffect(f, a.input.envelope, a.at) == Remove(m);
      assert f == Finding("extra", m, None);
    }
  }

  /** Only an extra finding without a state, in a sweep addressed to the consumer that applied it,
      removes a row. */
  lemma {:induction false} OnlyAnExtraRemoves(run: seq<Attempt>, m: Id)
    requires Removal(m) in Claims(run)
    ensures exists a :: a in run && SweepsOut(a, m)
  {
    ClaimsComeFrom(run, Removal(m));
    var a :| a in run && a.Accepted() && Removal(m) in a.Claims();
    AttemptClaims(a);
    RemovingIsSweepingOut(a, m);
  }

  /** A row nobody removes keeps its identity columns and never goes back; and whatever it becomes, an
      input said so at a version above the one it held. */
  lemma {:induction false} RowsOnlyAdvance(db: Database, run: seq<Attempt>, m: Id)
    requires m in db.tables.members && Removal(m) !in Claims(run)
    ensures var before, after := db.tables.members, Run(db, run).tables.members;
            && m in after
            && after[m].identity == before[m].identity
            && before[m].version <= after[m].version
            && (after[m] != before[m] ==>
                  exists c :: c in Claims(run) && c.MemberClaim? && c.id == m && c.status == after[m].status
                              && before[m].version < c.version == after[m].version)
  {
    RunIsAFold(db, run);
    NothingRemoves(db, run, m);
    var log := Log(FirstCommits(db.inbox, run));
    FoldRow(db.tables, log, m);
    var before, after := db.tables.members[m], Fold(db.tables, log).members[m];
    if after != before {
      var e :| e in log && Proposes(e, m, after, before.version);
      assert e.Claims() in ClaimsOf(log);
    }
  }

  /** A withdrawal sticks: a row held suspended or revoked is not active again unless some input said
      active at a version above the withdrawal's. */
  lemma {:induction false} WithdrawalSticks(db: Database, run: seq<Attempt>, m: Id)
    requires m in db.tables.members && db.tables.members[m].status != Active
    requires forall c :: c in Claims(run) && c.MemberClaim? && c.id == m && c.status == Active ==>
               c.version <= db.tables.members[m].version
    requires Removal(m) !in Claims(run)
    ensures m in Run(db, run).tables.members && Run(db, run).tables.members[m].status != Active
  {
    RowsOnlyAdvance(db, run, m);
  }

  /** What is reflected stays reflected, unless its row is removed. */
  lemma {:induction false} ReflectionLasts(db: Database, run: seq<Attempt>, c: Claim)
    requires Reflects(db.tables, c)
    requires c.MemberClaim? ==> Removal(c.id) !in Claims(run)
    ensures Reflects(Run(db, run).tables, c)
  {
    RunIsAFold(db, run);
    if c.MemberClaim? {
      NothingRemoves(db, run, c.id);
    }
    FoldKeepsReflected(db.tables, Log(FirstCommits(db.inbox, run)), c);
  }

  /** Everything a run said is reflected in the end, unless its row is removed. */
  lemma {:induction false} WhatIsSaidIsReflected(db: Database, run: seq<Attempt>, c: Claim)
    requires IdsDetermine(run) && (forall a :: a in run ==> a.Registers() !! db.inbox)
    requires c in Claims(run)
    requires c.MemberClaim? ==> Removal(c.id) !in Claims(run)
    ensures Reflects(Run(db, run).tables, c)
  {
    RunIsAFold(db, run);
    DuplicatesSayNothingNew(db.inbox, run);
    var log := Log(FirstCommits(db.inbox, run));
    var e :| e in log && e.Claims() == c;
    if c.MemberClaim? {
      NothingRemoves(db, run, c.id);
    }
    if !c.Removal? {
      FoldReflects(db.tables, log, e);
    }
  }
}
