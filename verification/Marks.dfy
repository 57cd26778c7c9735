/** The two positions a consumer records, over runs, and what a report's mark covers. */
module Marks {
  import opened Wrappers
  import opened Model
  import opened Effects
  import opened Transactions
  import opened Queries
  import opened Runs
  import opened Samples

  function AppliedMark(db: Database, c: string): int {
    if c in db.watermarks then db.watermarks[c].appliedMark else 0
  }

  function SnapshotMark(db: Database, c: string): Option<int> {
    if c in db.watermarks then db.watermarks[c].snapshotMark else None
  }

  /** An accepted delivery to this consumer: applied, superseded, acknowledged or a repair. */
  predicate Moves(a: Attempt, c: string) {
    a.Accepted() && a.consumer == c && a.input.Event?
  }

  lemma {:induction false} PlainMark(db: Database, run: seq<Attempt>, c: string)
    requires forall a :: a in run ==> a.Accepted()
    ensures var before, after := AppliedMark(db, c), AppliedMark(RunPlainly(db, run), c);
            && before <= after
            && (forall a :: a in run && Moves(a, c) ==> a.input.envelope.streamPosition <= after)
            && (after == before || exists a :: a in run && Moves(a, c) && a.input.envelope.streamPosition == after)
  {
    if run != [] {
      var earlier, last := run[..|run| - 1], run[|run| - 1];
      assert run == earlier + [last];
      PlainMark(db, earlier, c);
      if Moves(last, c) {
        assert AppliedMark(RunPlainly(db, run), c)
               == Max(AppliedMark(RunPlainly(db, earlier), c), last.input.envelope.streamPosition) by {
          assert last.input.envelope.streamPosition > 0;
          assert AppliedMark(RunPlainly(db, earlier), c) >= AppliedMark(db, c);
        }
      }
    }
  }

  /** The applied mark never decreases, and it is the highest position among what took effect: over any
      run, of any number of consumers, with any duplicates and rollbacks. */
  lemma {:induction false} WatermarkIsTheMaximum(db: Database, run: seq<Attempt>, c: string)
    requires AppliedMark(db, c) >= 0
    ensures var before, after, once := AppliedMark(db, c), AppliedMark(Run(db, run), c), FirstCommits(db.inbox, run);
            && before <= after
            && (forall a :: a in once && Moves(a, c) ==> a.input.envelope.streamPosition <= after)
            && (after == before || exists a :: a in once && Moves(a, c) && a.input.envelope.streamPosition == after)
  {
    ExactlyOnce(db, run);
    FirstCommitsAreDistinct(db.inbox, run);
    PlainMark(db, FirstCommits(db.inbox, run), c);
  }

  /** The attempt that took effect for another: itself, or the first of the same event for the same consumer. */
  predicate StandsFor(b: Attempt, a: Attempt) {
    b.Accepted() && b.input == a.input && if a.Registers() == {} then b == a else b.Registers() == a.Registers()
  }

  lemma {:induction false} SomeCommitStandsFor(inbox: set<(Id, string)>, run: seq<Attempt>, a: Attempt)
    requires IdsDetermine(run) && (forall x :: x in run ==> x.Registers() !! inbox) && a in run && a.Accepted()
    ensures exists b :: b in FirstCommits(inbox, run) && StandsFor(b, a)
  {
    var earlier, last := run[..|run| - 1], run[|run| - 1];
    assert last in run && forall x :: x in earlier ==> x in run;
    if a == last && last.Registers() !! Registered(inbox, earlier) {
      assert StandsFor(a, a) && a in FirstCommits(inbox, run);
    } else {
      var twin := a;
      if a == last {
        var key :| key in last.Registers() && key in Registered(inbox, earlier);
        RegisteredBy(inbox, earlier, key);
        twin :| twin in earlier && key in twin.Registers();
        assert twin.Registers() == {key} == last.Registers();
      }
      SomeCommitStandsFor(inbox, earlier, twin);
      var b :| b in FirstCommits(inbox, earlier) && StandsFor(b, twin);
      assert StandsFor(b, a) && b in FirstCommits(inbox, run);
    }
  }

  /** From nothing, the applied mark is the maximum position of every accepted delivery, duplicates among
      them: none is above it, and it is zero only before the first. */
  lemma {:induction false} WatermarkIsTheMaximumDelivered(run: seq<Attempt>, c: string)
    requires IdsDetermine(run)
    ensures var mark := AppliedMark(Run(EMPTY_DATABASE, run), c);
            && (forall a :: a in run && Moves(a, c) ==> a.input.envelope.streamPosition <= mark)
            && (if forall a :: a in run ==> !Moves(a, c) then mark == 0
                else exists a :: a in run && Moves(a, c) && a.input.envelope.streamPosition == mark)
  {
    WatermarkIsTheMaximum(EMPTY_DATABASE, run, c);
    FirstCommitsAreDistinct({}, run);
    forall a | a in run && Moves(a, c)
      ensures a.input.envelope.streamPosition <= AppliedMark(Run(EMPTY_DATABASE, run), c)
    {
      SomeCommitStandsFor({}, run, a);
      var b :| b in FirstCommits({}, run) && StandsFor(b, a);
      assert Moves(b, c);
    }
  }

  // How fresh a consumer believes it is.

  /** An accepted event, or the last page of a snapshot, is when this consumer last heard. */
  predicate Freshens(a: Attempt, c: string) {
    a.Accepted() && a.consumer == c && (a.input.Event? || a.input.final)
  }

  function LastHeard(run: seq<Attempt>, c: string): Option<int> {
    if run == [] then None
    else if Freshens(run[|run| - 1], c) then Some(run[|run| - 1].at)
    else LastHeard(run[..|run| - 1], c)
  }

  lemma {:induction false} UpdatedWhenHeard(run: seq<Attempt>, c: string)
    requires forall a :: a in run ==> a.Accepted()
    ensures var db := RunPlainly(EMPTY_DATABASE, run);
            if c in db.watermarks then LastHeard(run, c) == Some(db.watermarks[c].updatedAt)
                else LastHeard(run, c).None?
  {
    if run != [] {
      assert run[|run| - 1] in run;
      UpdatedWhenHeard(run[..|run| - 1], c);
    }
  }

  /** The time since this consumer last heard something. */
  function SinceHeard(run: seq<Attempt>, c: string, now: int): Result<int, Error> {
    match LastHeard(run, c)
    case Some(at) => Success(Max(0, now - at))
    case None => Failure(NotBootstrapped)
  }

  lemma {:induction false} RunIsPlain(run: seq<Attempt>) returns (db: Database, once: seq<Attempt>)
    ensures db == Run(EMPTY_DATABASE, run) && once == FirstCommits({}, run) && db == RunPlainly(EMPTY_DATABASE, once)
    ensures forall a :: a in once ==> a.Accepted()
  {
    db, once := Run(EMPTY_DATABASE, run), FirstCommits({}, run);
    ExactlyOnce(EMPTY_DATABASE, run);
    FirstCommitsAreDistinct({}, run);
  }

  lemma {:induction false} PlainAge(db: Database, run: seq<Attempt>, c: string, now: int)
    requires db == RunPlainly(EMPTY_DATABASE, run) && (forall a :: a in run ==> a.Accepted())
    ensures AgeOf(db, c, now).Success? ==> AgeOf(db, c, now) == SinceHeard(run, c, now)
  {
    UpdatedWhenHeard(run, c);
  }

  /** A bootstrapped consumer's age is the time since it last heard something that took effect: a duplicate, a
      rollback, a page that does not end its snapshot and another consumer's events leave it as it was. */
  lemma {:induction false} AgeIsSinceLastHeard(run: seq<Attempt>, c: string, now: int)
    requires AgeOf(Run(EMPTY_DATABASE, run), c, now).Success?
    ensures AgeOf(Run(EMPTY_DATABASE, run), c, now) == SinceHeard(FirstCommits({}, run), c, now)
  {
    var db, once := RunIsPlain(run);
    PlainAge(db, once, c, now);
  }

  /** The first event a consumer hears gives it a row of its own, and no authority. */
  lemma {:induction false} AnEventAloneBootstrapsNothing(db: Database, a: Attempt, now: int)
    requires Moves(a, a.consumer) && a.consumer !in db.watermarks && a.Registers() !! db.inbox
    ensures var after := Next(db, a);
            && a.consumer in after.watermarks && AppliedMark(after, a.consumer) == a.input.envelope.streamPosition
            && SnapshotMark(after, a.consumer).None? && AgeOf(after, a.consumer, now) == Failure(NotBootstrapped)
  {
    OneAttempt(db, a);
  }

  /** The last page this consumer was seeded with that ended its snapshot. */
  function LastSnapshot(run: seq<Attempt>, c: string): Option<Attempt> {
    if run == [] then None
    else
      var last := run[|run| - 1];
      if last.Accepted() && last.consumer == c && last.input.Page? && last.input.final then Some(last)
      else LastSnapshot(run[..|run| - 1], c)
  }

  lemma {:induction false} SnapshotIsRecorded(run: seq<Attempt>, c: string)
    ensures var p := PositionOf(Run(EMPTY_DATABASE, run), c);
            match LastSnapshot(run, c)
            case None => p.snapshotMark == None && p.bootstrappedAt == None
            case Some(a) => a.input.Page? && p.snapshotMark == Some(a.input.mark) && p.bootstrappedAt == Some(a.at)
  {
    if run != [] {
      SnapshotIsRecorded(run[..|run| - 1], c);
    }
  }

  /** A consumer's position, over every run: the mark and the instant of the last snapshot it completed, none before
      one, and the highest position it accepted a delivery at, zero before one. */
  lemma {:induction false} ThePositionIsWhatARunRecorded(run: seq<Attempt>, c: string)
    requires IdsDetermine(run)
    ensures var p := PositionOf(Run(EMPTY_DATABASE, run), c);
            && (match LastSnapshot(run, c)
                case None => p.snapshotMark == None && p.bootstrappedAt == None
                case Some(a) => a.input.Page? && p.snapshotMark == Some(a.input.mark) && p.bootstrappedAt == Some(a.at))
            && (forall a :: a in run && Moves(a, c) ==> a.input.envelope.streamPosition <= p.appliedMark)
            && (if forall a :: a in run ==> !Moves(a, c) then p.appliedMark == 0
                else exists a :: a in run && Moves(a, c) && a.input.envelope.streamPosition == p.appliedMark)
  {
    SnapshotIsRecorded(run, c);
    WatermarkIsTheMaximumDelivered(run, c);
  }

  // Where a row's mark comes from.

  function MarkOf(input: Input): int {
    match input
    case Event(e) => e.streamPosition
    case Page(_, mark, _) => mark
  }

  lemma {:induction false} EffectsCarryTheMark(a: Attempt, e: Effect)
    requires a.Accepted() && e in a.Effects() && e.PutMember?
    ensures e.row.appliedMark == MarkOf(a.input)
  {
    var i :| 0 <= i < |a.Effects()| && a.Effects()[i] == e;
    if a.input.Event? && a.input.envelope.etype.RepairReconciled? {
      assert e == FindingEffect(a.input.envelope.data.repair.value.findings[i], a.input.envelope, a.at);
    }
  }

  lemma {:induction false} LoggedBy(run: seq<Attempt>, e: Effect)
    requires forall a :: a in run ==> a.Accepted()
    ensures e in Log(run) ==> exists a :: a in run && a.Accepted() && e in a.Effects()
  {
    if run != [] {
      var earlier, last := run[..|run| - 1], run[|run| - 1];
      assert last in run && forall a :: a in earlier ==> a in run;
      var own := last.Effects();
      LoggedBy(earlier, e);
      if e in Log(run) && e !in own {
        var a :| a in earlier && a.Accepted() && e in a.Effects();
        assert a in run;
      }
    }
  }

  /** An attempt put the row that stands, all of it but the identity columns. */
  ghost predicate Put(a: Attempt, m: Id, row: Row) {
    a.Accepted() && exists e :: e in a.Effects() && e.PutMember? && e.id == m && e.row.(identity := row.identity) == row
  }

  lemma {:induction false} PutsCarryTheMark(a: Attempt, m: Id, row: Row)
    requires Put(a, m, row)
    ensures row.appliedMark == MarkOf(a.input)
  {
    var e :| e in a.Effects() && e.PutMember? && e.id == m && e.row.(identity := row.identity) == row;
    EffectsCarryTheMark(a, e);
  }

  /** Every row was put by an input that took effect, and carries its mark. */
  lemma {:induction false} RowMark(run: seq<Attempt>, m: Id)
    requires m in Run(EMPTY_DATABASE, run).tables.members
    ensures exists a :: a in FirstCommits({}, run) && Put(a, m, Run(EMPTY_DATABASE, run).tables.members[m])
                        && MarkOf(a.input) == Run(EMPTY_DATABASE, run).tables.members[m].appliedMark
  {
    RunIsAFold(EMPTY_DATABASE, run);
    var once := FirstCommits({}, run);
    FoldRowFrom(NO_TABLES, Log(once), m);
    var row := Run(EMPTY_DATABASE, run).tables.members[m];
    var e :| e in Log(once) && e.PutMember? && e.id == m && e.row.(identity := row.identity) == row;
    LoggedBy(once, e);
    var a :| a in once && a.Accepted() && e in a.Effects();
    PutsCarryTheMark(a, m, row);
  }

  /** The last page this consumer accepted is the k-th attempt, it ended its snapshot, and no page before
      it was taken at a higher mark. */
  predicate SnapshotsClosedAt(run: seq<Attempt>, c: string, k: nat) {
    && k < |run| && run[k].Accepted() && run[k].consumer == c && run[k].input.Page? && run[k].input.final
    && forall i :: 0 <= i < |run| && run[i].Accepted() && run[i].input.Page? ==>
         i <= k && run[i].input.mark <= run[k].input.mark
  }

  lemma {:induction false} RecordedAt(db: Database, run: seq<Attempt>, c: string, k: nat)
    requires k < |run| && run[k].Accepted() && run[k].consumer == c && run[k].input.Page? && run[k].input.final
    requires forall i :: k < i < |run| && run[i].Accepted() ==> !run[i].input.Page?
    ensures SnapshotMark(Run(db, run), c) == Some(run[k].input.mark)
  {
    if k < |run| - 1 {
      RecordedAt(db, run[..|run| - 1], c, k);
      assert run[|run| - 1].Accepted() ==> run[|run| - 1].input.Event?;
    }
  }

  /** A report's rows are the active memberships, each once, with the versions held. */
  predicate ListsActive(rows: seq<ReportedRow>, t: Tables) {
    && (forall i, j :: 0 <= i < j < |rows| ==> rows[i].membershipId < rows[j].membershipId)
    && (forall r :: r in rows ==> r.membershipId in ActiveIds(t) && r.version == t.members[r.membershipId].version)
    && (forall m :: m in ActiveIds(t) ==> ReportedRow(m, t.members[m].version) in rows)
  }

  lemma {:induction false} ReportListsActive(db: Database, c: string)
    requires ReportOf(db, c).Success?
    ensures ListsActive(ReportOf(db, c).value.rows, db.tables)
  {
    var ids := Ascending(ActiveIds(db.tables));
    var rows := ReportOf(db, c).value.rows;
    forall m | m in ActiveIds(db.tables)
      ensures ReportedRow(m, db.tables.members[m].version) in rows
    {
      assert m in ids;
      var i :| 0 <= i < |ids| && ids[i] == m;
      assert rows[i] in rows;
    }
    forall r | r in rows
      ensures r.membershipId in ActiveIds(db.tables) && r.version == db.tables.members[r.membershipId].version
    {
      var i :| 0 <= i < |rows| && rows[i] == r;
      assert ids[i] in ids;
    }
  }

  ghost predicate MarkCovers(db: Database, mark: int) {
    forall m :: m in db.tables.members ==> db.tables.members[m].appliedMark <= mark
  }

  /** A page, or an event heard by another consumer of the database, above a mark. */
  predicate Beyond(a: Attempt, c: string, mark: int) {
    (a.input.Page? || a.consumer != c) && mark < MarkOf(a.input)
  }

  /** The report's mark is at least that of every row, so that nothing it lists is newer than the instant it names,
      if and only if no row that stands was put by a page, or by another consumer's event, at a mark above it. */
  lemma {:induction false} ReportMarkCoversExactlyWhen(run: seq<Attempt>, c: string)
    requires ReportOf(Run(EMPTY_DATABASE, run), c).Success?
    ensures var db := Run(EMPTY_DATABASE, run);
            var mark := ReportOf(db, c).value.mark;
            MarkCovers(db, mark)
            <==> forall a, m :: a in FirstCommits({}, run) && Beyond(a, c, mark) && m in db.tables.members ==>
                   !Put(a, m, db.tables.members[m])
  {
    var db := Run(EMPTY_DATABASE, run);
    var mark := ReportOf(db, c).value.mark;
    WatermarkIsTheMaximum(EMPTY_DATABASE, run, c);
    forall m | m in db.tables.members
      ensures db.tables.members[m].appliedMark <= mark
              || exists a :: a in FirstCommits({}, run) && Beyond(a, c, mark) && Put(a, m, db.tables.members[m])
    {
      RowMark(run, m);
      var a :| a in FirstCommits({}, run) && Put(a, m, db.tables.members[m])
               && MarkOf(a.input) == db.tables.members[m].appliedMark;
      assert a.input.Event? && a.consumer == c ==> Moves(a, c);
    }
    forall a, m | a in FirstCommits({}, run) && m in db.tables.members && Put(a, m, db.tables.members[m])
      ensures db.tables.members[m].appliedMark == MarkOf(a.input)
    {
      PutsCarryTheMark(a, m, db.tables.members[m]);
    }
  }

  /** So it does with one consumer, when no snapshot is half seeded and no mark falls below an earlier one. */
  lemma {:induction false} ReportMarkCoversEveryRow(run: seq<Attempt>, c: string, k: nat)
    requires forall a :: a in run ==> a.consumer == c
    requires SnapshotsClosedAt(run, c, k)
    ensures var db := Run(EMPTY_DATABASE, run);
            && ReportOf(db, c).Success?
            && ListsActive(ReportOf(db, c).value.rows, db.tables)
            && MarkCovers(db, ReportOf(db, c).value.mark)
  {
    var db := Run(EMPTY_DATABASE, run);
    RecordedAt(EMPTY_DATABASE, run, c, k);
    FirstCommitsAreDistinct({}, run);
    ReportListsActive(db, c);
    forall a | a in FirstCommits({}, run) && a.input.Page?
      ensures a.input.mark <= ReportOf(db, c).value.mark
    {
      var i :| 0 <= i < |run| && run[i] == a;
    }
    ReportMarkCoversExactlyWhen(run, c);
  }

  const EMPTY_SNAPSHOT := Attempt("a", Page([], 5, true), 0, Commits)

  /** Without the last page: a row of an unfinished later snapshot is active, and newer than the mark it
      is reported under. */
  lemma {:induction false} AHalfSeededSnapshotEscapesTheMark()
    ensures var db := Run(EMPTY_DATABASE, [EMPTY_SNAPSHOT, Attempt("a", Page([SOMEONE], 9, false), 1, Commits)]);
            && ReportOf(db, "a").Success? && ReportOf(db, "a").value.mark == 5
            && 1 in ActiveIds(db.tables) && db.tables.members[1].appliedMark == 9
  {
    RunOfTwo(EMPTY_DATABASE, EMPTY_SNAPSHOT, Attempt("a", Page([SOMEONE], 9, false), 1, Commits));
    PageOfOne(NO_TABLES, SOMEONE, 9, 1);
  }

  /** With a second consumer of the same database: its row is in the first one's report, and newer than
      the first one's mark. */
  lemma {:induction false} ASharedDatabaseEscapesTheMark()
    ensures var db := Run(EMPTY_DATABASE, [EMPTY_SNAPSHOT, Attempt("b", Event(Grant(7, 1, 9)), 1, Commits)]);
            && ReportOf(db, "a").Success? && ReportOf(db, "a").value.mark == 5
            && 1 in ActiveIds(db.tables) && db.tables.members[1].appliedMark == 9
  {
    RunOfTwo(EMPTY_DATABASE, EMPTY_SNAPSHOT, Attempt("b", Event(Grant(7, 1, 9)), 1, Commits));
    var put := PutMember(1, MembershipRow(Grant(7, 1, 9).data.membership.value, Active, Grant(7, 1, 9), 1));
    assert Judge("b", Grant(7, 1, 9), 1) == Project([put]);
    FoldOne(NO_TABLES, put);
  }
}
