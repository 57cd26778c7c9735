/** When a reconciliation runs: a schedule driven by the age the producer records, and not by a timer. */
module Schedule {
  import opened Wrappers
  import opened Model
  import opened Queries
  import opened Projectors

  /** Durations and instants count nanoseconds. */
  const SECOND := 1_000_000_000

  datatype Registration = Registration(intervalSeconds: int, ageSeconds: Option<int>, requested: bool)

  predicate Due(r: Registration, check: int) {
    if r.requested || r.ageSeconds.None? then true
    else if r.intervalSeconds <= 0 then false
    else r.ageSeconds.value * SECOND + check >= r.intervalSeconds * SECOND
  }

  datatype Found = Found(classification: string, membershipId: Id)

  datatype RunResult = RunResult(mark: int, findings: seq<Found>)

  datatype Ticked = Ticked(ran: bool, rows: nat, result: RunResult)

  const NO_RUN := RunResult(0, [])

  /** How much of what was found is access the authority does not grant. */
  method Extra(findings: seq<Found>) returns (n: nat)
    ensures n == |set i | 0 <= i < |findings| && findings[i].classification == "extra"|
  {
    n := 0;
    for i := 0 to |findings|
      invariant n == |set j | 0 <= j < i && findings[j].classification == "extra"|
    {
      ghost var before := set j | 0 <= j < i && findings[j].classification == "extra";
      ghost var after := set j | 0 <= j < i + 1 && findings[j].classification == "extra";
      if findings[i].classification == "extra" {
        assert after == before + {i};
        n := n + 1;
      } else {
        assert after == before;
      }
    }
  }

  /** One check, and the report it sent, if it sent one. It never runs unless due, sends only what the
      projection then holds, and counts as run only once the producer has answered. */
  method Tick(p: Projector, registration: Result<Registration, Error>, answer: Result<RunResult, Error>, check: int)
    returns (outcome: Ticked, error: Option<Error>, sent: Option<Report>)
    ensures sent.Some? <==>
              registration.Success? && Due(registration.value, check) && ReportOf(p.pool.db, p.consumer).Success?
    ensures sent.Some? ==> Success(sent.value) == ReportOf(p.pool.db, p.consumer) && outcome.rows == |sent.value.rows|
    ensures outcome.ran <==> sent.Some? && answer.Success?
    ensures outcome.ran ==> outcome.result == answer.value
    ensures error.None? <==> registration.Success? && (Due(registration.value, check) ==> outcome.ran)
    ensures registration.Failure? ==> error == Some(registration.error)
    ensures registration.Success? && Due(registration.value, check) && sent.None? ==> error == Some(NotBootstrapped)
    ensures sent.Some? && answer.Failure? ==> error == Some(answer.error)
    ensures (sent.None? ==> outcome.rows == 0) && (!outcome.ran ==> outcome.result == NO_RUN)
  {
    outcome, error, sent := Ticked(false, 0, NO_RUN), None, None;
    if registration.Failure? {
      error := Some(registration.error);
      return;
    }
    if !Due(registration.value, check) {
      return;
    }
    var report := p.Report();
    if report.Failure? {
      error := Some(report.error);
      return;
    }
    sent := Some(report.value);
    outcome := outcome.(rows := |report.value.rows|);
    if answer.Failure? {
      error := Some(answer.error);
      return;
    }
    outcome := outcome.(ran := true, result := answer.value);
  }

  // Any number of replicas, checking in any order.

  /** One check by some replica: when, whether a run would succeed then, and whether a restore has asked
      for one. */
  datatype Check = Check(at: int, succeeds: bool, requested: bool)

  /** The producer's record: its last run, and the due checks that have failed since. */
  datatype Recorded = Recorded(last: Option<int>, failures: nat)

  /** What the producer answers, in whole seconds on its own clock. */
  function Told(rec: Recorded, interval: int, t: Check): Registration {
    Registration(interval, if rec.last.Some? then Some((t.at - rec.last.value) / SECOND) else None, t.requested)
  }

  function AfterCheck(rec: Recorded, interval: int, check: int, t: Check): Recorded {
    if !Due(Told(rec, interval, t), check) then rec
    else if t.succeeds then Recorded(Some(t.at), 0)
    else rec.(failures := rec.failures + 1)
  }

  function After(start: Option<int>, interval: int, check: int, ticks: seq<Check>): Recorded {
    if ticks == [] then Recorded(start, 0)
    else AfterCheck(After(start, interval, check, ticks[..|ticks| - 1]), interval, check, ticks[|ticks| - 1])
  }

  /** Checks in order of time, at most one check interval apart, the first as soon after the last run. */
  ghost predicate Spaced(start: Option<int>, check: int, ticks: seq<Check>) {
    && (start.Some? && ticks != [] ==> 0 <= ticks[0].at - start.value <= check)
    && (forall i :: 0 < i < |ticks| ==> 0 <= ticks[i].at - ticks[i - 1].at <= check)
  }

  /** What flooring the age to seconds hides of a check: of a check of whole seconds, nothing. */
  function Hidden(check: int): int {
    Max(0, check % SECOND - 1)
  }

  /** How far past the interval a gap can go: by what flooring hides, and by one check for each failure. */
  predicate WithinBound(gap: int, interval: int, check: int, failures: nat) {
    gap <= interval * SECOND + Hidden(check) + failures * check
  }

  /** At every check, however many replicas make them: the last recorded run is at most the declared interval
      ago, and what flooring hides, plus one check for each due check that failed since. A run that succeeds at
      that check is recorded then, so the same bounds the gap between consecutive recorded runs. */
  lemma {:induction false} TheGapIsBounded(start: Option<int>, interval: int, check: int, ticks: seq<Check>)
    requires 0 < check <= interval * SECOND && ticks != [] && Spaced(start, check, ticks)
    ensures var rec, now := After(start, interval, check, ticks[..|ticks| - 1]), ticks[|ticks| - 1].at;
            rec.last.Some? ==>
              0 <= now - rec.last.value && WithinBound(now - rec.last.value, interval, check, rec.failures)
  {
    var earlier := ticks[..|ticks| - 1];
    if earlier != [] {
      TheGapIsBounded(start, interval, check, earlier);
      OneCheckLater(After(start, interval, check, earlier[..|earlier| - 1]), interval, check, earlier[|earlier| - 1],
          ticks[|ticks| - 1].at);
    }
  }

  lemma {:induction false} OneCheckLater(rec: Recorded, interval: int, check: int, t: Check, next: int)
    requires 0 < check <= interval * SECOND && 0 <= next - t.at <= check
    requires rec.last.Some? ==>
               0 <= t.at - rec.last.value && WithinBound(t.at - rec.last.value, interval, check, rec.failures)
    ensures var after := AfterCheck(rec, interval, check, t);
            after.last.Some? ==>
              0 <= next - after.last.value && WithinBound(next - after.last.value, interval, check, after.failures)
  {
    var after := AfterCheck(rec, interval, check, t);
    if !Due(Told(rec, interval, t), check) {
      assert rec.failures * check >= 0;
    } else if !t.succeeds {
      assert after.failures * check == rec.failures * check + check;
    }
  }

  /** Until a first run is recorded every check is due, so only failures delay it; and a run nobody asked for
      is never recorded while the last is younger than the interval less one check. */
  lemma {:induction false} RunsAreNeitherWithheldNorEarly(rec: Recorded, interval: int, check: int, t: Check)
    requires rec.last.Some? ==> rec.last.value <= t.at
    ensures rec.last.None? || t.requested ==>
              AfterCheck(rec, interval, check, t) == if t.succeeds then Recorded(Some(t.at), 0)
                  else rec.(failures := rec.failures + 1)
    ensures rec.last.Some? && !t.requested && AfterCheck(rec, interval, check, t) != rec ==>
              interval * SECOND <= t.at - rec.last.value + check
  {
  }

  /** A registration that declares no interval is due only for a request, or for a first run. */
  lemma {:induction false} NoIntervalNoSchedule(r: Registration, check: int)
    requires r.intervalSeconds <= 0
    ensures Due(r, check) <==> r.requested || r.ageSeconds.None?
  {
  }

  /** The interval is easily passed: with a check of a second and a half, a run declared every three seconds
      comes three and four tenths apart. */
  lemma {:induction false} APartialSecondOverruns()
    ensures var ticks := [Check(1_400_000_000, true, false), Check(1_900_000_000, true, false),
            Check(3_400_000_000, true, false)];
            && Spaced(Some(0), 1_500_000_000, ticks)
            && After(Some(0), 3, 1_500_000_000, ticks[..2]) == Recorded(Some(0), 0)
            && After(Some(0), 3, 1_500_000_000, ticks) == Recorded(Some(3_400_000_000), 0)
  {
    var ticks := [Check(1_400_000_000, true, false), Check(1_900_000_000, true, false),
        Check(3_400_000_000, true, false)];
    assert ticks[..2][..1] == ticks[..1];
    assert ticks[..1][..0] == [];
    assert After(Some(0), 3, 1_500_000_000, ticks[..1]) == Recorded(Some(0), 0);
    assert After(Some(0), 3, 1_500_000_000, ticks[..2]) == Recorded(Some(0), 0);
  }

  // The bound is reached.

  /** Checks exactly one check apart, the (m + 1)-th of them at `due` and k more after it; only the last would
      succeed. */
  function Failing(due: int, check: int, m: nat, k: nat): (ticks: seq<Check>)
    ensures |ticks| == m + 1 + k
  {
    seq(m + 1 + k, i => Check(due - (m - i) * check, i == m + k, false))
  }

  /** The first check that finds a run due comes as late as floored seconds allow, and every one before it finds
      none due. */
  predicate Latest(due: int, interval: int, check: int) {
    && 0 < check <= interval * SECOND
    && (due == interval * SECOND + check % SECOND - 1 || (due == interval * SECOND && check == interval * SECOND))
  }

  /** How many whole checks fit before an instant. */
  lemma {:induction false} ChecksBefore(due: int, check: int) returns (m: nat)
    requires 0 < due && 0 < check
    ensures 0 < due - m * check <= check
    decreases due
  {
    if due <= check {
      m := 0;
    } else {
      m := ChecksBefore(due - check, check);
      m := m + 1;
    }
  }

  lemma {:induction false} DueFromThenOn(due: int, interval: int, check: int, failures: nat, at: int)
    requires Latest(due, interval, check)
    ensures 0 < at <= due - check ==> !Due(Told(Recorded(Some(0), failures), interval, Check(at, false, false)), check)
    ensures due <= at ==> Due(Told(Recorded(Some(0), failures), interval, Check(at, false, false)), check)
  {
  }

  lemma {:induction false} AwayFromDue(check: int, m: nat, i: nat)
    requires 0 < check
    ensures i < m ==> check <= (m - i) * check <= m * check
    ensures m <= i ==> (m - i) * check <= 0
    ensures (m - i) * check == (m - (i + 1)) * check + check
  {
    if i < m {
      Scaled(m - i, check);
      Scaled(i + 1, check);
      assert m * check == (m - i) * check + i * check;
    } else {
      Scaled(m - i, check);
    }
    assert (m - i) * check - (m - (i + 1)) * check == ((m - i) - (m - (i + 1))) * check;
  }

  lemma {:induction false} Scaled(n: int, check: int)
    requires 0 < check
    ensures 1 <= n ==> check <= n * check
    ensures n <= 0 ==> n * check <= 0
  {
  }

  lemma {:induction false} FailingIsRecorded(due: int, interval: int, check: int, m: nat, k: nat, n: nat)
    requires Latest(due, interval, check) && 0 < due - m * check && n <= m + k
    ensures After(Some(0), interval, check, Failing(due, check, m, k)[..n])
            == Recorded(Some(0), if n <= m then 0 else n - m)
  {
    if n > 0 {
      var ticks, i := Failing(due, check, m, k), n - 1;
      FailingIsRecorded(due, interval, check, m, k, i);
      assert ticks[..n][..i] == ticks[..i] && ticks[..n][i] == ticks[i];
      AwayFromDue(check, m, i);
      DueFromThenOn(due, interval, check, After(Some(0), interval, check, ticks[..i]).failures, ticks[i].at);
    }
  }

  /** For every interval, every check and every number of failures: a schedule in which exactly that many due
      checks fail and the gap is the bound, less a nanosecond when checks are whole seconds, unless a check is the
      whole interval. */
  lemma {:induction false} FailuresStretchTheGap(due: int, interval: int, check: int, k: nat)
    returns (ticks: seq<Check>)
    requires Latest(due, interval, check)
    ensures ticks != [] && Spaced(Some(0), check, ticks)
    ensures After(Some(0), interval, check, ticks[..|ticks| - 1]) == Recorded(Some(0), k)
    ensures After(Some(0), interval, check, ticks) == Recorded(Some(due + k * check), 0)
    ensures ticks[|ticks| - 1].at == due + k * check
  {
    var m := ChecksBefore(due, check);
    ticks := Failing(due, check, m, k);
    FailingIsSpaced(due, check, m, k);
    LastSucceeds(due, interval, check, m, k);
  }

  lemma {:induction false} FailingIsSpaced(due: int, check: int, m: nat, k: nat)
    requires 0 < check && 0 < due - m * check <= check
    ensures Spaced(Some(0), check, Failing(due, check, m, k))
  {
    var ticks := Failing(due, check, m, k);
    forall i | 0 < i < |ticks|
      ensures ticks[i].at - ticks[i - 1].at == check
    {
      AwayFromDue(check, m, i - 1);
    }
  }

  lemma {:induction false} LastSucceeds(due: int, interval: int, check: int, m: nat, k: nat)
    requires Latest(due, interval, check) && 0 < due - m * check
    ensures var ticks := Failing(due, check, m, k);
            && After(Some(0), interval, check, ticks[..m + k]) == Recorded(Some(0), k)
            && After(Some(0), interval, check, ticks) == Recorded(Some(due + k * check), 0)
            && ticks[m + k].at == due + k * check
  {
    var ticks := Failing(due, check, m, k);
    FailingIsRecorded(due, interval, check, m, k, m + k);
    LastIsFailuresLater(check, m, k);
    var last := ticks[m + k];
    assert last == Check(due + k * check, true, false);
    DueFromThenOn(due, interval, check, k, last.at);
    assert ticks[..|ticks| - 1] == ticks[..m + k];
  }

  lemma {:induction false} LastIsFailuresLater(check: int, m: nat, k: nat)
    requires 0 < check
    ensures (m - (m + k)) * check == -(k * check) && 0 <= k * check
  {
  }

  /** At its last check, a schedule is within the interval if it got there by exactly k failures. */
  ghost predicate KeepsTheInterval(start: Option<int>, interval: int, check: int, ticks: seq<Check>, k: nat) {
    ticks != [] && Spaced(start, check, ticks) ==>
      var rec := After(start, interval, check, ticks[..|ticks| - 1]);
      rec.last.Some? && rec.failures == k ==> ticks[|ticks| - 1].at - rec.last.value <= interval * SECOND
  }

  lemma {:induction false} WithoutFailures(start: Option<int>, interval: int, check: int, ticks: seq<Check>)
    requires 0 < check <= interval * SECOND && check % SECOND <= 1
    ensures KeepsTheInterval(start, interval, check, ticks, 0)
  {
    if ticks != [] && Spaced(start, check, ticks) {
      TheGapIsBounded(start, interval, check, ticks);
      assert 0 * check == 0;
    }
  }

  lemma {:induction false} Overrun(interval: int, check: int, k: nat) returns (ticks: seq<Check>)
    requires 0 < check <= interval * SECOND && (0 < k || 1 < check % SECOND)
    ensures !KeepsTheInterval(Some(0), interval, check, ticks, k)
  {
    ticks := FailuresStretchTheGap(interval * SECOND + check % SECOND - 1, interval, check, k);
    Scaled(k, check);
  }

  /** Whatever the interval and the check: every schedule keeps the interval if and only if no due check fails and
      the check is whole seconds, or a nanosecond over. */
  lemma {:induction false} KeptExactlyWhen(interval: int, check: int, k: nat)
    requires 0 < check <= interval * SECOND
    ensures (forall start, ticks :: KeepsTheInterval(start, interval, check, ticks, k))
            <==> k == 0 && check % SECOND <= 1
  {
    if k == 0 && check % SECOND <= 1 {
      forall start, ticks
        ensures KeepsTheInterval(start, interval, check, ticks, k)
      {
        WithoutFailures(start, interval, check, ticks);
      }
    } else {
      var ticks := Overrun(interval, check, k);
    }
  }
}
