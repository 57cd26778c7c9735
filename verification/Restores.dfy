/** The authority restored to an older point: the bump that is meant to keep its tenants' pairs rising, and
    exactly when it does. */
module Restores {
  import opened Wrappers
  import opened Model
  import opened Effects
  import opened Transactions

  const BUMP := 1_000_000_000

  /** What the authority does to one tenant: a transition, of its security version or of its version alone, or
      a restore that loses the newest states it had reached. */
  datatype Act = Transition(security: bool) | Restore(lost: nat)

  /** A state the authority passed through, and how it got there. */
  datatype Reached = Reached(pair: Pair, cause: Act)

  /** The states a restore could go back to, oldest first, and every pair ever published. */
  datatype Tenant = Tenant(lineage: seq<Reached>, published: seq<Pair>)
  {
    predicate Valid() {
      lineage != [] && published != [] && lineage[|lineage| - 1].pair == published[|published| - 1]
    }

    function Current(): Pair
      requires Valid()
    {
      published[|published| - 1]
    }
  }

  function Begin(start: Pair): (t: Tenant)
    ensures t.Valid() && t.Current() == start
  {
    Tenant([Reached(start, Transition(false))], [start])
  }

  function Bumped(base: Pair): Pair {
    Pair(base.security + BUMP, base.version + BUMP)
  }

  function Moved(from: Pair, security: bool): Pair {
    Pair(from.security + (if security then 1 else 0), from.version + 1)
  }

  function Publish(t: Tenant, kept: nat, pair: Pair, cause: Act): (after: Tenant)
    requires t.Valid() && kept <= |t.lineage|
    ensures after.Valid() && after.Current() == pair
  {
    Tenant(t.lineage[..kept] + [Reached(pair, cause)], t.published + [pair])
  }

  predicate Possible(t: Tenant, a: Act) {
    t.Valid() && (a.Restore? ==> a.lost < |t.lineage|)
  }

  function Does(t: Tenant, a: Act): (after: Tenant)
    requires Possible(t, a)
    ensures after.Valid()
  {
    match a
    case Transition(security) => Publish(t, |t.lineage|, Moved(t.Current(), security), a)
    case Restore(lost) => Publish(t, |t.lineage| - lost, Bumped(t.lineage[|t.lineage| - 1 - lost].pair), a)
  }

  /** Anything the authority can do, restores that break the bump's promise among them. */
  function After(t: Tenant, acts: seq<Act>): (after: Option<Tenant>)
    ensures after.Some? && acts != [] ==> after.value.Valid()
  {
    if acts == [] then Some(t)
    else
      match After(t, acts[..|acts| - 1])
      case None => None
      case Some(before) =>
        if Possible(before, acts[|acts| - 1]) then Some(Does(before, acts[|acts| - 1])) else None
  }

  // What a restore loses.

  /** The newest states, which a restore losing that many forgets. */
  function Gone(t: Tenant, lost: nat): seq<Reached>
    requires lost < |t.lineage|
  {
    t.lineage[|t.lineage| - lost..]
  }

  function SecurityTransitions(states: seq<Reached>): nat {
    if states == [] then 0
    else SecurityTransitions(states[..|states| - 1]) + (if states[|states| - 1].cause == Transition(true) then 1 else 0)
  }

  function RestoresAmong(states: seq<Reached>): nat {
    if states == [] then 0
    else RestoresAmong(states[..|states| - 1]) + (if states[|states| - 1].cause.Restore? then 1 else 0)
  }

  /** Each state of a lineage follows from the one before it by the act that reached it. */
  ghost predicate Stepwise(lineage: seq<Reached>) {
    forall i :: 0 < i < |lineage| ==>
      match lineage[i].cause
      case Transition(security) => lineage[i].pair == Moved(lineage[i - 1].pair, security)
      case Restore(_) => lineage[i].pair == Bumped(lineage[i - 1].pair)
  }

  lemma {:induction false} ActsKeepLineagesStepwise(t: Tenant, a: Act)
    requires Possible(t, a) && Stepwise(t.lineage)
    ensures Stepwise(Does(t, a).lineage)
  {
    var kept := if a.Restore? then |t.lineage| - a.lost else |t.lineage|;
    var after := Does(t, a).lineage;
    assert |after| == kept + 1 && after[..kept] == t.lineage[..kept];
    assert forall i :: 0 <= i < kept ==> after[i] == t.lineage[i];
  }

  lemma {:induction false} LineagesAreStepwise(t: Tenant, acts: seq<Act>)
    requires t.Valid() && Stepwise(t.lineage) && After(t, acts).Some?
    ensures Stepwise(After(t, acts).value.lineage) && After(t, acts).value.Valid()
  {
    if acts != [] {
      LineagesAreStepwise(t, acts[..|acts| - 1]);
      ActsKeepLineagesStepwise(After(t, acts[..|acts| - 1]).value, acts[|acts| - 1]);
    }
  }

  /** Going back undoes one security version for each security transition lost, at least as many versions, and
      the whole bump of each restore lost. */
  lemma {:induction false} LossIsCounted(lineage: seq<Reached>, from: nat)
    requires from < |lineage| && Stepwise(lineage)
    ensures var gone, now, base := lineage[from + 1..], lineage[|lineage| - 1].pair, lineage[from].pair;
            && now.security - base.security == SecurityTransitions(gone) + BUMP * RestoresAmong(gone)
            && now.version - base.version >= SecurityTransitions(gone) + BUMP * RestoresAmong(gone)
    decreases |lineage|
  {
    if from < |lineage| - 1 {
      var init := lineage[..|lineage| - 1];
      LossIsCounted(init, from);
      assert lineage[from + 1..][..|lineage| - from - 2] == init[from + 1..];
    }
  }

  /** What an operator can read off the backup before restoring it: it predates no earlier restore, and fewer
      security transitions than the bump. */
  predicate LosesLessThanTheBump(t: Tenant, lost: nat)
    requires lost < |t.lineage|
  {
    RestoresAmong(Gone(t, lost)) == 0 && SecurityTransitions(Gone(t, lost)) < BUMP
  }

  lemma {:induction false} ARestoreSupersedesExactlyWhen(t: Tenant, lost: nat)
    requires t.Valid() && Stepwise(t.lineage) && lost < |t.lineage|
    ensures t.Current().Less(Does(t, Restore(lost)).Current()) <==> LosesLessThanTheBump(t, lost)
  {
    LossIsCounted(t.lineage, |t.lineage| - 1 - lost);
    var restores := RestoresAmong(Gone(t, lost));
    assert restores > 0 ==> BUMP * restores >= BUMP;
  }

  /** Whatever the authority has been through, restores that broke the promise among them: the pair a restore
      publishes is newer than the pair before it if and only if the restore loses no earlier restore and fewer
      security transitions than the bump. */
  lemma {:induction false} EveryRestoreSupersedesExactlyWhen(start: Pair, acts: seq<Act>, lost: nat)
    requires After(Begin(start), acts).Some? && lost < |After(Begin(start), acts).value.lineage|
    ensures var t := After(Begin(start), acts).value;
            t.Valid() && (t.Current().Less(Does(t, Restore(lost)).Current()) <==> LosesLessThanTheBump(t, lost))
  {
    LineagesAreStepwise(Begin(start), acts);
    ARestoreSupersedesExactlyWhen(After(Begin(start), acts).value, lost);
  }

  /** Restoring the same backup a second time loses the first restore, and publishes the pair it published: a
      withdrawal that comes with it supersedes nothing. */
  lemma {:induction false} TheSameBackupTwiceSupersedesNothing(t: Tenant, lost: nat)
    requires t.Valid() && lost < |t.lineage|
    ensures var once := Does(t, Restore(lost));
            && SecurityTransitions(Gone(once, 1)) == 0
            && Does(once, Restore(1)).Current() == once.Current()
            && !LosesLessThanTheBump(once, 1)
  {
    var once := Does(t, Restore(lost));
    assert Gone(once, 1) == [Reached(once.Current(), Restore(lost))];
    assert Gone(once, 1)[..0] == [];
  }

  // Whole runs.

  ghost predicate Rising(pairs: seq<Pair>) {
    forall i, j :: 0 <= i < j < |pairs| ==> pairs[i].Less(pairs[j])
  }

  /** Every restore in the run, when it was made, lost less than the bump. */
  predicate KeepsThePromise(t: Tenant, acts: seq<Act>)
    requires After(t, acts).Some?
  {
    acts == []
    || (var earlier, last := acts[..|acts| - 1], acts[|acts| - 1];
        KeepsThePromise(t, earlier) && (last.Restore? ==> LosesLessThanTheBump(After(t, earlier).value, last.lost)))
  }

  /** Through any number of transitions and restores, every pair ever published is newer than every pair published
      before it, if and only if every restore lost no earlier restore and fewer security transitions than the
      bump. */
  lemma {:induction false} PublishedPairsRiseExactlyWhen(t: Tenant, acts: seq<Act>)
    requires t.Valid() && Stepwise(t.lineage) && Rising(t.published) && After(t, acts).Some?
    ensures Rising(After(t, acts).value.published) <==> KeepsThePromise(t, acts)
    ensures t.published <= After(t, acts).value.published
  {
    if acts != [] {
      var earlier, last := acts[..|acts| - 1], acts[|acts| - 1];
      var before := After(t, earlier).value;
      PublishedPairsRiseExactlyWhen(t, earlier);
      LineagesAreStepwise(t, earlier);
      if last.Restore? {
        ARestoreSupersedesExactlyWhen(before, last.lost);
      }
      OneMorePair(before.published, Does(before, last).Current());
    }
  }

  lemma {:induction false} OneMorePair(pairs: seq<Pair>, pair: Pair)
    requires pairs != []
    ensures Rising(pairs + [pair]) <==> Rising(pairs) && pairs[|pairs| - 1].Less(pair)
  {
    var more := pairs + [pair];
    if Rising(more) {
      assert more[|pairs| - 1].Less(more[|pairs|]);
      assert forall i :: 0 <= i < |pairs| ==> more[i] == pairs[i];
    }
    if Rising(pairs) && pairs[|pairs| - 1].Less(pair) {
      forall i, j | 0 <= i < j < |more|
        ensures more[i].Less(more[j])
      {
        assert i < |pairs| - 1 ==> pairs[i].Less(pairs[|pairs| - 1]);
      }
    }
  }

  /** What a consumer does with the i-th pair published when it holds the j-th: it applies the event exactly
      when the pair was published later, so a republished withdrawal supersedes whatever is held, every later
      transition is applied, and every late event from before a restore is superseded. */
  lemma {:induction false} TheConsumerFollowsPublication(start: Pair, acts: seq<Act>, db: Database, c: string,
    e: Envelope, at: int, i: nat, j: nat)
    requires After(Begin(start), acts).Some? && KeepsThePromise(Begin(start), acts)
    requires i < |After(Begin(start), acts).value.published| && j < |After(Begin(start), acts).value.published|
    requires e.etype.IsTenant() && Judge(c, e, at).Project? && (e.id, c) !in db.inbox
    requires var p := e.data.tenant.value;
             && Pair(p.securityVersion, p.version) == After(Begin(start), acts).value.published[i]
             && p.tenantId in db.tables.tenants
             && db.tables.tenants[p.tenantId].pair == After(Begin(start), acts).value.published[j]
    ensures var p, answer, after := e.data.tenant.value, Answer(db, c, e, at).value,
            Delivered(db, c, e, at).tables.tenants;
            && (answer.applied <==> j < i)
            && (answer.superseded <==> i <= j)
            && after[p.tenantId].pair == After(Begin(start), acts).value.published[Max(i, j)]
            && after[p.tenantId].status == if j < i then p.status else db.tables.tenants[p.tenantId].status
  {
    PublishedPairsRiseExactlyWhen(Begin(start), acts);
    var published, p := After(Begin(start), acts).value.published, e.data.tenant.value;
    assert i < j ==> published[i].Less(published[j]);
    assert j < i ==> published[j].Less(published[i]);
    var put := Judge(c, e, at).effects[0];
    assert Judge(c, e, at).effects == [put];
    FoldOne(db.tables, put);
    if j < i {
      assert Step(db.tables, put).tenants[p.tenantId].pair != db.tables.tenants[p.tenantId].pair;
    }
  }

  // How large a version gets.

  function RestoresIn(acts: seq<Act>): nat {
    if acts == [] then 0 else RestoresIn(acts[..|acts| - 1]) + (if acts[|acts| - 1].Restore? then 1 else 0)
  }

  /** No component of any state exceeds the first by more than one a transition and the bump a restore. */
  predicate Within(pair: Pair, start: Pair, transitions: nat, restores: nat) {
    && pair.security <= start.security + transitions + restores * BUMP
    && pair.version <= start.version + transitions + restores * BUMP
  }

  lemma {:induction false} VersionsAreBounded(start: Pair, acts: seq<Act>)
    requires After(Begin(start), acts).Some?
    ensures var t, restores := After(Begin(start), acts).value, RestoresIn(acts);
            && restores <= |acts|
            && t.Valid()
            && (forall r :: r in t.lineage ==> Within(r.pair, start, |acts| - restores, restores))
  {
    if acts != [] {
      var earlier, last := acts[..|acts| - 1], acts[|acts| - 1];
      VersionsAreBounded(start, earlier);
      var before := After(Begin(start), earlier).value;
      var restores := RestoresIn(earlier);
      assert last.Restore? ==> (restores + 1) * BUMP == restores * BUMP + BUMP;
      assert before.lineage[|before.lineage| - 1] in before.lineage;
      assert last.Restore? ==> before.lineage[|before.lineage| - 1 - last.lost] in before.lineage;
    }
  }

  const INT64_MAX := 9_223_372_036_854_775_807
  const RESTORES := 9_000_000_000
  const TRANSITIONS := 223_372_036_854_775_807

  /** Nine billion restores fit in the column, with room for all but a fortieth of it in transitions. */
  lemma {:induction false} VersionsFitTheColumn(start: Pair, acts: seq<Act>)
    requires After(Begin(start), acts).Some?
    requires RestoresIn(acts) <= RESTORES
    requires Max(start.security, start.version) + |acts| - RestoresIn(acts) <= TRANSITIONS
    ensures var now := After(Begin(start), acts).value.Current(); now.security <= INT64_MAX && now.version <= INT64_MAX
  {
    VersionsAreBounded(start, acts);
    var t := After(Begin(start), acts).value;
    assert t.lineage[|t.lineage| - 1] in t.lineage;
    assert RestoresIn(acts) * BUMP <= RESTORES * BUMP;
  }
}
