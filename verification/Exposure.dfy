/** Runs that show where the bound on staleness ends: that it is reached, what it does not cover, and why ageing
    an answer from any other instant would break it. */
module Exposure {
  import opened Wrappers
  import opened Model
  import opened Effects
  import opened Transactions
  import opened Queries
  import opened Runs
  import opened Frontier
  import opened Enforcer
  import opened Staleness
  import opened Samples

  const REVOKED := MemberClaim(1, Identity(2, 3, None), Revoked, 2)
  const SUSPENDED := TenantClaim(2, "suspended", Pair(2, 2))

  /** A tenant's suspension as a body this consumer cannot read. */
  const UNREADABLE_SUSPENSION := Envelope(9, TenantSuspended, 21, EventData(None, None, None))

  /** A snapshot of one active membership of one active tenant, in one page. */
  function Seeding(k: Config, at: int): Attempt {
    Attempt(k.consumer, Page([SOMEONE], 9, true), at, Commits)
  }

  /** A producer that owes nothing, or one delivery of some age, and has given up on no membership event. */
  function TrueWire(w: World, k: Config, age: Option<int>): Wire {
    Wire(20, 20, if age.Some? then age.value else 0, age.Some?, 0, 0, Some(false), Some(ProducerClock(w, k, w.now)))
  }

  lemma {:induction false} OneMoreMove(k: Config, moves: seq<Move>, m: Move)
    requires Possible(k, moves) && Enabled(Play(k, moves), k, m)
    ensures Possible(k, moves + [m]) && Play(k, moves + [m]) == Moved(Play(k, moves), k, m)
  {
    assert (moves + [m])[..|moves + [m]| - 1] == moves;
  }

  lemma {:induction false} Unheard(k: Config, e: Envelope, transition: Claim, wait: nat) returns (moves: seq<Move>)
    requires Announced(k, e, transition)
    ensures Possible(k, moves)
    ensures Play(k, moves) == START.(now := 1 + wait, owed := {e.id}, sent := map[e.id := Sent(e, transition, 1)])
  {
    OneMoreMove(k, [], Commit(e, transition));
    OneMoreMove(k, [] + [Commit(e, transition)], Tick(wait));
    moves := [] + [Commit(e, transition)] + [Tick(wait)];
  }

  lemma {:induction false} ThenSeeded(k: Config, moves: seq<Move>) returns (more: seq<Move>)
    requires Possible(k, moves) && Play(k, moves).db == EMPTY_DATABASE
    ensures Possible(k, more)
    ensures Play(k, more) == Play(k, moves).(db := Next(EMPTY_DATABASE, Seeding(k, Play(k, moves).now)))
  {
    var a := Seeding(k, Play(k, moves).now);
    AttemptClaims(a);
    assert forall e :: e in a.Effects() ==> !e.Remove?;
    OneMoreMove(k, moves, Meanwhile(a));
    more := moves + [Meanwhile(a)];
  }

  lemma {:induction false} ThenAsked(k: Config, moves: seq<Move>, call: nat) returns (more: seq<Move>)
    requires Possible(k, moves) && Hit(Cached(Play(k, moves)), k.ttl, Play(k, moves).now).None?
    ensures Possible(k, more)
    ensures var w := Play(k, moves); Play(k, more) == w.(calls := w.calls[call := Waiting(w.now)])
  {
    var w := Play(k, moves);
    OneMoreMove(k, moves, Stamp(call));
    OneMoreMove(k, moves + [Stamp(call)], Check(call));
    more := moves + [Stamp(call)] + [Check(call)];
    assert w.calls[call := Stamped(w.now)][call := Waiting(w.now)] == w.calls[call := Waiting(w.now)];
  }

  lemma {:induction false} ThenObserved(k: Config, moves: seq<Move>, call: nat, wire: Wire) returns (more: seq<Move>)
    requires Possible(k, moves) && TellsTheTruth(Play(k, moves), k, wire)
    requires call in Play(k, moves).calls && Play(k, moves).calls[call].Waiting?
    ensures Possible(k, more)
    ensures var w := Play(k, moves);
            Play(k, more) == w.(told := w.told + {(wire, w.now)},
                                calls := w.calls[call := Answering(wire, w.calls[call].stamp, w.now)])
  {
    OneMoreMove(k, moves, Observe(call, wire));
    more := moves + [Observe(call, wire)];
  }

  function HeldFrom(c: Call): Held
    requires c.Answering? && Read(Replied(200, Some(c.wire)), c.stamp).Success?
  {
    Held(Read(Replied(200, Some(c.wire)), c.stamp).value, c.seen)
  }

  lemma {:induction false} ThenReceived(k: Config, moves: seq<Move>, call: nat) returns (more: seq<Move>)
    requires Possible(k, moves) && call in Play(k, moves).calls && Play(k, moves).calls[call].Answering?
    requires var c := Play(k, moves).calls[call]; Read(Replied(200, Some(c.wire)), c.stamp).Success?
    ensures Possible(k, more)
    ensures var w := Play(k, moves);
            var held := HeldFrom(w.calls[call]);
            Play(k, more) == w.(cache := Some(held),
                                calls := w.calls[call := Returned(held, w.calls[call].stamp, false)])
  {
    OneMoreMove(k, moves, Receive(call));
    more := moves + [Receive(call)];
  }

  /** A call stamped, checked and answered truthfully in one instant, whose answer takes its time to arrive. */
  lemma {:induction false} ThenRead(k: Config, moves: seq<Move>, wire: Wire, delay: nat) returns (more: seq<Move>)
    requires Possible(k, moves) && TellsTheTruth(Play(k, moves), k, wire)
    requires Hit(Cached(Play(k, moves)), k.ttl, Play(k, moves).now).None?
    requires Read(Replied(200, Some(wire)), Play(k, moves).now).Success?
    ensures Possible(k, more)
    ensures var w, after := Play(k, moves), Play(k, more);
            var held := Held(Read(Replied(200, Some(wire)), w.now).value, w.now);
            && after.now == w.now + delay && after.db == w.db && after.cache == Some(held)
            && after.sent == w.sent && after.owed == w.owed && after.dead == w.dead
            && 0 in after.calls && after.calls[0] == Returned(held, w.now, false)
  {
    more := ThenAsked(k, moves, 0);
    assert TellsTheTruth(Play(k, more), k, wire);
    more := ThenObserved(k, more, 0, wire);
    OneMoreMove(k, more, Tick(delay));
    more := more + [Tick(delay)];
    more := ThenReceived(k, more, 0);
  }

  /** A revocation owed for a while, and the producer saying so. */
  lemma {:induction false} OwedRevocation(k: Config, wait: nat, delay: nat) returns (moves: seq<Move>)
    requires 1 in k.granted
    ensures Possible(k, moves)
    ensures var w := Play(k, moves);
            && w.now == 1 + wait + delay && w.db == EMPTY_DATABASE
            && w.sent == map[8 := Sent(Revocation(8, 2, 20), REVOKED, 1)]
            && 0 in w.calls && w.calls[0].Returned?
            && var facts := w.calls[0].held.facts;
            && !facts.securityDebt && facts.unpublished && facts.oldestUnpublishedAge == wait
            && facts.readAt == 1 + wait && facts.observedAt == 1 + wait + k.skew
  {
    ARevocationSaysSo(k);
    moves := Unheard(k, Revocation(8, 2, 20), REVOKED, wait);
    var w := Play(k, moves);
    assert OwedFor(w, k, 8) == wait;
    moves := ThenRead(k, moves, TrueWire(w, k, Some(wait)), delay);
  }

  lemma {:induction false} ARevocationSaysSo(k: Config)
    requires 1 in k.granted
    ensures Announced(k, Revocation(8, 2, 20), REVOKED)
  {
    var e := Revocation(8, 2, 20);
    var put := PutMember(1, MembershipRow(e.data.membership.value, Revoked, e, 0));
    assert Judge(k.consumer, e, 0) == Project([put]);
    assert ClaimsOf([put]) == {put.Claims()};
  }

  /** The seeded tables confer on one principal of one tenant, and hold neither what withdraws it. */
  lemma {:induction false} SeededConfers(k: Config, at: int) returns (record: Record)
    ensures var db := Next(EMPTY_DATABASE, Seeding(k, at));
            && Answers(db.tables, 2, 3, Success(record)) && record.membershipId == 1 && record.version == 1
            && AgeOf(db, k.consumer, at) == Success(0)
            && !Reflects(db.tables, REVOKED) && !Reflects(db.tables, SUSPENDED)
  {
    var t := Next(EMPTY_DATABASE, Seeding(k, at)).tables;
    PageOfOne(NO_TABLES, SOMEONE, 9, at);
    assert t.members.Keys == {1} && t.tenants.Keys == {2};
    record := RecordOf(1, t.members[1]);
    assert ActiveFor(t, 2, 3, 1);
    assert NewestActive(t, 2, 3, 1);
    StandingIsUnique(t, 2, 3, Holds);
  }

  /** A permission come to in one instant, on the call 0. */
  function AtOnce(w: World, maxAge: int, record: Record): Permission {
    Permission(w, w, w, 0, maxAge, 2, 3, record)
  }

  /** So a call that returned no debt, and owed nothing older than the window by now, permits. */
  lemma {:induction false} SeededPermits(w: World, k: Config, maxAge: int) returns (record: Record)
    requires w.db == Next(EMPTY_DATABASE, Seeding(k, w.now)) && 0 in w.calls && w.calls[0].Returned? && 0 < maxAge
    requires var facts := w.calls[0].held.facts;
             !facts.securityDebt && (facts.unpublished ==> facts.oldestUnpublishedAge + facts.Age(w.now) <= maxAge)
    ensures AtOnce(w, maxAge, record).Given(k) && record.membershipId == 1
    ensures !Reflects(w.db.tables, REVOKED) && !Reflects(w.db.tables, SUSPENDED)
  {
    record := SeededConfers(k, w.now);
    var p := AtOnce(w, maxAge, record);
    forall authority
      ensures Decide(LowRisk, authority, p.Basis(k, p.Facts()), Success(record)).value.allow
    {
      WhatAnAllowRestsOn(LowRisk, authority, p.Basis(k, p.Facts()), Success(record));
    }
  }

  /** The bound is reached: a revocation the dispatcher has not delivered for exactly the window is missing when
      freshness is judged, on a fresh answer that reports it owed, and LOW_RISK is allowed on the membership it
      revokes, however long after that the pair is looked up. */
  lemma {:induction false} TheBoundIsReached(k: Config, maxAge: nat, pause: nat)
    returns (moves: seq<Move>, j: nat, p: Permission)
    requires 1 in k.granted && 0 < maxAge
    ensures Happens(k, moves, j, j, p) && p.Given(k) && p.maxAge == maxAge && p.record.membershipId == 1
    ensures Missing(p.looked, 8) && p.looked.sent[8].transition == REVOKED
    ensures p.looked.now - p.judged.now == pause
    ensures p.looked.now - p.looked.sent[8].at == maxAge + pause == p.Bound()
  {
    moves := OwedRevocation(k, maxAge, 0);
    moves := ThenSeeded(k, moves);
    var judged := Play(k, moves);
    var record := SeededPermits(judged, k, maxAge);
    j := |moves|;
    OneMoreMove(k, moves, Tick(pause));
    assert (moves + [Tick(pause)])[..j] == moves;
    moves := moves + [Tick(pause)];
    p := Permission(judged, judged, Play(k, moves), 0, maxAge, 2, 3, record);
  }

  /** The last move is one call's check, which took the cached answer, this long after it was stamped. */
  ghost predicate TakenLate(k: Config, moves: seq<Move>, call: nat, wait: nat) {
    && Possible(k, moves) && moves != [] && moves[|moves| - 1] == Check(call)
    && var before, w := Play(k, moves[..|moves| - 1]), Play(k, moves);
    && call in before.calls && before.calls[call].Stamped? && w.now - before.calls[call].stamp == wait
    && call in w.calls && w.calls[call].Returned?
  }

  function TakenAt(k: Config, moves: seq<Move>, call: nat): int
    requires call in Play(k, moves).calls && Play(k, moves).calls[call].Returned?
  {
    Play(k, moves).now - Play(k, moves).calls[call].held.facts.readAt
  }

  /** Stamping before the lock has a price: a caller that waits for it takes an answer that was younger than the
      interval when it was stamped, however long ago that is by then. */
  lemma {:induction false} ACachedAnswerOutlivesTheInterval(k: Config, wait: nat) returns (moves: seq<Move>)
    requires 0 < k.ttl
    ensures TakenLate(k, moves, 1, wait) && TakenAt(k, moves, 1) == k.ttl - 1 + wait
  {
    moves := ThenRead(k, [], TrueWire(START, k, None), 0);
    OneMoreMove(k, moves, Tick(k.ttl - 1));
    moves := moves + [Tick(k.ttl - 1)];
    OneMoreMove(k, moves, Stamp(1));
    moves := moves + [Stamp(1)];
    OneMoreMove(k, moves, Tick(wait));
    moves := moves + [Tick(wait)];
    OneMoreMove(k, moves, Check(1));
    assert (moves + [Check(1)])[..|moves + [Check(1)]| - 1] == moves;
    moves := moves + [Check(1)];
  }

  /** Whatever the interval: every cached answer is younger than it when it is taken if and only if the lock is had
      in the instant the call is stamped. */
  lemma {:induction false} CachedAnswersAreYoungExactlyWhen(k: Config, wait: nat)
    requires 0 < k.ttl
    ensures (forall moves, call :: TakenLate(k, moves, call, wait) ==> TakenAt(k, moves, call) < k.ttl) <==> wait == 0
  {
    if wait == 0 {
      forall moves, call | TakenLate(k, moves, call, wait)
        ensures TakenAt(k, moves, call) < k.ttl
      {
        TheCacheNeverLooksFresher(k, moves, call);
      }
    } else {
      var moves := ACachedAnswerOutlivesTheInterval(k, wait);
    }
  }

  /** What an answer would be worth, aged from another instant than the one its call was stamped at. */
  function AgedFrom(facts: Facts, instant: int): Facts {
    facts.(readAt := instant)
  }

  /** This answer is refused as it is, and would be allowed aged from `instant`, though the bound is broken. */
  ghost predicate WouldBreakTheBound(k: Config, p: Permission, instant: int) {
    && p.Answered()
    && Answers(p.looked.db.tables, p.tenant, p.principal, Success(p.record)) && p.record.membershipId == 1
    && !Decide(LowRisk, NotConfigured, p.Basis(k, p.Facts()), Success(p.record)).value.allow
    && Decide(LowRisk, NotConfigured, p.Basis(k, AgedFrom(p.Facts(), instant)), Success(p.record)).value.allow
    && Missing(p.looked, 8) && p.looked.sent[8].transition == REVOKED
    && p.Bound() < p.looked.now - p.looked.sent[8].at
  }

  lemma {:induction false} AgedTwoWays(w: World, k: Config, maxAge: nat) returns (p: Permission)
    requires w.db == Next(EMPTY_DATABASE, Seeding(k, w.now)) && 0 in w.calls && w.calls[0].Returned? && 0 < maxAge
    requires var facts := w.calls[0].held.facts;
             && !facts.securityDebt && facts.unpublished && facts.oldestUnpublishedAge == maxAge
             && 0 < facts.readAt < w.now
             && 8 in w.sent && Max(maxAge, w.now - facts.readAt) < w.now - w.sent[8].at
    requires w.sent[8].envelope == Revocation(8, 2, 20) && w.sent[8].transition == REVOKED
    ensures p.judged == p.looked == w && p.call == 0 && p.maxAge == maxAge
    ensures WouldBreakTheBound(k, p, w.now)
  {
    var record := SeededConfers(k, w.now);
    p := AtOnce(w, maxAge, record);
  }

  /** Ageing an answer from the producer's instant breaks the bound, by the lesser of the window and how far the
      producer's clock is ahead. */
  lemma {:induction false} AgeingFromObservationBreaksTheBound(k: Config, maxAge: nat)
    returns (moves: seq<Move>, p: Permission)
    requires 1 in k.granted && 0 < maxAge && 0 < k.skew
    ensures Possible(k, moves) && p.judged == p.looked == Play(k, moves)
    ensures p.Answered() && WouldBreakTheBound(k, p, p.Facts().observedAt)
    ensures p.looked.now - p.looked.sent[8].at == maxAge + k.skew && p.Bound() == Max(maxAge, k.skew)
  {
    moves := OwedRevocation(k, maxAge, 0);
    OneMoreMove(k, moves, Tick(k.skew));
    moves := moves + [Tick(k.skew)];
    moves := ThenSeeded(k, moves);
    p := AgedTwoWays(Play(k, moves), k, maxAge);
  }

  /** So does ageing it from the instant it was received, by the lesser of the window and how long it was on
      its way. */
  lemma {:induction false} AgeingFromReceiptBreaksTheBound(k: Config, maxAge: nat, delay: nat)
    returns (moves: seq<Move>, received: int, p: Permission)
    requires 1 in k.granted && 0 < maxAge && 0 < delay
    ensures Possible(k, moves) && p.judged == p.looked == Play(k, moves) && received == Play(k, moves).now
    ensures WouldBreakTheBound(k, p, received)
    ensures p.looked.now - p.looked.sent[8].at == maxAge + delay && p.Bound() == Max(maxAge, delay)
  {
    moves := OwedRevocation(k, maxAge, delay);
    received := Play(k, moves).now;
    moves := ThenSeeded(k, moves);
    p := AgedTwoWays(Play(k, moves), k, maxAge);
  }

  lemma {:induction false} Abandoned(k: Config, wait: nat) returns (moves: seq<Move>)
    ensures Possible(k, moves)
    ensures Play(k, moves) == START.(now := 1 + wait, dead := {9},
            sent := map[9 := Sent(UNREADABLE_SUSPENSION, SUSPENDED, 1)])
  {
    moves := Unheard(k, UNREADABLE_SUSPENSION, SUSPENDED, 0);
    OneMoreMove(k, moves, Try(9, Commits));
    moves := moves + [Try(9, Commits)];
    assert Play(k, moves).owed == {} && Play(k, moves).dead == {9} && Play(k, moves).db == EMPTY_DATABASE;
    OneMoreMove(k, moves, Tick(wait));
    moves := moves + [Tick(wait)];
  }

  /** A tenant's suspension that this consumer refused is neither owed nor counted as debt: its members are served
      however long ago it was committed. */
  lemma {:induction false} ADeadLetteredSuspensionIsUnbounded(k: Config, maxAge: nat, wait: nat)
    returns (moves: seq<Move>, p: Permission)
    requires 0 < maxAge
    ensures Happens(k, moves, |moves|, |moves|, p) && p.Given(k) && p.maxAge == maxAge && p.tenant == SUSPENDED.id
    ensures Missing(p.looked, 9) && p.Overlooks(9) && p.looked.sent[9].transition == SUSPENDED
    ensures p.looked.now - p.looked.sent[9].at == wait
  {
    moves := Abandoned(k, wait);
    moves := ThenSeeded(k, moves);
    var w := Play(k, moves);
    moves := ThenRead(k, moves, TrueWire(w, k, None), 0);
    assert moves[..|moves|] == moves;
    var record := SeededPermits(Play(k, moves), k, maxAge);
    p := AtOnce(Play(k, moves), maxAge, record);
  }
}
