/** How old a permission can be: the producer, its dispatcher, this consumer's projection, the frontier
    cache with concurrent callers, and two clocks, run together. */
module Staleness {
  import opened Wrappers
  import opened Model
  import opened Effects
  import opened Transactions
  import opened Queries
  import opened Runs
  import opened Projectors
  import opened Intake
  import opened Frontier
  import opened Enforcer
  import Convergence

  /** An event the producer committed, the transition it announces, and when, on this consumer's clock. */
  datatype Sent = Sent(envelope: Envelope, transition: Claim, at: int)

  /** An answer in hand, and the instant at which the producer observed it. The program holds only the
      facts; the instant is remembered here to state what they are worth. */
  datatype Held = Held(facts: Facts, seen: int)

  /** One call of the frontier client: stamped and not yet checked under the lock, past the check and not yet
      answered, answered and not yet kept, or returned, from the cache or from a read. Any amount of time may pass
      between one and the next. */
  datatype Call =
    | Stamped(stamp: int)
    | Waiting(stamp: int)
    | Answering(wire: Wire, stamp: int, seen: int)
    | Returned(held: Held, stamp: int, cached: bool)

  /** The fixed parts: this consumer's name, the cache interval, how far the producer's clock is ahead, and
      the memberships the authority ever grants. */
  datatype Config = Config(consumer: string, ttl: int, skew: int, granted: iset<Id>)

  datatype World = World(
    now: int,
    db: Database,
    sent: map<Id, Sent>,
    owed: set<Id>,
    dead: set<Id>,
    cache: Option<Held>,
    calls: map<nat, Call>,
    told: set<(Wire, int)>)

  const START := World(1, EMPTY_DATABASE, map[], {}, {}, None, map[], {})

  datatype Move =
    | Tick(elapsed: nat)
    | Commit(envelope: Envelope, transition: Claim)
    | Try(id: Id, fate: Fate)
    | Replay(id: Id, fate: Fate)
    | Resolve(id: Id)
    | Meanwhile(attempt: Attempt)
    | Stamp(call: nat)
    | Check(call: nat)
    | Observe(call: nat, wire: Wire)
    | Receive(call: nat)
    | Lose(call: nat)

  // The environment, named.

  predicate Announces(e: Envelope) {
    e.etype.IsMembership() || e.etype.IsTenant()
  }

  /** The producer's transaction: an event with a fresh identifier announces a transition, of a membership the
      authority grants or of a tenant, and says that transition to a consumer that can read it. Its position may
      be any. */
  ghost predicate Commits(w: World, k: Config, e: Envelope, transition: Claim) {
    e.id !in w.sent && Announced(k, e, transition)
  }

  ghost predicate Announced(k: Config, e: Envelope, transition: Claim) {
    && RemovesUngranted(EnvelopeClaims(k.consumer, e), k)
    && (e.etype.IsMembership() ==> transition.MemberClaim? && transition.id in k.granted)
    && (e.etype.IsTenant() ==> transition.TenantClaim?)
    && (Announces(e) && Judge(k.consumer, e, 0).Project? ==> EnvelopeClaims(k.consumer, e) == {transition})
  }

  /** Sweeps remove only what the authority never granted. */
  ghost predicate RemovesUngranted(cs: set<Claim>, k: Config) {
    forall c :: c in cs && c.Removal? ==> c.id !in k.granted
  }

  /** What the producer's clock shows. */
  function ProducerClock(w: World, k: Config, at: int): int {
    at + k.skew
  }

  function OwedFor(w: World, k: Config, id: Id): int
    requires id in w.sent
  {
    ProducerClock(w, k, w.now) - ProducerClock(w, k, w.sent[id].at)
  }

  /** The producer's answer, computed on its own clock: the oldest delivery it still owes, whether any
      membership event it has given up on is unresolved, and the instant it was observed. One that predates the
      contract omits the debt, and an instant may not parse. */
  ghost predicate TellsTheTruth(w: World, k: Config, wire: Wire) {
    && w.owed <= w.sent.Keys && w.dead <= w.sent.Keys
    && (wire.unpublished <==> w.owed != {})
    && (wire.unpublished ==>
          && (forall id :: id in w.owed ==> OwedFor(w, k, id) <= wire.oldestUnpublishedAge)
          && (exists id :: id in w.owed && OwedFor(w, k, id) == wire.oldestUnpublishedAge))
    && (wire.securityDebt.Some? ==>
          (wire.securityDebt.value <==> exists id :: id in w.dead && w.sent[id].envelope.etype.IsMembership()))
    && (wire.observedAt.Some? ==> wire.observedAt.value == ProducerClock(w, k, w.now))
  }

  /** An operator closes a dead letter only when what it announced is reflected. */
  predicate MayResolve(w: World, id: Id) {
    id in w.dead && id in w.sent && Reflects(w.db.tables, w.sent[id].transition)
  }

  /** Other inputs to the same database: snapshot pages, and anything for another consumer. */
  ghost predicate Unrelated(a: Attempt, k: Config) {
    (a.consumer != k.consumer || a.input.Page?) && RemovesUngranted(a.Claims(), k)
  }

  ghost predicate Enabled(w: World, k: Config, m: Move) {
    match m
    case Commit(e, transition) => Commits(w, k, e, transition)
    case Resolve(id) => MayResolve(w, id)
    case Meanwhile(a) => Unrelated(a, k)
    case Observe(_, wire) => TellsTheTruth(w, k, wire)
    case _ => true
  }

  // The steps.

  function Delivery(w: World, k: Config, id: Id, fate: Fate): Attempt
    requires id in w.sent
  {
    Attempt(k.consumer, Event(w.sent[id].envelope), w.now, fate)
  }

  /** The dispatcher's rule, by the status the delivery is answered with: 202 settles it, 400 abandons it to the dead
      letters, and anything else leaves it owed. */
  function Tried(w: World, k: Config, id: Id, fate: Fate): World
    requires id in w.sent
  {
    var after := w.(db := Next(w.db, Delivery(w, k, id, fate)));
    var status := Respond(Seen(Answer(w.db, k.consumer, w.sent[id].envelope, w.now), fate)).status;
    if status == 202 then after.(owed := w.owed - {id})
    else if status == 400 then after.(owed := w.owed - {id}, dead := w.dead + {id})
    else after
  }

  function Cached(w: World): Option<Facts> {
    if w.cache.Some? then Some(w.cache.value.facts) else None
  }

  /** The check under the lock, by the instant the call was stamped with. */
  function PastTheCheck(w: World, k: Config, call: nat): World
    requires call in w.calls && w.calls[call].Stamped?
  {
    var stamp := w.calls[call].stamp;
    if Hit(Cached(w), k.ttl, stamp).Some? then w.(calls := w.calls[call := Returned(w.cache.value, stamp, true)])
    else w.(calls := w.calls[call := Waiting(stamp)])
  }

  /** The reply is read, and what was read is kept, whatever other callers kept meanwhile; a read that fails
      keeps nothing and returns nothing. */
  function Received(w: World, call: nat): World
    requires call in w.calls && w.calls[call].Answering?
  {
    var c := w.calls[call];
    match Read(Replied(200, Some(c.wire)), c.stamp)
    case Success(facts) =>
      var held := Held(facts, c.seen);
      w.(cache := Some(held), calls := w.calls[call := Returned(held, c.stamp, false)])
    case Failure(_) => w.(calls := w.calls - {call})
  }

  function Moved(w: World, k: Config, m: Move): World {
    match m
    case Tick(elapsed) => w.(now := w.now + elapsed)
    case Commit(e, transition) =>
      w.(sent := w.sent[e.id := Sent(e, transition, w.now)], owed := w.owed + {e.id})
    case Try(id, fate) => if id in w.sent && id in w.owed then Tried(w, k, id, fate) else w
    case Replay(id, fate) => if id in w.sent && id in w.dead then w.(db := Next(w.db, Delivery(w, k, id, fate))) else w
    case Resolve(id) => w.(dead := w.dead - {id})
    case Meanwhile(a) => w.(db := Next(w.db, a))
    case Stamp(call) => w.(calls := w.calls[call := Stamped(w.now)])
    case Check(call) => if call in w.calls && w.calls[call].Stamped? then PastTheCheck(w, k, call) else w
    case Observe(call, wire) =>
      if call in w.calls && w.calls[call].Waiting? then
        w.(calls := w.calls[call := Answering(wire, w.calls[call].stamp, w.now)], told := w.told + {(wire, w.now)})
      else w
    case Receive(call) => if call in w.calls && w.calls[call].Answering? then Received(w, call) else w
    case Lose(call) => w.(calls := w.calls - {call})
  }

  function Play(k: Config, moves: seq<Move>): World {
    if moves == [] then START else Moved(Play(k, moves[..|moves| - 1]), k, moves[|moves| - 1])
  }

  /** A sequence of moves the environment allows. */
  ghost predicate Possible(k: Config, moves: seq<Move>) {
    moves == [] || (Possible(k, moves[..|moves| - 1]) && Enabled(Play(k, moves[..|moves| - 1]), k, moves[|moves| - 1]))
  }

  // What holds throughout.

  /** A transition the producer committed and the projection does not hold. */
  predicate Missing(w: World, id: Id) {
    id in w.sent && Announces(w.sent[id].envelope) && !Reflects(w.db.tables, w.sent[id].transition)
  }

  /** A tenant event the producer has given up on: nothing in its answer counts it. */
  predicate Unreported(w: World, id: Id) {
    id in w.dead && id in w.sent && !w.sent[id].envelope.etype.IsMembership()
  }

  /** What is missing is still owed or given up on. */
  ghost predicate Accounted(w: World) {
    && w.owed <= w.sent.Keys && w.dead <= w.sent.Keys
    && forall id :: Missing(w, id) ==> id in w.owed || id in w.dead
  }

  /** Everything sent was announced, in the past, under its own identifier. */
  ghost predicate SentWell(w: World, k: Config) {
    forall id :: id in w.sent ==>
      && w.sent[id].at <= w.now && w.sent[id].envelope.id == id
      && Announced(k, w.sent[id].envelope, w.sent[id].transition)
  }

  /** What this consumer has registered, it reflects. */
  ghost predicate InboxHonest(w: World, k: Config) {
    forall id :: (id, k.consumer) in w.db.inbox ==> id in w.sent && !Missing(w, id)
  }

  /** What facts are worth: each missing transition is newer than the request they answer, or they report debt,
      or they report a delivery owed for at least as long, or it is one that nothing reports. */
  ghost predicate Vouch(w: World, f: Facts) {
    forall id :: Missing(w, id) ==>
      || f.readAt <= w.sent[id].at
      || f.securityDebt
      || (f.unpublished && f.readAt - w.sent[id].at <= f.oldestUnpublishedAge)
      || Unreported(w, id)
  }

  /** An answer in hand was observed no earlier than its request was sent, and says what the producer then said. */
  ghost predicate Honest(w: World, h: Held) {
    && 0 < h.facts.readAt <= h.seen <= w.now
    && Vouch(w, h.facts)
    && exists wire :: (wire, h.seen) in w.told && Read(Replied(200, Some(wire)), h.facts.readAt) == Success(h.facts)
  }

  ghost predicate CallHonest(w: World, k: Config, c: Call) {
    match c
    case Stamped(stamp) => 0 < stamp <= w.now
    case Waiting(stamp) => 0 < stamp <= w.now
    case Answering(wire, stamp, seen) =>
      && 0 < stamp <= seen <= w.now && (wire, seen) in w.told
      && (Read(Replied(200, Some(wire)), stamp).Success? ==> Vouch(w, Read(Replied(200, Some(wire)), stamp).value))
    case Returned(held, stamp, cached) =>
      && Honest(w, held) && stamp <= w.now
      && (if cached then stamp - held.facts.readAt < k.ttl else held.facts.readAt == stamp)
  }

  ghost predicate Clients(w: World, k: Config) {
    && (w.cache.Some? ==> Honest(w, w.cache.value))
    && (forall c :: c in w.calls ==> CallHonest(w, k, w.calls[c]))
  }

  ghost predicate Inv(w: World, k: Config) {
    0 < w.now && Accounted(w) && SentWell(w, k) && InboxHonest(w, k) && Clients(w, k)
  }

  /** Time passing, rows advancing and new transitions only ever help: what was vouched for stays so. */
  ghost predicate Grows(w: World, after: World) {
    && w.now <= after.now && w.told <= after.told
    && (forall id :: Missing(after, id) ==>
          || after.sent[id].at == w.now
          || (Missing(w, id) && after.sent[id] == w.sent[id] && (id in w.dead ==> id in after.dead)))
  }

  lemma {:induction false} GrowingKeepsHonest(w: World, after: World, k: Config)
    requires Clients(w, k) && Grows(w, after)
    ensures w.cache.Some? ==> Honest(after, w.cache.value)
    ensures forall c :: c in w.calls ==> CallHonest(after, k, w.calls[c])
  {
    forall f: Facts | Vouch(w, f) && f.readAt <= w.now
      ensures Vouch(after, f)
    {
    }
    forall h | Honest(w, h)
      ensures Honest(after, h)
    {
      var wire :| (wire, h.seen) in w.told && Read(Replied(200, Some(wire)), h.facts.readAt) == Success(h.facts);
      assert (wire, h.seen) in after.told;
    }
  }

  /** One more input, not removing anything granted, never makes a transition missing. */
  lemma {:induction false} InputsOnlyHelp(w: World, k: Config, a: Attempt, id: Id)
    requires SentWell(w, k) && RemovesUngranted(a.Claims(), k) && id in w.sent && !Missing(w, id)
    ensures !Missing(w.(db := Next(w.db, a)), id)
  {
    if Announces(w.sent[id].envelope) {
      RunOfOne(w.db, a);
      ReflectionLasts(w.db, [a], w.sent[id].transition);
    }
  }

  lemma {:induction false} OneInput(w: World, k: Config, a: Attempt)
    requires Inv(w, k) && RemovesUngranted(a.Claims(), k)
    requires forall key :: key in a.Registers() && key.1 == k.consumer ==>
               key.0 in w.sent && !Missing(w.(db := Next(w.db, a)), key.0)
    ensures Inv(w.(db := Next(w.db, a)), k)
  {
    var after := w.(db := Next(w.db, a));
    forall id | id in w.sent && !Missing(w, id)
      ensures !Missing(after, id)
    {
      InputsOnlyHelp(w, k, a, id);
    }
    GrowingKeepsHonest(w, after, k);
    OneAttempt(w.db, a);
  }

  /** A delivery that is accepted is reflected, the first time because it is applied and again because the inbox
      is honest. */
  lemma {:induction false} AcceptedDeliveriesAreReflected(w: World, k: Config, id: Id, fate: Fate)
    requires Inv(w, k) && id in w.sent
    ensures var a := Delivery(w, k, id, fate);
            && RemovesUngranted(a.Claims(), k)
            && (a.Accepted() ==> !Missing(w.(db := Next(w.db, a)), id))
  {
    var a := Delivery(w, k, id, fate);
    ClaimsAreTimeless(k.consumer, w.sent[id].envelope, w.now);
    if a.Accepted() && Announces(w.sent[id].envelope) {
      JudgedEffects(k.consumer, w.sent[id].envelope, w.now);
      if (id, k.consumer) !in w.db.inbox {
        AttemptClaims(a);
        var e :| e in a.Effects() && e.Claims() == w.sent[id].transition;
        FoldReflects(w.db.tables, a.Effects(), e);
      }
    }
  }

  lemma {:induction false} DeliveryKeepsInv(w: World, k: Config, id: Id, fate: Fate)
    requires Inv(w, k) && id in w.sent
    ensures Inv(w.(db := Next(w.db, Delivery(w, k, id, fate))), k)
  {
    AcceptedDeliveriesAreReflected(w, k, id, fate);
    OneInput(w, k, Delivery(w, k, id, fate));
  }

  lemma {:induction false} TryKeepsInv(w: World, k: Config, id: Id, fate: Fate)
    requires Inv(w, k) && id in w.sent && id in w.owed
    ensures Inv(Tried(w, k, id, fate), k)
  {
    DeliveryKeepsInv(w, k, id, fate);
    AcceptedDeliveriesAreReflected(w, k, id, fate);
    var delivered, after := w.(db := Next(w.db, Delivery(w, k, id, fate))), Tried(w, k, id, fate);
    GrowingKeepsHonest(delivered, after, k);
    assert InboxHonest(after, k) by {
      assert forall x :: Missing(after, x) ==> Missing(delivered, x);
    }
  }

  lemma {:induction false} CommitKeepsInv(w: World, k: Config, e: Envelope, transition: Claim)
    requires Inv(w, k) && Commits(w, k, e, transition)
    ensures Inv(Moved(w, k, Commit(e, transition)), k)
  {
    GrowingKeepsHonest(w, Moved(w, k, Commit(e, transition)), k);
  }

  lemma {:induction false} ResolveKeepsInv(w: World, k: Config, id: Id)
    requires Inv(w, k) && MayResolve(w, id)
    ensures Inv(Moved(w, k, Resolve(id)), k)
  {
    GrowingKeepsHonest(w, Moved(w, k, Resolve(id)), k);
  }

  lemma {:induction false} TickKeepsInv(w: World, k: Config, elapsed: nat)
    requires Inv(w, k)
    ensures Inv(Moved(w, k, Tick(elapsed)), k)
  {
    GrowingKeepsHonest(w, Moved(w, k, Tick(elapsed)), k);
  }

  /** A true answer vouches for what is missing at the instant it is given, from the instant its request was sent. */
  lemma {:induction false} TheTruthVouches(w: World, k: Config, wire: Wire, stamp: int)
    requires Accounted(w) && SentWell(w, k) && TellsTheTruth(w, k, wire) && stamp <= w.now
    requires Read(Replied(200, Some(wire)), stamp).Success?
    ensures Vouch(w, Read(Replied(200, Some(wire)), stamp).value)
  {
    forall id | Missing(w, id) && id in w.owed
      ensures stamp - w.sent[id].at <= wire.oldestUnpublishedAge
    {
      assert OwedFor(w, k, id) == w.now - w.sent[id].at;
    }
  }

  lemma {:induction false} CheckKeepsInv(w: World, k: Config, call: nat)
    requires Inv(w, k) && call in w.calls && w.calls[call].Stamped?
    ensures Inv(Moved(w, k, Check(call)), k)
  {
    GrowingKeepsHonest(w, Moved(w, k, Check(call)), k);
    assert CallHonest(w, k, w.calls[call]);
  }

  lemma {:induction false} ObserveKeepsInv(w: World, k: Config, call: nat, wire: Wire)
    requires Inv(w, k) && TellsTheTruth(w, k, wire) && call in w.calls && w.calls[call].Waiting?
    ensures Inv(Moved(w, k, Observe(call, wire)), k)
  {
    var after, stamp := Moved(w, k, Observe(call, wire)), w.calls[call].stamp;
    GrowingKeepsHonest(w, after, k);
    assert CallHonest(w, k, w.calls[call]);
    if Read(Replied(200, Some(wire)), stamp).Success? {
      TheTruthVouches(w, k, wire, stamp);
      assert Vouch(after, Read(Replied(200, Some(wire)), stamp).value);
    }
    assert CallHonest(after, k, after.calls[call]);
  }

  lemma {:induction false} ReceiveKeepsInv(w: World, k: Config, call: nat)
    requires Inv(w, k) && call in w.calls && w.calls[call].Answering?
    ensures Inv(Moved(w, k, Receive(call)), k)
  {
    var after, c := Moved(w, k, Receive(call)), w.calls[call];
    GrowingKeepsHonest(w, after, k);
    assert CallHonest(w, k, c);
    if Read(Replied(200, Some(c.wire)), c.stamp).Success? {
      var facts := Read(Replied(200, Some(c.wire)), c.stamp).value;
      assert Vouch(after, facts) && (c.wire, c.seen) in after.told;
      assert Honest(after, Held(facts, c.seen));
    }
  }

  lemma {:induction false} StampOrLoseKeepsInv(w: World, k: Config, m: Move)
    requires Inv(w, k) && (m.Stamp? || m.Lose?)
    ensures Inv(Moved(w, k, m), k)
  {
    GrowingKeepsHonest(w, Moved(w, k, m), k);
  }

  lemma {:induction false} MoveKeepsInv(w: World, k: Config, m: Move)
    requires Inv(w, k) && Enabled(w, k, m)
    ensures Inv(Moved(w, k, m), k)
  {
    match m
    case Tick(elapsed) => TickKeepsInv(w, k, elapsed);
    case Commit(e, transition) => CommitKeepsInv(w, k, e, transition);
    case Try(id, fate) => if id in w.sent && id in w.owed { TryKeepsInv(w, k, id, fate); }
    case Replay(id, fate) => if id in w.sent && id in w.dead { DeliveryKeepsInv(w, k, id, fate); }
    case Resolve(id) => ResolveKeepsInv(w, k, id);
    case Meanwhile(a) => OneInput(w, k, a);
    case Check(call) => if call in w.calls && w.calls[call].Stamped? { CheckKeepsInv(w, k, call); }
    case Observe(call, wire) => if call in w.calls && w.calls[call].Waiting? { ObserveKeepsInv(w, k, call, wire); }
    case Receive(call) => if call in w.calls && w.calls[call].Answering? { ReceiveKeepsInv(w, k, call); }
    case _ => StampOrLoseKeepsInv(w, k, m);
  }

  lemma {:induction false} InvHolds(k: Config, moves: seq<Move>)
    requires Possible(k, moves)
    ensures Inv(Play(k, moves), k)
  {
    if moves != [] {
      InvHolds(k, moves[..|moves| - 1]);
      MoveKeepsInv(Play(k, moves[..|moves| - 1]), k, moves[|moves| - 1]);
    }
  }

  /** A call with nothing in between is the client's one call alone: the same answer, and the same left cached. */
  lemma {:induction false} OneCallAlone(w: World, k: Config, call: nat, wire: Wire)
    ensures var after := Moved(Moved(Moved(Moved(w, k, Stamp(call)), k, Check(call)), k, Observe(call, wire)), k,
            Receive(call));
            var (r, cache) := Called(Cached(w), k.ttl, w.now, Replied(200, Some(wire)));
            && Cached(after) == cache
            && (r.Success? <==> call in after.calls && after.calls[call].Returned?)
            && (r.Success? ==> after.calls[call].held.facts == r.value)
  {
  }

  // The results.

  /** Over every interleaving of concurrent calls, where time may pass between any two steps and an older read may
      overwrite a newer one: an answer that was returned was observed by the producer at or after the instant it
      is aged from, it is an answer the producer gave that did report its debt, one served from the cache was
      younger than the interval when the call was stamped, and one that was read is aged from the stamp. */
  lemma {:induction false} TheCacheNeverLooksFresher(k: Config, moves: seq<Move>, call: nat)
    requires Possible(k, moves) && call in Play(k, moves).calls && Play(k, moves).calls[call].Returned?
    ensures var w := Play(k, moves);
            var c := w.calls[call];
            && 0 < c.held.facts.readAt <= c.held.seen <= w.now
            && (if c.cached then c.stamp - c.held.facts.readAt < k.ttl else c.held.facts.readAt == c.stamp)
            && exists wire :: (wire, c.held.seen) in w.told && wire.securityDebt == Some(c.held.facts.securityDebt)
                              && Read(Replied(200, Some(wire)), c.held.facts.readAt) == Success(c.held.facts)
  {
    InvHolds(k, moves);
  }

  // A later world.

  /** Nothing the producer sent is forgotten, and nothing heard is unheard. */
  ghost predicate Follows(w: World, later: World) {
    && w.now <= later.now
    && (forall id :: id in w.sent ==> id in later.sent && later.sent[id] == w.sent[id])
    && (forall id :: id in later.sent && id !in w.sent ==> w.now <= later.sent[id].at)
    && (forall id :: Missing(later, id) && id in w.sent ==> Missing(w, id))
  }

  lemma {:induction false} DeliveryOnlyHelps(w: World, k: Config, x: Id, fate: Fate, id: Id)
    requires Inv(w, k) && x in w.sent && id in w.sent && !Missing(w, id)
    ensures !Missing(w.(db := Next(w.db, Delivery(w, k, x, fate))), id)
  {
    AcceptedDeliveriesAreReflected(w, k, x, fate);
    InputsOnlyHelp(w, k, Delivery(w, k, x, fate), id);
  }

  lemma {:induction false} OneMoveOnlyHelps(w: World, k: Config, m: Move, id: Id)
    requires Inv(w, k) && Enabled(w, k, m) && id in w.sent && !Missing(w, id)
    ensures !Missing(Moved(w, k, m), id)
  {
    match m
    case Try(x, fate) => if x in w.sent && x in w.owed { DeliveryOnlyHelps(w, k, x, fate, id); }
    case Replay(x, fate) => if x in w.sent && x in w.dead { DeliveryOnlyHelps(w, k, x, fate, id); }
    case Meanwhile(a) => InputsOnlyHelp(w, k, a, id);
    case _ =>
  }

  lemma {:induction false} NothingIsUnsent(w: World, k: Config, m: Move)
    requires Enabled(w, k, m)
    ensures var after := Moved(w, k, m);
            && w.now <= after.now
            && (forall id :: id in w.sent ==> id in after.sent && after.sent[id] == w.sent[id])
            && (forall id :: id in after.sent && id !in w.sent ==> w.now <= after.sent[id].at)
  {
  }

  lemma {:induction false} MovesOnlyHelp(w: World, k: Config, m: Move)
    requires Inv(w, k) && Enabled(w, k, m)
    ensures Follows(w, Moved(w, k, m))
  {
    NothingIsUnsent(w, k, m);
    forall id | Missing(Moved(w, k, m), id) && id in w.sent
      ensures Missing(w, id)
    {
      if !Missing(w, id) {
        OneMoveOnlyHelps(w, k, m, id);
      }
    }
  }

  lemma {:induction false} LaterFollows(k: Config, moves: seq<Move>, n: nat)
    requires Possible(k, moves) && n <= |moves|
    ensures Possible(k, moves[..n]) && Follows(Play(k, moves[..n]), Play(k, moves))
  {
    if n == |moves| {
      assert moves[..n] == moves;
    } else {
      var earlier := moves[..|moves| - 1];
      assert earlier[..n] == moves[..n];
      LaterFollows(k, earlier, n);
      InvHolds(k, earlier);
      MovesOnlyHelp(Play(k, earlier), k, moves[|moves| - 1]);
    }
  }

  // What a permission is worth.

  /** A permission as the program comes to it: it reads its own age, then judges freshness by the answer one call
      of the frontier returned, and then looks up the pair. Anything may happen in between. */
  datatype Permission = Permission(
    aged: World,
    judged: World,
    looked: World,
    call: nat,
    maxAge: int,
    tenant: Id,
    principal: Id,
    record: Record)
  {
    predicate Answered() {
      call in judged.calls && judged.calls[call].Returned? && 0 < maxAge
    }

    function Facts(): Frontier.Facts
      requires Answered()
    {
      judged.calls[call].held.facts
    }

    function Basis(k: Config, facts: Frontier.Facts): Freshness {
      Freshness(AgeOf(aged.db, k.consumer, aged.now), Enforcer.Told(facts), judged.now, maxAge)
    }

    /** LOW_RISK was allowed, whatever the authority would have said. */
    ghost predicate Given(k: Config) {
      && Answered()
      && Answers(looked.db.tables, tenant, principal, Success(record))
      && forall authority :: Decide(LowRisk, authority, Basis(k, Facts()), Success(record)).value.allow
    }

    /** How old anything unheard of can be at the lookup: the window, or the age of the answer if that is more, and
        the time from the judgement to the lookup. */
    function Bound(): int
      requires Answered()
    {
      Max(maxAge, judged.now - Facts().readAt) + (looked.now - judged.now)
    }

    /** A tenant event that had been given up on when freshness was judged. */
    predicate Overlooks(id: Id) {
      Unreported(judged, id)
    }
  }

  /** The three worlds of a permission are passed through in this order by one run. */
  ghost predicate Happens(k: Config, moves: seq<Move>, i: nat, j: nat, p: Permission) {
    && Possible(k, moves) && i <= j <= |moves|
    && p.aged == Play(k, moves[..i]) && p.judged == Play(k, moves[..j]) && p.looked == Play(k, moves)
  }

  /** Bounded staleness of every permission: over every run of the producer, its dispatcher, the projection, the
      cache and the clocks, whenever LOW_RISK is allowed, every transition the producer had committed and the
      projection did not hold at the lookup is at most max(MaxStale, T - ReadAt) old, and the time from the
      judgement at T to the lookup; unless it is of a tenant and was dead lettered by then. How far the producer's
      clock is ahead does not enter; and the age of the answer is the duration of the call so far, or for a cached
      one less than that and the interval. */
  lemma {:induction false} EveryPermissionIsBounded(k: Config, moves: seq<Move>, i: nat, j: nat, p: Permission, id: Id)
    requires Happens(k, moves, i, j, p) && p.Given(k)
    requires Missing(p.looked, id) && !p.Overlooks(id)
    ensures p.looked.now - p.looked.sent[id].at <= p.Bound()
    ensures var c, T := p.judged.calls[p.call], p.judged.now;
            if c.cached then T - p.Facts().readAt < k.ttl + (T - c.stamp) else T - p.Facts().readAt == T - c.stamp
  {
    LaterFollows(k, moves, j);
    InvHolds(k, moves[..j]);
    WhatAnAllowRestsOn(LowRisk, NotConfigured, p.Basis(k, p.Facts()), Success(p.record));
    assert Decide(LowRisk, NotConfigured, p.Basis(k, p.Facts()), Success(p.record)).value.allow;
  }

  /** Of the very membership a permission rests on: every transition above the version it was decided on is within
      the bound. */
  lemma {:induction false} ThePermittedMembershipIsBounded(k: Config, moves: seq<Move>, i: nat, j: nat,
    p: Permission, id: Id)
    requires Happens(k, moves, i, j, p) && p.Given(k)
    requires id in p.looked.sent && p.looked.sent[id].envelope.etype.IsMembership()
    requires p.looked.sent[id].transition.MemberClaim?
    requires p.looked.sent[id].transition.id == p.record.membershipId
    requires p.record.version < p.looked.sent[id].transition.version
    ensures p.looked.now - p.looked.sent[id].at <= p.Bound()
  {
    var t := p.looked.db.tables;
    var m :| NewestActive(t, p.tenant, p.principal, m) && p.record == RecordOf(m, t.members[m]);
    assert Missing(p.looked, id);
    LaterFollows(k, moves, j);
    EveryPermissionIsBounded(k, moves, i, j, p, id);
  }

  // Against the authority's history.

  /** What one move tells the database. */
  function HeardIn(w: World, k: Config, m: Move): seq<Attempt> {
    match m
    case Try(id, fate) => if id in w.sent && id in w.owed then [Delivery(w, k, id, fate)] else []
    case Replay(id, fate) => if id in w.sent && id in w.dead then [Delivery(w, k, id, fate)] else []
    case Meanwhile(a) => [a]
    case _ => []
  }

  function Heard(k: Config, moves: seq<Move>): seq<Attempt> {
    if moves == [] then []
    else Heard(k, moves[..|moves| - 1]) + HeardIn(Play(k, moves[..|moves| - 1]), k, moves[|moves| - 1])
  }

  lemma {:induction false} OneMoveTells(w: World, k: Config, m: Move)
    ensures (HeardIn(w, k, m) == [] && Moved(w, k, m).db == w.db)
            || exists a :: HeardIn(w, k, m) == [a] && Moved(w, k, m).db == Next(w.db, a)
  {
    if HeardIn(w, k, m) != [] {
      assert HeardIn(w, k, m) == [HeardIn(w, k, m)[0]];
    }
  }

  lemma {:induction false} TheDatabaseIsWhatWasHeard(k: Config, moves: seq<Move>)
    ensures Play(k, moves).db == Run(EMPTY_DATABASE, Heard(k, moves))
  {
    if moves != [] {
      var w, m := Play(k, moves[..|moves| - 1]), moves[|moves| - 1];
      var earlier := Heard(k, moves[..|moves| - 1]);
      TheDatabaseIsWhatWasHeard(k, moves[..|moves| - 1]);
      OneMoveTells(w, k, m);
      if HeardIn(w, k, m) == [] {
        assert earlier + [] == earlier;
      } else {
        var a :| HeardIn(w, k, m) == [a] && Moved(w, k, m).db == Next(w.db, a);
        assert (earlier + [a])[..|earlier + [a]| - 1] == earlier;
      }
    }
  }

  /** Every input came from the authority's history. */
  ghost predicate HeardFrom(k: Config, moves: seq<Move>, h: seq<Claim>) {
    && Convergence.IsHistory(h) && IdsDetermine(Heard(k, moves))
    && forall a :: a in Heard(k, moves) ==> Convergence.ComesFrom(a, h)
  }

  lemma {:induction false} TheTablesAreFromHistory(k: Config, moves: seq<Move>, w: World, h: seq<Claim>)
    requires w == Play(k, moves) && HeardFrom(k, moves, h)
    ensures forall m :: m in w.db.tables.members ==> RowClaim(m, w.db.tables.members[m]) in h
    ensures forall x :: x in w.db.tables.tenants ==>
              TenantClaim(x, w.db.tables.tenants[x].status, w.db.tables.tenants[x].pair) in h
  {
    var said := Claims(Heard(k, moves));
    TheDatabaseIsWhatWasHeard(k, moves);
    Convergence.RunsAreFaithful(Heard(k, moves), h);
    Convergence.HistoriesCohere(h, said);
    RunSettles(Heard(k, moves));
    assert Settled(w.db.tables, said);
    assert forall c :: c in said && !c.Removal? ==> c in h;
  }

  /** A withdrawal older than the bound is enforced. If everything heard comes from the authority's history, and
      the last thing it committed about a membership is its suspension or revocation, longer ago than the bound,
      then no permission rests on that membership. */
  lemma {:induction false} AnOldWithdrawalIsEnforced(k: Config, moves: seq<Move>, i: nat, j: nat, p: Permission,
    id: Id, h: seq<Claim>)
    requires Happens(k, moves, i, j, p) && p.Given(k) && HeardFrom(k, moves, h)
    requires id in p.looked.sent && p.looked.sent[id].envelope.etype.IsMembership()
    requires p.looked.sent[id].transition.MemberClaim? && p.looked.sent[id].transition.status != Active
    requires Convergence.Current(h, p.looked.sent[id].transition)
    requires p.Bound() < p.looked.now - p.looked.sent[id].at
    ensures p.record.membershipId != p.looked.sent[id].transition.id
  {
    var t := p.looked.db.tables;
    var m :| NewestActive(t, p.tenant, p.principal, m) && p.record == RecordOf(m, t.members[m]);
    var held, c := RowClaim(m, t.members[m]), p.looked.sent[id].transition;
    if m == c.id {
      TheTablesAreFromHistory(k, moves, p.looked, h);
      assert held in h;
      Convergence.CurrentIsLatest(h, c, held);
      ThePermittedMembershipIsBounded(k, moves, i, j, p, id);
      assert false;
    }
  }

  /** The same of a tenant: if the last thing committed about it leaves it other than active, longer ago than the
      bound, and was not given up on, then no permission is in that tenant. */
  lemma {:induction false} AnOldSuspensionIsEnforced(k: Config, moves: seq<Move>, i: nat, j: nat, p: Permission,
    id: Id, h: seq<Claim>)
    requires Happens(k, moves, i, j, p) && p.Given(k) && HeardFrom(k, moves, h)
    requires id in p.looked.sent && p.looked.sent[id].envelope.etype.IsTenant() && !p.Overlooks(id)
    requires p.looked.sent[id].transition.TenantClaim? && p.looked.sent[id].transition.tenantStatus != "active"
    requires Convergence.Current(h, p.looked.sent[id].transition)
    requires p.Bound() < p.looked.now - p.looked.sent[id].at
    ensures p.tenant != p.looked.sent[id].transition.id
  {
    var t, c := p.looked.db.tables, p.looked.sent[id].transition;
    assert Confers(t, p.tenant, p.principal);
    if p.tenant == c.id {
      TheTablesAreFromHistory(k, moves, p.looked, h);
      var held := TenantClaim(p.tenant, t.tenants[p.tenant].status, t.tenants[p.tenant].pair);
      assert held in h;
      Convergence.CurrentIsLatest(h, c, held);
      assert Missing(p.looked, id);
      EveryPermissionIsBounded(k, moves, i, j, p, id);
      assert false;
    }
  }
}
