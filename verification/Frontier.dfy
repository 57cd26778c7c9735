/** The producer's publication frontier: which answers are accepted, and the cache in front of them. */
module Frontier {
  import opened Wrappers
  import opened Model

  /** The producer's answer. `observedAt` is on the producer's clock and enters no subtraction; `readAt` is
      on this consumer's, and zero is the instant that was never set. */
  datatype Facts = Facts(
    highestCommittedMark: int,
    oldestUnpublishedMark: int,
    oldestUnpublishedAge: int,
    unpublished: bool,
    securityDeadLettered: int,
    oldestSecurityDeadLetterAge: int,
    securityDebt: bool,
    observedAt: int,
    readAt: int)
  {
    function Age(now: int): int {
      if readAt == 0 then 0 else now - readAt
    }
  }

  const NO_FACTS := Facts(0, 0, 0, false, 0, 0, false, 0, 0)

  /** The decoded body. The instant may not parse, and a producer from before the debt contract leaves the
      debt out. */
  datatype Wire = Wire(
    highestCommittedMark: int,
    oldestUnpublishedMark: int,
    oldestUnpublishedAge: int,
    unpublished: bool,
    securityDeadLettered: int,
    oldestSecurityDeadLetterAge: int,
    securityDebt: Option<bool>,
    observedAt: Option<int>)

  datatype Reply = Unreached | Replied(status: int, body: Option<Wire>)

  /** What a read makes of a reply, stamped with the instant before the request was sent. */
  function Read(reply: Reply, sentAt: int): (r: Result<Facts, Error>)
    ensures r.Success? <==> reply.Replied? && reply.status == 200 && reply.body.Some?
                            && reply.body.value.observedAt.Some? && reply.body.value.securityDebt.Some?
    ensures r.Success? ==>
              var f, w := r.value, reply.body.value;
              && f.readAt == sentAt && Some(f.observedAt) == w.observedAt && Some(f.securityDebt) == w.securityDebt
              && f.unpublished == w.unpublished && f.oldestUnpublishedAge == w.oldestUnpublishedAge
              && f.oldestUnpublishedMark == w.oldestUnpublishedMark && f.highestCommittedMark == w.highestCommittedMark
              && f.securityDeadLettered == w.securityDeadLettered
              && f.oldestSecurityDeadLetterAge == w.oldestSecurityDeadLetterAge
    ensures r.Failure? ==> r.error == Unavailable
  {
    if !reply.Replied? || reply.status != 200 || reply.body.None? then Failure(Unavailable)
    else
      var w := reply.body.value;
      if w.observedAt.None? || w.securityDebt.None? then Failure(Unavailable)
      else Success(Facts(w.highestCommittedMark, w.oldestUnpublishedMark, w.oldestUnpublishedAge, w.unpublished,
                         w.securityDeadLettered, w.oldestSecurityDeadLetterAge, w.securityDebt.value,
                         w.observedAt.value, sentAt))
  }

  /** The cached answer, while it was younger than the interval at the instant a call was stamped. */
  function Hit(cache: Option<Facts>, ttl: int, stamp: int): Option<Facts> {
    if cache.Some? && stamp - cache.value.readAt < ttl then cache else None
  }

  /** One call alone: what it answers and what it leaves cached, told from what was cached, its stamp and the
      reply it would get. */
  function Called(cache: Option<Facts>, ttl: int, stamp: int, reply: Reply): (Result<Facts, Error>, Option<Facts>) {
    if Hit(cache, ttl, stamp).Some? then (Success(cache.value), cache)
    else
      var r := Read(reply, stamp);
      (r, if r.Success? then Some(r.value) else cache)
  }

  /** A failed read is never answered from the cache and leaves it as it was; whatever is answered was cached and
      young, or is read now; and a call that reads leaves what it read. */
  lemma {:induction false} WhatOneCallAnswers(cache: Option<Facts>, ttl: int, stamp: int, reply: Reply)
    ensures var (r, after) := Called(cache, ttl, stamp, reply);
            && (cache.Some? && stamp - cache.value.readAt < ttl ==> r == Success(cache.value) && after == cache)
            && (r.Failure? ==> after == cache && (cache.Some? ==> ttl <= stamp - cache.value.readAt))
            && (r.Success? ==> after == Some(r.value))
            && (r.Success? && r.value.readAt != stamp ==> cache == Some(r.value) && stamp - r.value.readAt < ttl)
  {
  }

  class Client {
    const ttl: int
    var cached: Facts
    var valid: bool

    constructor (ttl: int)
      ensures this.ttl == ttl && View().None?
    {
      this.ttl := ttl;
      cached, valid := NO_FACTS, false;
    }

    function View(): Option<Facts>
      reads this
    {
      if valid then Some(cached) else None
    }

    /** The first critical section: take the cached answer if it is young enough. */
    method Take(stamp: int) returns (hit: Option<Facts>)
      ensures hit == Hit(View(), ttl, stamp)
    {
      if valid && stamp - cached.readAt < ttl {
        return Some(cached);
      }
      return None;
    }

    /** The second: keep what was read. Another caller may have kept something newer meanwhile. */
    method Keep(facts: Facts)
      modifies this
      ensures View() == Some(facts)
    {
      cached, valid := facts, true;
    }

    /** One call, alone. */
    method Ask(stamp: int, reply: Reply) returns (r: Result<Facts, Error>)
      modifies this
      ensures (r, View()) == Called(old(View()), ttl, stamp, reply)
    {
      var hit := Take(stamp);
      if hit.Some? {
        return Success(hit.value);
      }
      r := Read(reply, stamp);
      if r.Failure? {
        return;
      }
      Keep(r.value);
    }
  }
}
