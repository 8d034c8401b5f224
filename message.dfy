/**
 A message waiting for delivery: an immutable value holding the payload, the
 time from which it may be sent, the time it was first admitted and the number
 of failed attempts so far. A retry never changes a message; it builds a new one.
 */
module Messages {

  /** One delivery attempt's scheduling state. Times are readings of a monotonic clock. */
  datatype Message = Message(body: string, sendAt: real, queuedAt: real, attempt: nat)

  /** The scheduling invariant: a message is never due before it was admitted. */
  predicate WellFormed(m: Message) {
    m.queuedAt <= m.sendAt
  }

  /**
   A message is due at `now` once its send time has been reached; a well-formed
   message that is due was admitted no later than `now`.
   */
  predicate IsDue(m: Message, now: real)
    ensures IsDue(m, now) && WellFormed(m) ==> m.queuedAt <= now
  {
    m.sendAt <= now
  }

  /**
   The order of the priority queue: messages compare by send time alone, so
   `a` comes first exactly when `b` is not yet due at the moment `a` becomes due.
   */
  predicate Less(a: Message, b: Message)
    ensures Less(a, b) <==> !IsDue(b, a.sendAt)
  {
    a.sendAt < b.sendAt
  }

  /**
   A newly admitted payload at clock time `now`: the first attempt, admitted
   and due at `now`, and well formed.
   */
  function FirstAttempt(body: string, now: real): (m: Message)
    ensures m.body == body && m.attempt == 0
    ensures m.queuedAt == now && IsDue(m, now) && WellFormed(m)
    ensures forall t :: t < now ==> !IsDue(m, t)
  {
    Message(body, now, now, 0)
  }

  /**
   The next attempt of `m`, read at clock time `now` and postponed by `delay`
   seconds: same payload and admission time, one more attempt.
   */
  function MakeNextAttempt(m: Message, now: real, delay: real): (r: Message)
    ensures r.body == m.body && r.queuedAt == m.queuedAt
    ensures r.attempt == m.attempt + 1
    ensures r.sendAt == now + delay
  {
    Message(m.body, now + delay, m.queuedAt, m.attempt + 1)
  }

  /**
   Retrying a message that was due, with a jitter delay in [0.75, 1.25), moves
   its send time strictly later, keeps it well formed if it was, and leaves it
   not yet due at the instant of the failed attempt.
   */
  lemma RetryIsLater(m: Message, now: real, delay: real)
    requires IsDue(m, now)
    requires 0.75 <= delay < 1.25
    ensures m.sendAt < MakeNextAttempt(m, now, delay).sendAt
    ensures WellFormed(m) ==> WellFormed(MakeNextAttempt(m, now, delay))
    ensures !IsDue(MakeNextAttempt(m, now, delay), now)
    ensures MakeNextAttempt(m, now, delay).sendAt < now + 1.25
  {
  }

  /**
   `Less` is a strict weak order, as a priority queue needs: irreflexive,
   transitive, and two messages that are not ordered either way share a send time.
   */
  lemma LessIsStrictWeakOrder(a: Message, b: Message, c: Message)
    ensures !Less(a, a)
    ensures Less(a, b) && Less(b, c) ==> Less(a, c)
    ensures !Less(a, b) && !Less(b, a) <==> a.sendAt == b.sendAt
  {
  }

  /** Apply `k` failed attempts in a row, the i-th read at `nows[i]` and postponed by `delays[i]`. */
  function RetryChain(m: Message, nows: seq<real>, delays: seq<real>): (r: Message)
    requires |nows| == |delays|
    decreases |nows|
  {
    if |nows| == 0 then m
    else RetryChain(MakeNextAttempt(m, nows[0], delays[0]), nows[1..], delays[1..])
  }

  /** Each failed attempt happens once the current message is due. */
  predicate DueAtEachFailure(m: Message, nows: seq<real>, delays: seq<real>)
    requires |nows| == |delays|
    decreases |nows|
  {
    |nows| == 0 ||
    (IsDue(m, nows[0]) && DueAtEachFailure(MakeNextAttempt(m, nows[0], delays[0]), nows[1..], delays[1..]))
  }

  /**
   Across any number of failed attempts the payload and the admission time are
   kept, the attempt counter grows by exactly the number of failures, the message
   stays well formed, and (after at least one failure) the send time has moved
   strictly later.
   */
  lemma {:induction false} RetryChainKeepsIdentity(m: Message, nows: seq<real>, delays: seq<real>)
    requires |nows| == |delays|
    requires WellFormed(m)
    requires DueAtEachFailure(m, nows, delays)
    requires forall i :: 0 <= i < |delays| ==> 0.75 <= delays[i] < 1.25
    ensures RetryChain(m, nows, delays).body == m.body
    ensures RetryChain(m, nows, delays).queuedAt == m.queuedAt
    ensures RetryChain(m, nows, delays).attempt == m.attempt + |nows|
    ensures WellFormed(RetryChain(m, nows, delays))
    ensures |nows| > 0 ==> m.sendAt < RetryChain(m, nows, delays).sendAt
    decreases |nows|
  {
    if |nows| > 0 {
      var next := MakeNextAttempt(m, nows[0], delays[0]);
      RetryIsLater(m, nows[0], delays[0]);
      assert forall i :: 0 <= i < |delays[1..]| ==> delays[1..][i] == delays[i + 1];
      RetryChainKeepsIdentity(next, nows[1..], delays[1..]);
    }
  }
}
