/**
 The delivery loop's per-item logic: take the earliest message, put it back if
 it is not yet due, otherwise consult the rate limiter and either count it as
 sent or schedule its next attempt after a jitter delay.
 */
module Delivery {
  import opened Messages
  import opened SendQueues
  import opened RateLimiting

  /** What happened to one dequeued message. */
  datatype Outcome =
    | Deferred(item: Message)                  // not yet due: put back unchanged
    | Delivered(item: Message)                 // due and allowed: sent and dropped
    | Postponed(item: Message, retry: Message) // due but refused: replaced by its next attempt

  /** The number of messages in `s` that are due at `now`. */
  function CountDue(s: seq<Message>, now: real): (n: nat)
    ensures n <= |s|
    ensures n == 0 <==> forall m :: m in s ==> !IsDue(m, now)
    decreases |s|
  {
    if |s| == 0 then 0
    else
      assert s == [s[0]] + s[1..];
      (if IsDue(s[0], now) then 1 else 0) + CountDue(s[1..], now)
  }

  /** Counting due messages distributes over concatenation. */
  lemma {:induction false} CountDueConcat(a: seq<Message>, b: seq<Message>, now: real)
    ensures CountDue(a + b, now) == CountDue(a, now) + CountDue(b, now)
    decreases |a|
  {
    if |a| == 0 {
      assert a + b == b;
    } else {
      assert (a + b)[0] == a[0];
      assert (a + b)[1..] == a[1..] + b;
      CountDueConcat(a[1..], b, now);
    }
  }

  /** Taking one message out lowers the due count by one exactly when that message was due. */
  lemma CountDueWithout(s: seq<Message>, k: nat, now: real)
    requires k < |s|
    ensures CountDue(Without(s, k), now) + (if IsDue(s[k], now) then 1 else 0) == CountDue(s, now)
  {
    assert s == s[..k] + ([s[k]] + s[k + 1..]);
    CountDueConcat(s[..k], [s[k]] + s[k + 1..], now);
    CountDueConcat([s[k]], s[k + 1..], now);
    CountDueConcat(s[..k], s[k + 1..], now);
  }

  class Sender {
    /** The queue this loop consumes. */
    const queue: SendQueue
    /** The loop's own outbound limiter. */
    const limiter: RateLimiter

    ghost predicate Valid()
      reads this, limiter
    {
      limiter.Valid()
    }

    /** A sender over `queue` whose limiter allows 10 messages per 5 seconds, full at clock time `now`. */
    constructor (queue: SendQueue, now: real)
      ensures this.queue == queue && fresh(limiter)
      ensures limiter.Cfg() == Config(10.0, 5.0) && limiter.State() == Bucket(10.0, now)
      ensures Valid()
    {
      this.queue := queue;
      limiter := new RateLimiter(10.0, 5.0, now);
    }

    /**
     Hand `item` to the transport if the limiter allows it at clock time `now`.
     The transport itself always succeeds; only the limiter can refuse.
     */
    method Send(item: Message, now: real) returns (ok: bool)
      requires Valid()
      modifies limiter
      ensures (ok, limiter.State()) == Decide(limiter.Cfg(), old(limiter.State()), now)
      ensures old(limiter.lastTick) <= now ==> Valid()
    {
      ok := limiter.IsAllowed(now);
    }

    /**
     Try to send `item`: the limiter reads the clock at `tLimit`. If the send is
     refused, the next attempt is scheduled from the later reading `tRetry`,
     postponed by the jitter `delay`, and goes back into the queue.
     */
    method TrySend(item: Message, tLimit: real, tRetry: real, delay: real) returns (outcome: Outcome)
      requires Valid()
      requires 0.75 <= delay < 1.25
      modifies queue, limiter
      ensures outcome.item == item
      ensures limiter.State() == Decide(limiter.Cfg(), old(limiter.State()), tLimit).1
      ensures outcome.Delivered? <==> Decide(limiter.Cfg(), old(limiter.State()), tLimit).0
      ensures outcome.Delivered? ==> queue.items == old(queue.items)
      ensures !outcome.Delivered? ==>
        outcome == Postponed(item, MakeNextAttempt(item, tRetry, delay)) &&
        queue.items == old(queue.items) + [outcome.retry]
      ensures old(limiter.lastTick) <= tLimit ==> Valid()
    {
      var ok := Send(item, tLimit);
      if ok {
        outcome := Delivered(item);
      } else {
        var retry := MakeNextAttempt(item, tRetry, delay);
        queue.Put(retry);
        outcome := Postponed(item, retry);
      }
    }

    /**
     One pass of the inner loop. The clock reads `now` after the dequeue,
     `tLimit` in the limiter and `tRetry` when a retry is scheduled. Take the
     earliest message; if it is not yet due put it back unchanged without
     touching the limiter, otherwise try to send it, with `delay` as the
     jitter for a retry.
     */
    method Step(now: real, tLimit: real, tRetry: real, delay: real) returns (outcome: Outcome)
      requires Valid() && limiter.lastTick <= now <= tLimit <= tRetry
      requires |queue.items| > 0
      requires 0.75 <= delay < 1.25
      modifies queue, limiter
      ensures Valid() && limiter.lastTick <= tLimit
      ensures outcome.item == old(queue.items)[EarliestIndex(old(queue.items))]
      ensures forall x :: x in old(queue.items) ==> !Less(x, outcome.item)
      ensures outcome.Deferred? <==> !IsDue(outcome.item, now)
      // not yet due: back in the queue, nothing else is due either, the limiter is untouched
      ensures outcome.Deferred? ==>
        queue.items == Without(old(queue.items), EarliestIndex(old(queue.items))) + [outcome.item] &&
        multiset(queue.items) == multiset(old(queue.items)) &&
        (forall x :: x in queue.items ==> !IsDue(x, now)) &&
        limiter.State() == old(limiter.State())
      // due: the limiter decides
      ensures !outcome.Deferred? ==>
        limiter.State() == Decide(limiter.Cfg(), old(limiter.State()), tLimit).1 &&
        (outcome.Delivered? <==> Decide(limiter.Cfg(), old(limiter.State()), tLimit).0)
      // sent: the queue loses exactly that message
      ensures outcome.Delivered? ==>
        queue.items == Without(old(queue.items), EarliestIndex(old(queue.items))) &&
        multiset(queue.items) == multiset(old(queue.items)) - multiset{outcome.item} &&
        |queue.items| == |old(queue.items)| - 1
      // refused: the message is replaced by a strictly later next attempt
      ensures outcome.Postponed? ==>
        outcome.retry == MakeNextAttempt(outcome.item, tRetry, delay) &&
        queue.items == Without(old(queue.items), EarliestIndex(old(queue.items))) + [outcome.retry] &&
        multiset(queue.items) == multiset(old(queue.items)) - multiset{outcome.item} + multiset{outcome.retry} &&
        |queue.items| == |old(queue.items)| &&
        outcome.item.sendAt < outcome.retry.sendAt &&
        !IsDue(outcome.retry, tRetry) &&
        (WellFormed(outcome.item) ==> WellFormed(outcome.retry))
      ensures old(AllWellFormed(queue.items)) ==> AllWellFormed(queue.items)
    {
      ghost var before := queue.items;
      ghost var k := EarliestIndex(before);
      WithoutRemovesOne(before, k);
      var item := queue.Get();
      ghost var rest := queue.items;
      assert rest == Without(before, k);
      if item.sendAt > now {
        queue.Put(item);
        assert queue.items == rest + [item];
        forall x | x in queue.items
          ensures !IsDue(x, now)
        {
          if x != item {
            assert x in before;
          }
        }
        return Deferred(item);
      }
      outcome := TrySend(item, tLimit, tRetry, delay);
      if outcome.Postponed? {
        RetryIsLater(item, tRetry, delay);
        assert queue.items == rest + [outcome.retry];
      }
    }

    /**
     The inner loop, with every clock reading of the pass equal to `now`:
     process earliest messages until the earliest one is not yet due (or the
     queue is empty, where Python's `PriorityQueue.get` blocks). The i-th
     refused send is postponed by `jitter(i)`. Returns the messages sent and the
     messages refused, each in the order handled. Every message that was due is
     handled exactly once: it is sent, or it is replaced by its next attempt;
     every other message stays queued; and nothing left in the queue is due.
     The limiter decides the split: each send spends one token of what the
     bucket holds at `now`, and a send is refused only below one token.
     */
    method DeliverDue(now: real, jitter: nat -> real) returns (delivered: seq<Message>, retried: seq<Message>)
      requires Valid() && limiter.lastTick <= now
      requires forall i :: 0.75 <= jitter(i) < 1.25
      modifies queue, limiter
      ensures Valid() && limiter.lastTick <= now
      ensures forall m :: m in queue.items ==> !IsDue(m, now)
      ensures forall m :: m in delivered ==> m in old(queue.items) && IsDue(m, now)
      ensures forall m :: m in retried ==> m in old(queue.items) && IsDue(m, now)
      ensures |delivered| + |retried| == old(CountDue(queue.items, now))
      ensures multiset(NextAttempts(retried, now, jitter)) <= multiset(queue.items)
      ensures multiset(queue.items) + multiset(delivered) + multiset(retried)
        == multiset(old(queue.items)) + multiset(NextAttempts(retried, now, jitter))
      ensures |delivered| + |queue.items| == |old(queue.items)|
      ensures old(AllWellFormed(queue.items)) ==> AllWellFormed(queue.items)
      // the limiter's share: nothing due leaves it untouched; otherwise it is read
      // at `now` once per due message, and each send spends one of the tokens the
      // bucket held after refilling up to `now`
      ensures |delivered| + |retried| == 0 ==> limiter.State() == old(limiter.State())
      ensures |delivered| + |retried| > 0 ==>
        limiter.lastTick == now &&
        limiter.available == Refill(limiter.Cfg(), old(limiter.available), now - old(limiter.lastTick)) - |delivered| as real
      ensures |delivered| as real + limiter.available
        <= Refill(limiter.Cfg(), old(limiter.available), now - old(limiter.lastTick))
      // a send is refused only once fewer than one token is left
      ensures |retried| > 0 ==> limiter.available < 1.0
    {
      ghost var orig := queue.items;
      ghost var s0 := limiter.State();
      ghost var r0 := Refill(limiter.Cfg(), limiter.available, now - limiter.lastTick);
      PassStarts(orig, limiter.Cfg(), s0, now, jitter);
      delivered, retried := [], [];
      while |queue.items| > 0
        invariant Valid()
        invariant InPass(orig, queue.items, limiter.Cfg(), s0, r0, limiter.State(), now, jitter, delivered, retried)
        decreases CountDue(queue.items, now)
      {
        var deferred;
        deferred, delivered, retried := HandleEarliest(now, jitter, orig, s0, r0, delivered, retried);
        if deferred {
          break;
        }
      }
      PassEnds(orig, queue.items, limiter.Cfg(), s0, r0, limiter.State(), now, jitter, delivered, retried);
    }

    /**
     One iteration of the inner loop: take an earliest message; put it back
     and report `deferred` if it is not yet due; otherwise send it or replace
     it by its next attempt, and count it as sent or refused.
     */
    method HandleEarliest(now: real, jitter: nat -> real, ghost orig: seq<Message>, ghost s0: Bucket,
                          ghost r0: real, delivered: seq<Message>, retried: seq<Message>)
      returns (deferred: bool, sent: seq<Message>, refused: seq<Message>)
      requires forall i :: 0.75 <= jitter(i) < 1.25
      requires |queue.items| > 0
      requires Valid()
      requires InPass(orig, queue.items, limiter.Cfg(), s0, r0, limiter.State(), now, jitter, delivered, retried)
      modifies queue, limiter
      ensures Valid()
      ensures InPass(orig, queue.items, limiter.Cfg(), s0, r0, limiter.State(), now, jitter, sent, refused)
      ensures delivered <= sent && retried <= refused
      ensures deferred ==> sent == delivered && refused == retried
      ensures deferred ==> forall m :: m in queue.items ==> !IsDue(m, now)
      ensures !deferred ==> |sent| + |refused| == |delivered| + |retried| + 1
    {
      ghost var before := queue.items;
      ghost var sb := limiter.State();
      ghost var k := EarliestIndex(before);
      var outcome := Step(now, now, now, jitter(|retried|));
      sent, refused := delivered, retried;
      deferred := outcome.Deferred?;
      if outcome.Deferred? {
        PassAfterDeferral(orig, before, k, queue.items, limiter.Cfg(), s0, r0, sb, now, jitter, delivered, retried);
      } else if outcome.Delivered? {
        PassAfterDelivery(orig, before, k, queue.items, limiter.Cfg(), s0, r0, sb, limiter.State(), now, jitter,
                          delivered, retried);
        sent := delivered + [outcome.item];
      } else {
        PassAfterRetry(orig, before, k, queue.items, limiter.Cfg(), s0, r0, sb, limiter.State(), now, jitter,
                       delivered, retried);
        refused := retried + [outcome.item];
      }
    }
  }

  /**
   What holds after each iteration of the inner loop, from the queue `orig`
   and the bucket `s0` at the start of the pass, which refills to `r0` tokens
   at `now`: the limiter's side (`Spent`), the queue's side (`Handled`), the
   number of due messages handled so far, and the scheduling invariant.
   */
  ghost predicate InPass(orig: seq<Message>, items: seq<Message>, c: Config, s0: Bucket, r0: real,
                         s: Bucket, now: real, jitter: nat -> real,
                         delivered: seq<Message>, retried: seq<Message>)
  {
    c.windowSecs > 0.0 && s0.lastTick <= now && r0 == Refill(c, s0.available, now - s0.lastTick) &&
    InBounds(c, s0) && InBounds(c, s) && s.lastTick <= now &&
    Spent(c, s0, r0, now, s, |delivered|, |retried|) &&
    Handled(orig, items, delivered, retried, now, jitter) &&
    |delivered| + |retried| + CountDue(items, now) == CountDue(orig, now) &&
    |delivered| + |items| == |orig| &&
    (AllWellFormed(orig) ==> AllWellFormed(items))
  }

  /** A pass starts with nothing handled and the limiter untouched. */
  lemma PassStarts(orig: seq<Message>, c: Config, s0: Bucket, now: real, jitter: nat -> real)
    requires c.windowSecs > 0.0 && InBounds(c, s0) && s0.lastTick <= now
    ensures InPass(orig, orig, c, s0, Refill(c, s0.available, now - s0.lastTick), s0, now, jitter, [], [])
  {
  }

  /**
   When no queued message is due, the pass has handled every message that was
   due at its start, and the limiter has spent one token per send out of what
   it held at `now`, refusing only once fewer than one token was left.
   */
  lemma PassEnds(orig: seq<Message>, items: seq<Message>, c: Config, s0: Bucket, r0: real,
                 s: Bucket, now: real, jitter: nat -> real,
                 delivered: seq<Message>, retried: seq<Message>)
    requires InPass(orig, items, c, s0, r0, s, now, jitter, delivered, retried)
    requires forall m :: m in items ==> !IsDue(m, now)
    ensures |delivered| + |retried| == CountDue(orig, now)
    ensures |delivered| + |retried| == 0 ==> s == s0
    ensures |delivered| + |retried| > 0 ==> s.lastTick == now && s.available == r0 - |delivered| as real
    ensures |delivered| as real + s.available <= r0
    ensures |retried| > 0 ==> s.available < 1.0
  {
    RefillInBounds(c, s0.available, now - s0.lastTick);
  }

  /** Putting back the earliest message, which is not due, keeps `InPass`. */
  lemma PassAfterDeferral(orig: seq<Message>, before: seq<Message>, k: nat, after: seq<Message>,
                          c: Config, s0: Bucket, r0: real, s: Bucket, now: real, jitter: nat -> real,
                          delivered: seq<Message>, retried: seq<Message>)
    requires k < |before|
    requires InPass(orig, before, c, s0, r0, s, now, jitter, delivered, retried)
    requires after == Without(before, k) + [before[k]]
    ensures InPass(orig, after, c, s0, r0, s, now, jitter, delivered, retried)
  {
    WithoutRemovesOne(before, k);
    CountDueWithout(before, k, now);
    CountDueConcat(Without(before, k), [before[k]], now);
    assert multiset(after) == multiset(before);
    forall m | m in after
      ensures m in before
    {
      assert multiset(after)[m] > 0;
    }
  }

  /** Sending the earliest message, which is due, when the limiter allows it keeps `InPass`. */
  lemma PassAfterDelivery(orig: seq<Message>, before: seq<Message>, k: nat, after: seq<Message>,
                          c: Config, s0: Bucket, r0: real, sb: Bucket, s: Bucket, now: real,
                          jitter: nat -> real, delivered: seq<Message>, retried: seq<Message>)
    requires forall i :: 0.75 <= jitter(i) < 1.25
    requires k < |before| && IsDue(before[k], now)
    requires InPass(orig, before, c, s0, r0, sb, now, jitter, delivered, retried)
    requires after == Without(before, k)
    requires Decide(c, sb, now).0 && s == Decide(c, sb, now).1
    ensures InPass(orig, after, c, s0, r0, s, now, jitter, delivered + [before[k]], retried)
  {
    WithoutRemovesOne(before, k);
    CountDueWithout(before, k, now);
    SpentAfterDecide(c, s0, r0, now, sb, |delivered|, |retried|);
    DecideKeepsBounds(c, sb, now);
    HandledAfterDelivery(orig, before, after, delivered, retried, now, jitter, before[k]);
  }

  /**
   Replacing the earliest message, which is due, by its next attempt when the
   limiter refuses it keeps `InPass`.
   */
  lemma PassAfterRetry(orig: seq<Message>, before: seq<Message>, k: nat, after: seq<Message>,
                       c: Config, s0: Bucket, r0: real, sb: Bucket, s: Bucket, now: real,
                       jitter: nat -> real, delivered: seq<Message>, retried: seq<Message>)
    requires forall i :: 0.75 <= jitter(i) < 1.25
    requires k < |before| && IsDue(before[k], now)
    requires InPass(orig, before, c, s0, r0, sb, now, jitter, delivered, retried)
    requires after == Without(before, k) + [MakeNextAttempt(before[k], now, jitter(|retried|))]
    requires !Decide(c, sb, now).0 && s == Decide(c, sb, now).1
    ensures InPass(orig, after, c, s0, r0, s, now, jitter, delivered, retried + [before[k]])
  {
    var retry := MakeNextAttempt(before[k], now, jitter(|retried|));
    WithoutRemovesOne(before, k);
    CountDueWithout(before, k, now);
    CountDueConcat(Without(before, k), [retry], now);
    RetryIsLater(before[k], now, jitter(|retried|));
    SpentAfterDecide(c, s0, r0, now, sb, |delivered|, |retried|);
    DecideKeepsBounds(c, sb, now);
    HandledAfterRetry(orig, before, after, delivered, retried, now, jitter, before[k]);
  }

  /**
   The limiter's side of the inner loop, from the bucket `s0` at the start of a
   pass, which refills to `r0` tokens at `now`, after `sent` allowed and
   `refused` refused evaluations at `now`: untouched if there were none,
   otherwise ticked at `now` with one token spent per send, and below one token
   once a send has been refused.
   */
  ghost predicate Spent(c: Config, s0: Bucket, r0: real, now: real, s: Bucket, sent: nat, refused: nat) {
    (sent + refused == 0 ==> s == s0) &&
    (sent + refused > 0 ==> s.lastTick == now && s.available == r0 - sent as real) &&
    (refused > 0 ==> s.available < 1.0)
  }

  /** One more evaluation at `now` keeps `Spent`, counting it as a send or a refusal. */
  lemma SpentAfterDecide(c: Config, s0: Bucket, r0: real, now: real, s: Bucket, sent: nat, refused: nat)
    requires c.windowSecs > 0.0 && InBounds(c, s) && s0.lastTick <= now
    requires r0 == Refill(c, s0.available, now - s0.lastTick)
    requires Spent(c, s0, r0, now, s, sent, refused)
    ensures Decide(c, s, now).0 ==> Spent(c, s0, r0, now, Decide(c, s, now).1, sent + 1, refused)
    ensures !Decide(c, s, now).0 ==> Spent(c, s0, r0, now, Decide(c, s, now).1, sent, refused + 1)
  {
    if sent + refused > 0 {
      NoAccrualAtOneInstant(c, now);
    }
  }

  /**
   The bookkeeping of the inner loop, from the queue `orig` at the start of a
   pass to the queue `now` holds: the messages handled so far were due and
   queued at the start, no due message has entered the queue, the next
   attempts of the refused messages are all queued, and every message of
   `orig` is delivered, refused or still queued.
   */
  ghost predicate Handled(orig: seq<Message>, items: seq<Message>, delivered: seq<Message>,
                          retried: seq<Message>, now: real, jitter: nat -> real)
  {
    (forall m :: m in items && IsDue(m, now) ==> m in orig) &&
    (forall m :: m in delivered ==> m in orig && IsDue(m, now)) &&
    (forall m :: m in retried ==> m in orig && IsDue(m, now)) &&
    multiset(NextAttempts(retried, now, jitter)) <= multiset(items) &&
    multiset(items) + multiset(delivered) + multiset(retried)
      == multiset(orig) + multiset(NextAttempts(retried, now, jitter))
  }

  /** Sending the due message `item` taken out of `before` keeps the bookkeeping. */
  lemma HandledAfterDelivery(orig: seq<Message>, before: seq<Message>, after: seq<Message>,
                             delivered: seq<Message>, retried: seq<Message>, now: real,
                             jitter: nat -> real, item: Message)
    requires forall i :: 0.75 <= jitter(i) < 1.25
    requires Handled(orig, before, delivered, retried, now, jitter)
    requires item in before && IsDue(item, now)
    requires multiset(after) == multiset(before) - multiset{item}
    ensures Handled(orig, after, delivered + [item], retried, now, jitter)
  {
    var na := NextAttempts(retried, now, jitter);
    NotANextAttempt(retried, now, jitter, item);
    assert multiset(na)[item] == 0;
    assert multiset(delivered + [item]) == multiset(delivered) + multiset{item};
    forall m | m in after
      ensures m in before
    {
      assert multiset(after)[m] > 0;
    }
  }

  /** Replacing the due message `item` of `before` by its next attempt keeps the bookkeeping. */
  lemma HandledAfterRetry(orig: seq<Message>, before: seq<Message>, after: seq<Message>,
                          delivered: seq<Message>, retried: seq<Message>, now: real,
                          jitter: nat -> real, item: Message)
    requires forall i :: 0.75 <= jitter(i) < 1.25
    requires Handled(orig, before, delivered, retried, now, jitter)
    requires item in before && IsDue(item, now)
    requires multiset(after) == multiset(before) - multiset{item}
      + multiset{MakeNextAttempt(item, now, jitter(|retried|))}
    ensures Handled(orig, after, delivered, retried + [item], now, jitter)
  {
    var retry := MakeNextAttempt(item, now, jitter(|retried|));
    var na := NextAttempts(retried, now, jitter);
    NotANextAttempt(retried, now, jitter, item);
    NextAttemptsAppend(retried, item, now, jitter);
    assert multiset(retried + [item]) == multiset(retried) + multiset{item};
    assert multiset(na + [retry]) == multiset(na) + multiset{retry};
    ReplaceOne(multiset(before), multiset(after), multiset(delivered), multiset(retried),
               multiset(orig), multiset(na), item, retry);
    forall m | m in after && IsDue(m, now)
      ensures m in before
    {
      assert m != retry;
      assert multiset(after)[m] > 0;
    }
  }

  /**
   Multiset accounting of one replacement: `b` holds the scheduled retries `n`
   and balances `o`; taking out `x`, which is not a scheduled retry, and
   adding its replacement `y` keeps both facts once `x` is counted as refused
   and `y` as scheduled.
   */
  lemma ReplaceOne(b: multiset<Message>, a: multiset<Message>, d: multiset<Message>,
                   r: multiset<Message>, o: multiset<Message>, n: multiset<Message>,
                   x: Message, y: Message)
    requires n <= b && b + d + r == o + n
    requires x in b && x !in n
    requires a == b - multiset{x} + multiset{y}
    ensures n + multiset{y} <= a
    ensures a + d + (r + multiset{x}) == o + (n + multiset{y})
  {
    var c := b - multiset{x};
    assert b == c + multiset{x};
    assert n <= c;
    calc {
      a + d + (r + multiset{x});
      c + multiset{y} + d + r + multiset{x};
      (c + multiset{x}) + d + r + multiset{y};
      b + d + r + multiset{y};
      o + n + multiset{y};
    }
  }

  /** The i-th refused message's next attempt, scheduled from `now` with the jitter `jitter(i)`. */
  function NextAttempts(retried: seq<Message>, now: real, jitter: nat -> real): (r: seq<Message>)
    ensures |r| == |retried|
    ensures forall i :: 0 <= i < |r| ==> r[i] == MakeNextAttempt(retried[i], now, jitter(i))
  {
    seq(|retried|, i requires 0 <= i < |retried| => MakeNextAttempt(retried[i], now, jitter(i)))
  }

  /** Refusing one more message adds its next attempt, with the next jitter draw. */
  lemma NextAttemptsAppend(retried: seq<Message>, m: Message, now: real, jitter: nat -> real)
    ensures NextAttempts(retried + [m], now, jitter)
      == NextAttempts(retried, now, jitter) + [MakeNextAttempt(m, now, jitter(|retried|))]
  {
    var a := NextAttempts(retried + [m], now, jitter);
    var b := NextAttempts(retried, now, jitter) + [MakeNextAttempt(m, now, jitter(|retried|))];
    assert |a| == |b|;
    forall i | 0 <= i < |a|
      ensures a[i] == b[i]
    {
      if i < |retried| {
        assert (retried + [m])[i] == retried[i];
      }
    }
  }

  /**
   A message due at `now` is none of the next attempts scheduled from `now`,
   since each of those is postponed by a positive jitter.
   */
  lemma NotANextAttempt(retried: seq<Message>, now: real, jitter: nat -> real, m: Message)
    requires forall i :: 0.75 <= jitter(i) < 1.25
    requires IsDue(m, now)
    ensures m !in NextAttempts(retried, now, jitter)
  {
  }
}
