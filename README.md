# Notification delivery pipeline — a Dafny model

This project models the asynchronous delivery core of a notification delivery
service (`sender.py`). Producers admit payloads into a bounded, send-time
ordered queue. A single consumer loop takes the earliest message. It puts the
message back if it is not yet due. Otherwise it asks a token-bucket rate
limiter for permission. An allowed message counts as sent and is dropped. A
refused message is replaced by its next attempt, postponed by a random jitter
of 0.75 to 1.25 seconds.

Files and modules:

- `message.dfy`, module `Messages`: the `Message` value, its order, and the
  construction of the next attempt.
- `send_queue.dfy`, module `SendQueues`: the `SendQueue` class. Its `items`
  field stands for the priority queue's storage. It offers admission with a
  capacity check (`Accept`), re-insertion without one (`Put`), removal of an
  earliest message (`Get`) and the size.
- `rate_limiter.dfy`, module `RateLimiting`: the token bucket. The functions
  `Refill`, `Decide` and `Run` specify one evaluation and a series of them. The
  `RateLimiter` class updates `available` and `lastTick` in place, and its
  method is proved equal to `Decide`.
- `sender.dfy`, module `Delivery`: the `Sender` class. It holds the consumer
  loop's per-item logic (`Send`, `TrySend`, `Step`) and the inner loop
  (`DeliverDue`).

Each clock reading is a `real` parameter in place of the monotonic clock. The
jitter is a parameter bounded to `[0.75, 1.25)`.

Only `accept` checks the capacity; `put` has none (sender.py:45-46). With one
caller at a time, as here, the consumer's `Get` followed by its `Put` never
grows the queue. In the source a producer's `accept` (sender.py:50-51) can run
between the consumer's `get` (sender.py:98) and its `put` (sender.py:103 or
120), and then the put-back pushes the queue past `maxsize`; that interleaving
is left out. `Accept` admits exactly when the size is below `maxsize`, and
after an admission the size is at most `maxsize`.

## Model

| member | source | states |
|---|---|---|
| `Messages.FirstAttempt` | sender.py:13-18 | a `Message` built for a new payload carries that body, attempt 0, is admitted and due at `now`, is well formed and is not due at any earlier time |
| `Messages.IsDue` | sender.py:101 | a message is due once its send time is reached; a well-formed due message was admitted no later than `now` |
| `Messages.Less` | sender.py:24-25 | `a` comes before `b` exactly when `b` is not yet due at `a`'s send time, i.e. comparison by send time alone |
| `Messages.MakeNextAttempt` | sender.py:20-22 | the next attempt keeps the body and the original admission time, has exactly one more attempt, and is due at `now + delay` |
| `Messages.RetryIsLater` | sender.py:117-120 | retrying a due message with a delay in [0.75, 1.25) moves its send time strictly later, keeps `queuedAt <= sendAt`, and leaves it not due at the instant of the failure |
| `Messages.RetryChainKeepsIdentity` | sender.py:20-22 | over any number of failed attempts, body and admission time are unchanged, the attempt count grows by exactly the number of failures, `queuedAt <= sendAt` holds, and the send time ends up strictly later |
| `Messages.LessIsStrictWeakOrder` | sender.py:24-25 | ordering by send time alone is irreflexive and transitive, and two messages are unordered exactly when their send times are equal |
| `SendQueues.EarliestIndex` | sender.py:42-43 | the index chosen is in range, no queued message is ordered before it, and no earlier position holds an equally early message |
| `SendQueues.WithoutRemovesOne` | sender.py:42-43 | taking one entry out removes exactly that message from the multiset, and the size drops by one |
| `SendQueues.SendQueue.constructor` | sender.py:35-37 | a new queue is empty and keeps its `maxsize` |
| `SendQueues.SendQueue.Size` | sender.py:39-40 | the size is the number of queued messages |
| `SendQueues.SendQueue.Get` | sender.py:42-43 | on a non-empty queue, removes and returns a message that no queued message precedes; the remaining multiset is the old one minus that message |
| `SendQueues.SendQueue.Put` | sender.py:45-46 | never rejects: the message is appended and the size grows by one whatever `maxsize` is |
| `SendQueues.SendQueue.Accept` | sender.py:48-53 | admits exactly when the size is below `maxsize`; an admitted message has `sendAt = queuedAt = now` and attempt 0; a rejection leaves the queue unchanged |
| `SendQueues.ConsecutiveGets` | sender.py:42-43 | two successive removals return messages in non-decreasing send-time order, and both leave the queue |
| `SendQueues.CapacityScenario` | sender.py:48-53 | with capacity 2, two admissions succeed, the third is rejected, and after one removal an admission succeeds again |
| `RateLimiting.Accrual` | sender.py:68 | the tokens added over `elapsed` seconds are `bucketSize` per `windowSecs` seconds (`r * windowSecs == elapsed * bucketSize`), and never negative over a non-negative interval |
| `RateLimiting.Refill` | sender.py:66-70 | the refilled amount never exceeds the bucket size or the uncapped sum, and is one of the two |
| `RateLimiting.RefillInBounds` | sender.py:66-70 | refilling an in-bounds bucket over a non-negative interval never loses tokens and stays within `[0, bucketSize]` |
| `RateLimiting.Decide` | sender.py:64-74 | moves the tick to `now`; allows exactly when the refilled amount is at least one token; an allowed call consumes exactly one token, and a refused call consumes none |
| `RateLimiting.DecideKeepsBounds` | sender.py:64-74 | if `now >= lastTick`, one evaluation keeps `0 <= available <= bucketSize` |
| `RateLimiting.Run` | sender.py:64-74 | a series of evaluations gives one answer per call and leaves the tick at the last call's time |
| `RateLimiting.AccrualAdds` | sender.py:68 | tokens accrued over two consecutive intervals add up to the tokens accrued over their union |
| `RateLimiting.RunInBounds` | sender.py:64-74 | calls at non-decreasing clock times keep the bucket in bounds |
| `RateLimiting.AllowedPlusLeftWithinRefill` | sender.py:64-74 | for any clock readings, allowed sends plus tokens left are at most the starting tokens plus the refill over the whole span |
| `RateLimiting.AllowedWithinBudget` | sender.py:64-74 | calls at non-decreasing times allow at most `bucketSize` plus the refill over the elapsed time |
| `RateLimiting.DrainAtOneInstant` | sender.py:64-74 | with no time passing, a bucket holding `j` whole tokens allows exactly `j` calls, refuses the next, and ends empty |
| `RateLimiting.FullBucketBurst` | sender.py:58-74 | a full bucket of `n` tokens allows exactly `n` calls at one instant and refuses the next |
| `RateLimiting.RefillOneToken` | sender.py:66-74 | from an empty bucket a call is allowed exactly when at least `windowSecs / bucketSize` seconds have passed |
| `RateLimiting.SenderLimiterScenario` | sender.py:83 | the sender's limiter (10 tokens per 5 seconds), full, allows 10 calls at one instant, refuses the 11th, and allows one half a second later |
| `RateLimiting.RateLimiter.constructor` | sender.py:58-62 | a new limiter is full and ticked at the current time |
| `RateLimiting.RateLimiter.IsAllowed` | sender.py:64-74 | the answer and the new `available`/`lastTick` are those of `Decide`; the bounds hold afterwards when the clock did not go back |
| `Delivery.CountDue` | sender.py:97-105 | the number of due messages is at most the queue size, and is zero exactly when no queued message is due |
| `Delivery.CountDueConcat` | sender.py:97-105 | the due count of a concatenation is the sum of the due counts |
| `Delivery.CountDueWithout` | sender.py:97-105 | taking one message out lowers the due count by one exactly when that message was due |
| `Delivery.Sender.constructor` | sender.py:78-83 | a new sender uses the given queue and a fresh, full 10-per-5-seconds limiter |
| `Delivery.Sender.Send` | sender.py:125-137 | the send succeeds exactly when the limiter allows it, and the limiter moves to the state `Decide` gives |
| `Delivery.Sender.TrySend` | sender.py:111-121 | the limiter decides at its own clock reading; an allowed send leaves the queue as it was; a refused one appends the message's next attempt, scheduled from the later reading with the given delay |
| `Delivery.Sender.Step` | sender.py:98-105 | with three non-decreasing clock readings (due check, limiter, retry), takes an earliest message; if it is not due, puts it back, leaves the limiter untouched and nothing queued is due; if it is due and allowed, the queue loses exactly it; if refused, it is replaced by its strictly later next attempt and the size is unchanged |
| `Delivery.Sender.DeliverDue` | sender.py:97-105 | returns the messages sent and the messages refused; each was queued at the start and due; together they are exactly as many as the due messages at the start; the final queue holds the next attempt of every refused message plus every other message of the start (as multisets), and nothing in it is due; the limiter decides the split: with nothing due it is untouched, otherwise it is ticked at `now` and holds exactly the tokens it had after refilling up to `now` minus one per send, and once a send is refused fewer than one token is left |
| `Delivery.Sender.HandleEarliest` | sender.py:98-105 | one iteration keeps the pass invariant `InPass`, extends the sent and refused lists by at most one message between them, and reports a deferral only when nothing queued is due |
| `Delivery.PassStarts` | sender.py:97-98 | before the first iteration nothing is handled and the limiter is as it was |
| `Delivery.PassEnds` | sender.py:97-105 | when nothing queued is due, every message due at the start was sent or refused, the limiter spent one token per send out of what it held at `now`, and a refusal means fewer than one token is left |
| `Delivery.PassAfterDeferral` | sender.py:101-104 | putting back an earliest message that is not due keeps the pass invariant |
| `Delivery.PassAfterDelivery` | sender.py:114-115 | sending a due earliest message when the limiter allows it keeps the pass invariant, counting it as sent |
| `Delivery.PassAfterRetry` | sender.py:116-120 | replacing a due earliest message by its next attempt when the limiter refuses keeps the pass invariant, counting it as refused |
| `Delivery.SpentAfterDecide` | sender.py:64-74 | within a pass at one instant, an allowed evaluation spends exactly one more token and a refused one leaves fewer than one |
| `Delivery.NextAttempts` | sender.py:117-120 | the i-th refused message is replaced by its next attempt with the i-th jitter draw |
| `Delivery.NextAttemptsAppend` | sender.py:117-120 | refusing one more message adds exactly its next attempt with the next jitter draw |
| `Delivery.NotANextAttempt` | sender.py:101 | a message due now is none of the retries scheduled now, since each is postponed by a positive jitter |
| `Delivery.HandledAfterDelivery` | sender.py:114-115 | sending the earliest due message keeps the pass's accounting: it was queued at the start and is counted as sent |
| `Delivery.HandledAfterRetry` | sender.py:117-120 | replacing the earliest due message by its next attempt keeps the pass's accounting: it is counted as refused and its retry as queued |
| `Delivery.ReplaceOne` | sender.py:119-120 | multiset accounting of replacing one queued message by its retry |

## Left out

- Threads, the daemon flag and the priority queue's locking and blocking (sender.py:8, 36, 43, 77-80): the model has one sequential caller, and `Get` requires a non-empty queue where the source blocks.
- The heap layout of the standard priority queue is not part of this model: `Get` removes the first earliest entry of `items`, so the order among messages with equal send times is not the heap's.
- The clock and the sleeps (sender.py:21, 60, 65, 99, 109, 130, 133): clock readings are parameters; the 100 ms idle sleep and the simulated send time are dropped.
- Randomness (sender.py:118, 132): the jitter is a parameter (a function of the draw index in `DeliverDue`) bounded to [0.75, 1.25).
- Metrics and logging (sender.py:84-92, 100, 102, 112, 115, 121, 128, 131, 134-136) do not affect delivery.
- The catch-all exception handlers (sender.py:106-107, 122-123) handle failures of foreign code only.
- `Message.__repr__` (sender.py:27-31) is debug formatting.
- The outer `while True` loop of `run` (sender.py:95-109) runs forever; one pass of it is `DeliverDue`.
- Delivery.Sender.DeliverDue: uses one clock reading `now` for the whole pass, as the due check, the limiter's reading and the retry's base time of every message, whereas the source reads the clock again at each of these points (sender.py:21, 65, 99). Each successful send sleeps 0.2 to 0.5 seconds (sender.py:132-133), so the source's limiter gains 0.4 to 1 token per send during a pass while the model's gains none, and a message that becomes due during the pass is handled in the next pass. `Step` and `TrySend` themselves take the three readings separately.
- Delivery.Sender.DeliverDue: stops when the queue is empty, where the source blocks until a producer adds a message.
- Delivery.Sender.Step: requires its three clock readings to be no earlier than the limiter's last tick and in order (due check, limiter, retry), which the monotonic clock guarantees.
- Token arithmetic is exact real arithmetic: IEEE-float rounding in `is_allowed` (sender.py:66-74) is not modelled.
- RateLimiting.RateLimiter.IsAllowed: requires a positive `windowSecs`; the source divides by it and fails on zero.
- RateLimiting.RateLimiter.constructor: also requires `bucketSize >= 0` so that the bucket invariant holds from the start.
- The request layer in app.py (Flask routing, payload validation, the filter store and its pattern matching) is not part of this model.
