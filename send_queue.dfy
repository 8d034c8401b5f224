/**
 The send queue: a priority queue of messages ordered by send time, with a
 capacity that only the admission path checks.
 */
module SendQueues {
  import opened Messages

  /**
   The index of an earliest message: no message is Less than it, and it is the
   first such message.
   */
  function EarliestIndex(s: seq<Message>): (k: nat)
    requires |s| > 0
    ensures k < |s|
    ensures forall j :: 0 <= j < |s| ==> !Less(s[j], s[k])
    ensures forall j :: 0 <= j < k ==> Less(s[k], s[j])
    decreases |s|
  {
    if |s| == 1 then 0
    else
      var k := EarliestIndex(s[1..]);
      if s[k + 1].sendAt < s[0].sendAt then k + 1 else 0
  }

  /** `s` with the element at index `k` taken out. */
  function Without(s: seq<Message>, k: nat): (r: seq<Message>)
    requires k < |s|
  {
    s[..k] + s[k + 1..]
  }

  /** Taking out one element removes exactly that element from the multiset. */
  lemma WithoutRemovesOne(s: seq<Message>, k: nat)
    requires k < |s|
    ensures |Without(s, k)| == |s| - 1
    ensures multiset(Without(s, k)) == multiset(s) - multiset{s[k]}
    ensures multiset(Without(s, k)) + multiset{s[k]} == multiset(s)
    ensures forall x :: x in Without(s, k) ==> x in s
  {
    assert s == s[..k] + [s[k]] + s[k + 1..];
  }

  /** Every queued message satisfies the scheduling invariant. */
  ghost predicate AllWellFormed(s: seq<Message>) {
    forall m :: m in s ==> WellFormed(m)
  }

  class SendQueue {
    /** The queued messages, in the order they sit in the priority queue's storage. */
    var items: seq<Message>
    /** The admission limit checked by Accept. */
    const maxsize: int

    constructor (maxsize: int)
      ensures this.maxsize == maxsize && items == []
    {
      this.maxsize := maxsize;
      items := [];
    }

    /** The point-in-time number of queued messages. */
    method Size() returns (n: nat)
      ensures n == |items|
    {
      n := |items|;
    }

    /**
     Remove and return an earliest message. Requires a message to be present
     where Python's `PriorityQueue.get` blocks until one arrives.
     */
    method Get() returns (m: Message)
      requires |items| > 0
      modifies this
      ensures m in old(items)
      ensures forall x :: x in old(items) ==> !Less(x, m)
      ensures m == old(items)[EarliestIndex(old(items))]
      ensures items == Without(old(items), EarliestIndex(old(items)))
      ensures multiset(items) == multiset(old(items)) - multiset{m}
      ensures |items| == |old(items)| - 1
    {
      var k := EarliestIndex(items);
      m := items[k];
      WithoutRemovesOne(items, k);
      items := Without(items, k);
    }

    /** Re-insert a message with no capacity check: it is never rejected. */
    method Put(m: Message)
      modifies this
      ensures items == old(items) + [m]
      ensures multiset(items) == multiset(old(items)) + multiset{m}
      ensures |items| == |old(items)| + 1
    {
      items := items + [m];
    }

    /**
     Admit a new payload as a first attempt due immediately, exactly when the
     queue holds fewer than `maxsize` messages; otherwise reject it and leave
     the queue as it was.
     */
    method Accept(now: real, body: string) returns (ok: bool)
      modifies this
      ensures ok <==> |old(items)| < maxsize
      ensures ok ==> items == old(items) + [FirstAttempt(body, now)]
      ensures !ok ==> items == old(items)
      ensures ok ==> |items| <= maxsize
    {
      var message := FirstAttempt(body, now);
      if |items| < maxsize {
        items := items + [message];
        ok := true;
      } else {
        ok := false;
      }
    }
  }

  /**
   Successive Get calls with no insertion in between return messages in
   non-decreasing send-time order.
   */
  method ConsecutiveGets(q: SendQueue) returns (first: Message, second: Message)
    requires |q.items| >= 2
    modifies q
    ensures !Less(second, first)
    ensures multiset(q.items) + multiset{first, second} == old(multiset(q.items))
  {
    first := q.Get();
    second := q.Get();
  }

  /**
   With capacity 2: two admissions succeed, a third is rejected, and once one
   message has been taken out another admission succeeds.
   */
  method CapacityScenario(now: real) returns (a: bool, b: bool, c: bool, d: bool)
    ensures a && b && !c && d
  {
    var q := new SendQueue(2);
    a := q.Accept(now, "first");
    b := q.Accept(now, "second");
    c := q.Accept(now, "third");
    var m := q.Get();
    d := q.Accept(now, "fourth");
  }
}
