/** The alarm's sleep queue. `waitUntil` puts the calling thread at the
    tail of the queue with its wake time; each timer interrupt takes the
    queue apart once, readying the threads whose wake time has passed and
    putting the others back in their original order. Thread scheduling
    (`KThread.sleep`, `ready`, `yield`) and interrupt masking are outside
    the model: the threads an interrupt readies are its result. */
module Alarm {
  import opened Util
  import opened Machine

  /** A thread, identified by an opaque number. */
  type ThreadId = int

  /** A sleeper in the queue: the thread and its wake time (`Pair`). */
  datatype Sleeper = Sleeper(thread: ThreadId, time: int)

  /** The sleepers of `q` that a timer interrupt at time `now` readies:
      those whose wake time is strictly before `now`, in queue order. */
  function Due(q: seq<Sleeper>, now: int): seq<Sleeper>
  {
    if q == [] then []
    else (if q[0].time < now then [q[0]] else []) + Due(q[1..], now)
  }

  /** The sleepers of `q` that stay asleep at time `now`, in queue order. */
  function Pending(q: seq<Sleeper>, now: int): seq<Sleeper>
  {
    if q == [] then []
    else (if q[0].time < now then [] else [q[0]]) + Pending(q[1..], now)
  }

  /** The threads of a run of sleepers, in order. */
  function Threads(q: seq<Sleeper>): (r: seq<ThreadId>)
    ensures |r| == |q| && forall i | 0 <= i < |q| :: r[i] == q[i].thread
  {
    if q == [] then [] else [q[0].thread] + Threads(q[1..])
  }

  lemma {:induction false} DueAppend(a: seq<Sleeper>, b: seq<Sleeper>, now: int)
    ensures Due(a + b, now) == Due(a, now) + Due(b, now)
    ensures Pending(a + b, now) == Pending(a, now) + Pending(b, now)
  {
    if a != [] {
      assert (a + b)[1..] == a[1..] + b;
      DueAppend(a[1..], b, now);
    } else {
      assert a + b == b;
    }
  }

  lemma ThreadsAppend(a: seq<Sleeper>, b: seq<Sleeper>)
    ensures Threads(a + b) == Threads(a) + Threads(b)
  {
  }

  /** Every sleeper is either readied or kept, never both and never twice:
      the two parts together hold the queue's sleepers with their
      multiplicities, and their lengths add up to the queue's. */
  lemma {:induction false} PartitionIsExact(q: seq<Sleeper>, now: int)
    ensures |Due(q, now)| + |Pending(q, now)| == |q|
    ensures multiset(Due(q, now)) + multiset(Pending(q, now)) == multiset(q)
  {
    if q != [] {
      PartitionIsExact(q[1..], now);
      assert q == [q[0]] + q[1..];
    }
  }

  /** A sleeper is readied exactly when it is in the queue with a wake time
      before `now`, and kept exactly when its wake time is `now` or later. */
  lemma {:induction false} PartitionMembership(q: seq<Sleeper>, now: int, s: Sleeper)
    ensures s in Due(q, now) <==> s in q && s.time < now
    ensures s in Pending(q, now) <==> s in q && s.time >= now
  {
    if q != [] {
      PartitionMembership(q[1..], now, s);
      assert q == [q[0]] + q[1..];
    }
  }

  /** A sleeper whose wake time equals the interrupt time stays asleep,
      since the test is a strict `<`. */
  lemma EqualTimeStaysAsleep(q: seq<Sleeper>, now: int, s: Sleeper)
    requires s in q && s.time == now
    ensures s !in Due(q, now) && s in Pending(q, now)
  {
    PartitionMembership(q, now, s);
  }

  /** An interrupt finding no sleeper due changes nothing. */
  lemma {:induction false} NothingDueKeepsQueue(q: seq<Sleeper>, now: int)
    requires forall i | 0 <= i < |q| :: q[i].time >= now
    ensures Due(q, now) == [] && Pending(q, now) == q
  {
    if q != [] {
      NothingDueKeepsQueue(q[1..], now);
      assert q == [q[0]] + q[1..];
    }
  }

  /** What one round of the interrupt loop adds to the readied and kept parts. */
  lemma PrefixStep(q: seq<Sleeper>, i: int, now: int)
    requires 0 <= i < |q|
    ensures q[i..][0] == q[i] && q[i..][1..] == q[i + 1..]
    ensures Threads(Due(q[..i + 1], now))
            == Threads(Due(q[..i], now)) + (if q[i].time < now then [q[i].thread] else [])
    ensures Pending(q[..i + 1], now)
            == Pending(q[..i], now) + (if q[i].time < now then [] else [q[i]])
  {
    assert q[..i + 1] == q[..i] + [q[i]];
    DueAppend(q[..i], [q[i]], now);
    ThreadsAppend(Due(q[..i], now), Due([q[i]], now));
  }

  /** One round of the interrupt loop on the queue `q[i..] + Pending(q[..i])`:
      its head is `q[i]`; readying it leaves the tail, keeping it puts it
      back at the end, and either way the queue and the readied threads are
      those of the next prefix. */
  lemma InterruptStep(q: seq<Sleeper>, i: int, now: int)
    requires 0 <= i < |q|
    ensures (q[i..] + Pending(q[..i], now))[0] == q[i]
    ensures q[i].time < now ==>
              (q[i..] + Pending(q[..i], now))[1..] == q[i + 1..] + Pending(q[..i + 1], now)
              && Threads(Due(q[..i + 1], now)) == Threads(Due(q[..i], now)) + [q[i].thread]
    ensures q[i].time >= now ==>
              (q[i..] + Pending(q[..i], now))[1..] + [q[i]] == q[i + 1..] + Pending(q[..i + 1], now)
              && Threads(Due(q[..i + 1], now)) == Threads(Due(q[..i], now))
  {
    PrefixStep(q, i, now);
    var kept := Pending(q[..i], now);
    assert (q[i..] + kept)[1..] == q[i + 1..] + kept;
    if q[i].time >= now {
      assert (q[i + 1..] + kept) + [q[i]] == q[i + 1..] + (kept + [q[i]]);
    }
  }

  /** A wait whose end passes `Long.MAX_VALUE` wraps to a negative wake
      time, so the sleeper `waitUntil` appends is readied by the first
      interrupt after the call, however long the wait asked for. */
  lemma OverlongWaitIsDue(q: seq<Sleeper>, t: ThreadId, now: int, x: int, later: int)
    requires IsInt64(now) && IsInt64(x) && now + x > Int64Max
    requires 0 <= now <= later
    ensures Wrap64(now + x) < 0
    ensures Sleeper(t, Wrap64(now + x)) in Due(q + [Sleeper(t, Wrap64(now + x))], later)
  {
    var s := Sleeper(t, Wrap64(now + x));
    assert Wrap64(now + x) == now + x - TwoTo64;
    PartitionMembership(q + [s], later, s);
  }

  class Alarm {
    /** `sleepingQueue`, head first. */
    var sleepingQueue: seq<Sleeper>

    constructor ()
      ensures sleepingQueue == []
    {
      sleepingQueue := [];
    }

    /** `waitUntil(x)` called at time `now` by the current thread (`None`
        when there is none): appends one sleeper whose wake time is the
        `long` sum `now + x`, which wraps around past `Long.MAX_VALUE`. */
    method WaitUntil(now: int, x: int, current: Option<ThreadId>)
      modifies this
      ensures current.Some? ==> sleepingQueue == old(sleepingQueue) + [Sleeper(current.value, Wrap64(now + x))]
      ensures current.None? ==> sleepingQueue == old(sleepingQueue)
    {
      var wakeTime := Wrap64(now + x);
      if current.Some? {
        var newEntry := Sleeper(current.value, wakeTime);
        sleepingQueue := sleepingQueue + [newEntry];
      }
    }

    /** `timerInterrupt` at time `currentTime`: removes the head `len`
        times, where `len` is the queue's length on entry, readying each
        sleeper that is due and re-adding the others at the tail. */
    method TimerInterrupt(currentTime: int) returns (readied: seq<ThreadId>)
      modifies this
      ensures readied == Threads(Due(old(sleepingQueue), currentTime))
      ensures sleepingQueue == Pending(old(sleepingQueue), currentTime)
    {
      ghost var q0 := sleepingQueue;
      readied := [];
      var len := |sleepingQueue|;
      var i := 0;
      while i < len
        invariant 0 <= i <= len == |q0|
        invariant sleepingQueue == q0[i..] + Pending(q0[..i], currentTime)
        invariant readied == Threads(Due(q0[..i], currentTime))
      {
        InterruptStep(q0, i, currentTime);
        var p := sleepingQueue[0];
        sleepingQueue := sleepingQueue[1..];
        if p.time < currentTime {
          readied := readied + [p.thread];
        } else {
          sleepingQueue := sleepingQueue + [p];
        }
        i := i + 1;
      }
      assert q0[..len] == q0;
    }
  }
}
