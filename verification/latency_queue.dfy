/**
 A latency-simulation queue: a FIFO of envelopes, each carrying the time at which
 it becomes eligible for delivery. Producers append at the tail; a drain pops from
 the head for as long as the head is due. The server uses one for inbound inputs
 and one for outbound snapshots, the client one for outgoing inputs and one for
 incoming snapshots.
 */
module LatencyQueue {

  datatype Entry<T> = Entry(time: real, payload: T)

  type Queue<T> = seq<Entry<T>>

  /** Eligible times are non-decreasing from head to tail. */
  ghost predicate Sorted<T>(q: Queue<T>) {
    forall i, j :: 0 <= i <= j < |q| ==> q[i].time <= q[j].time
  }

  /** Every entry of `es` is due at `now`. */
  ghost predicate AllDue<T>(es: seq<Entry<T>>, now: real) {
    forall i :: 0 <= i < |es| ==> es[i].time <= now
  }

  /** The head of `q`, if any, is not yet due at `now`. */
  ghost predicate HeadNotDue<T>(q: Queue<T>, now: real) {
    |q| > 0 ==> q[0].time > now
  }

  /** Appends one envelope at the tail (`deque.append`). */
  function Enqueue<T>(q: Queue<T>, time: real, payload: T): (r: Queue<T>)
    ensures |r| == |q| + 1
    ensures r[..|q|] == q
    ensures r[|q|].time == time && r[|q|].payload == payload
  {
    q + [Entry(time, payload)]
  }

  /** Length of the longest prefix of `q` whose entries are all due at `now`. */
  function DueCount<T>(q: Queue<T>, now: real): (n: nat)
    ensures n <= |q|
    ensures AllDue(q[..n], now)
    ensures n < |q| ==> q[n].time > now
  {
    if |q| == 0 || q[0].time > now then 0
    else
      var k := DueCount(q[1..], now);
      assert q[..k + 1] == [q[0]] + q[1..][..k];
      1 + k
  }

  /** Any due prefix whose successor is not due has the length `DueCount` computes. */
  lemma {:induction false} DueCountUnique<T>(q: Queue<T>, now: real, n: nat)
    requires n <= |q|
    requires AllDue(q[..n], now)
    requires n < |q| ==> q[n].time > now
    ensures n == DueCount(q, now)
  {
    if n > 0 {
      assert q[0] == q[..n][0];
      assert q[1..][..n - 1] == q[1..n];
      DueCountUnique(q[1..], now, n - 1);
    }
  }

  /**
   Splits `q` into the envelopes delivered at `now` and the queue left behind:
   the due prefix is delivered in FIFO order and the remainder is untouched.
   */
  function Drain<T>(q: Queue<T>, now: real): (r: (seq<Entry<T>>, Queue<T>))
    ensures r.0 + r.1 == q
    ensures AllDue(r.0, now)
    ensures HeadNotDue(r.1, now)
  {
    var n := DueCount(q, now);
    assert q[..n] + q[n..] == q;
    (q[..n], q[n..])
  }

  /** The three properties of `Drain` pin its result down: it is THE longest due prefix. */
  lemma DrainUnique<T>(q: Queue<T>, now: real, due: seq<Entry<T>>, rest: Queue<T>)
    requires due + rest == q
    requires AllDue(due, now)
    requires HeadNotDue(rest, now)
    ensures (due, rest) == Drain(q, now)
  {
    var (d, r) := Drain(q, now);
    assert due == q[..|due|];
    if |rest| > 0 {
      assert q[|due|] == rest[0];
    }
    DueCountUnique(q, now, |due|);
    assert due == q[..|due|] == d;
    assert rest == q[|due|..] == r;
  }

  /** The while-loop form of a drain: pop the head while it is due. */
  method DrainLoop<T>(q: Queue<T>, now: real) returns (due: seq<Entry<T>>, rest: Queue<T>)
    ensures due + rest == q
    ensures AllDue(due, now)
    ensures HeadNotDue(rest, now)
    ensures (due, rest) == Drain(q, now)
  {
    due := [];
    rest := q;
    while |rest| > 0 && rest[0].time <= now
      invariant due + rest == q
      invariant AllDue(due, now)
      decreases |rest|
    {
      due := due + [rest[0]];
      rest := rest[1..];
    }
    DrainUnique(q, now, due, rest);
  }

  /**
   On a sorted queue a drain leaves nothing due behind: an entry is delivered
   exactly when its eligible time has passed.
   */
  lemma DrainSortedDeliversAllDue<T>(q: Queue<T>, now: real)
    requires Sorted(q)
    ensures forall i :: 0 <= i < |q| ==> (i < |Drain(q, now).0| <==> q[i].time <= now)
    ensures Sorted(Drain(q, now).1)
  {
    var (d, r) := Drain(q, now);
    forall i | 0 <= i < |q|
      ensures i < |d| <==> q[i].time <= now
    {
      if i < |d| {
        assert q[i] == d[i];
      } else {
        assert q[|d|] == r[0];
        assert q[|d|].time <= q[i].time;
      }
    }
    forall i, j | 0 <= i <= j < |r|
      ensures r[i].time <= r[j].time
    {
      assert r[i] == q[|d| + i] && r[j] == q[|d| + j];
    }
  }

  /** Appending at an eligible time no earlier than the tail keeps the queue sorted. */
  lemma EnqueueKeepsSorted<T>(q: Queue<T>, time: real, payload: T)
    requires Sorted(q)
    requires |q| > 0 ==> q[|q| - 1].time <= time
    ensures Sorted(Enqueue(q, time, payload))
  {
    var r := Enqueue(q, time, payload);
    forall i, j | 0 <= i <= j < |r|
      ensures r[i].time <= r[j].time
    {
      if j < |q| {
        assert r[i] == q[i] && r[j] == q[j];
      } else if i < |q| {
        assert r[i] == q[i] && r[j].time == time;
        assert q[i].time <= q[|q| - 1].time;
      }
    }
  }

  /** The payloads of a run of envelopes, in order. */
  function Payloads<T>(es: seq<Entry<T>>): (r: seq<T>)
    ensures |r| == |es|
    ensures forall i :: 0 <= i < |es| ==> r[i] == es[i].payload
  {
    seq(|es|, i requires 0 <= i < |es| => es[i].payload)
  }

}
