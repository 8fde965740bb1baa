/**
 The client's network side: outgoing inputs and incoming snapshots each pass
 through a latency queue, and delivered snapshots go into a bounded buffer that
 drops its oldest entry when full.
 */
module Client {

  import opened Wrappers
  import opened Protocol
  import LatencyQueue

  /** Simulated one-way delay applied to outgoing inputs and incoming datagrams. */
  const CLIENT_LATENCY: real := 0.1
  /** Capacity of the snapshot buffer. */
  const MAX_SNAPSHOTS: nat := 200

  /**
   `pid` and `server` are what the handshake handed out; `toSend` holds datagrams
   addressed to the server, `inbound` the decode results of received datagrams.
   */
  datatype State = State(
    pid: int,
    server: Addr,
    toSend: LatencyQueue.Queue<Datagram>,
    inbound: LatencyQueue.Queue<Payload>,
    snapshots: seq<Snapshot>)

  /** The last `n` elements of `xs` (all of them when there are fewer). */
  function LastN(xs: seq<Snapshot>, n: nat): (r: seq<Snapshot>)
    ensures |r| == if |xs| <= n then |xs| else n
    ensures r == xs[|xs| - |r|..]
  {
    if |xs| <= n then xs else xs[|xs| - n..]
  }

  /** Dropping a prefix that leaves at least `n` elements keeps the newest `n`. */
  lemma LastNOfSuffix(b: seq<Snapshot>, k: nat, n: nat)
    requires k + n <= |b|
    ensures LastN(b[k..], n) == LastN(b, n)
  {
    var a := b[k..];
    assert a[|a| - n..] == b[|b| - n..];
  }

  /** Trimming to the newest `n` before appending more changes nothing once trimmed again. */
  lemma LastNAppend(xs: seq<Snapshot>, ys: seq<Snapshot>, n: nat)
    ensures LastN(LastN(xs, n) + ys, n) == LastN(xs + ys, n)
  {
    if |xs| > n {
      var k := |xs| - n;
      assert LastN(xs, n) + ys == (xs + ys)[k..];
      LastNOfSuffix(xs + ys, k, n);
    }
  }

  /** Appends to the buffer, first evicting the oldest entry when it is full. */
  function Push(buf: seq<Snapshot>, snap: Snapshot): (r: seq<Snapshot>)
    requires |buf| <= MAX_SNAPSHOTS
    ensures |r| <= MAX_SNAPSHOTS
    ensures |r| > 0 && r[|r| - 1] == snap
    ensures r == LastN(buf + [snap], MAX_SNAPSHOTS)
  {
    if |buf| < MAX_SNAPSHOTS then buf + [snap] else buf[1..] + [snap]
  }

  predicate IsSnapshot(p: Payload) {
    p.Some? && p.value.SnapshotMsg?
  }

  /**
   The snapshots among some decode results, in order (see SnapshotsInAppend for
   the order and SnapshotsInCount for the multiplicities).
   */
  function SnapshotsIn(ps: seq<Payload>): (r: seq<Snapshot>)
    ensures |r| <= |ps|
  {
    if |ps| == 0 then []
    else
      assert ps == [ps[0]] + ps[1..];
      (if IsSnapshot(ps[0]) then [ps[0].value.snapshot] else []) + SnapshotsIn(ps[1..])
  }

  /** The head's contribution comes first. */
  lemma SnapshotsInCons(p: Payload, ps: seq<Payload>)
    ensures SnapshotsIn([p] + ps) == (if IsSnapshot(p) then [p.value.snapshot] else []) + SnapshotsIn(ps)
  {
    assert ([p] + ps)[0] == p;
    assert ([p] + ps)[1..] == ps;
  }

  /** Selecting snapshots distributes over concatenation, so they stay in receipt order. */
  lemma {:induction false} SnapshotsInAppend(ps: seq<Payload>, qs: seq<Payload>)
    ensures SnapshotsIn(ps + qs) == SnapshotsIn(ps) + SnapshotsIn(qs)
  {
    if |ps| > 0 {
      var p, rest := ps[0], ps[1..];
      var h := if IsSnapshot(p) then [p.value.snapshot] else [];
      assert ps == [p] + rest;
      assert ps + qs == [p] + (rest + qs);
      SnapshotsInCons(p, rest);
      SnapshotsInCons(p, rest + qs);
      SnapshotsInAppend(rest, qs);
      assert h + (SnapshotsIn(rest) + SnapshotsIn(qs)) == (h + SnapshotsIn(rest)) + SnapshotsIn(qs);
    } else {
      assert ps + qs == qs;
    }
  }

  /** Each snapshot is kept exactly as many times as a decoded "snapshot" message carried it. */
  lemma {:induction false} SnapshotsInCount(ps: seq<Payload>, snap: Snapshot)
    ensures multiset(SnapshotsIn(ps))[snap] == multiset(ps)[Some(SnapshotMsg(snap))]
  {
    if |ps| > 0 {
      var p, rest := ps[0], ps[1..];
      assert ps == [p] + rest;
      SnapshotsInCons(p, rest);
      SnapshotsInCount(rest, snap);
    }
  }

  lemma {:induction false} NoSnapshotsIn(ps: seq<Payload>)
    requires forall i :: 0 <= i < |ps| ==> !IsSnapshot(ps[i])
    ensures SnapshotsIn(ps) == []
  {
    if |ps| > 0 {
      NoSnapshotsIn(ps[1..]);
    }
  }

  lemma PushStep(buf: seq<Snapshot>, ps: seq<Payload>)
    requires |buf| <= MAX_SNAPSHOTS
    requires |ps| > 0 && IsSnapshot(ps[0])
    ensures LastN(Push(buf, ps[0].value.snapshot) + SnapshotsIn(ps[1..]), MAX_SNAPSHOTS)
            == LastN(buf + SnapshotsIn(ps), MAX_SNAPSHOTS)
  {
    var snap := ps[0].value.snapshot;
    var tail := SnapshotsIn(ps[1..]);
    assert buf + ([snap] + tail) == (buf + [snap]) + tail;
    assert SnapshotsIn(ps) == [snap] + tail;
    LastNAppend(buf + [snap], tail, MAX_SNAPSHOTS);
  }

  lemma SkipStep(buf: seq<Snapshot>, ps: seq<Payload>)
    requires |buf| <= MAX_SNAPSHOTS
    requires |ps| > 0 && !IsSnapshot(ps[0])
    ensures LastN(buf + SnapshotsIn(ps[1..]), MAX_SNAPSHOTS) == LastN(buf + SnapshotsIn(ps), MAX_SNAPSHOTS)
  {
    assert SnapshotsIn(ps) == SnapshotsIn(ps[1..]);
  }

  /**
   Feeds delivered datagrams to the buffer in order: only decoded snapshots are
   kept, and the buffer ends up holding the most recent ones, at most its capacity.
   */
  function PushAll(buf: seq<Snapshot>, ps: seq<Payload>): (r: seq<Snapshot>)
    requires |buf| <= MAX_SNAPSHOTS
    ensures |r| <= MAX_SNAPSHOTS
    ensures r == LastN(buf + SnapshotsIn(ps), MAX_SNAPSHOTS)
    decreases |ps|
  {
    if |ps| == 0 then
      assert buf + SnapshotsIn(ps) == buf;
      buf
    else if IsSnapshot(ps[0]) then
      PushStep(buf, ps);
      PushAll(Push(buf, ps[0].value.snapshot), ps[1..])
    else
      SkipStep(buf, ps);
      PushAll(buf, ps[1..])
  }

  /** `send_intent`: queue one input datagram to the server, deliverable one latency later. */
  function SendIntent(c: State, intent: Intent, clock: real): (r: State)
    ensures |r.toSend| == |c.toSend| + 1
    ensures r.toSend[..|c.toSend|] == c.toSend
    ensures r.toSend[|c.toSend|].time == clock + CLIENT_LATENCY
    ensures r.toSend[|c.toSend|].payload == Datagram(Some(Input(Some(c.pid), intent)), c.server)
    ensures r == c.(toSend := r.toSend)
  {
    c.(toSend := LatencyQueue.Enqueue(c.toSend, clock + CLIENT_LATENCY, Datagram(Some(Input(Some(c.pid), intent)), c.server)))
  }

  /** The send loop's pass: every due datagram leaves the queue, in FIFO order, and is sent. */
  function FlushSends(c: State, now: real): (r: (seq<Datagram>, State))
    ensures |r.0| + |r.1.toSend| == |c.toSend|
    ensures forall i :: 0 <= i < |r.0| ==> c.toSend[i].payload == r.0[i] && c.toSend[i].time <= now
    ensures r.1.toSend == c.toSend[|r.0|..]
    ensures LatencyQueue.HeadNotDue(r.1.toSend, now)
    ensures r.1 == c.(toSend := r.1.toSend)
  {
    var (due, rest) := LatencyQueue.Drain(c.toSend, now);
    assert c.toSend[|due|..] == rest;
    assert forall i :: 0 <= i < |due| ==> c.toSend[i] == due[i];
    (LatencyQueue.Payloads(due), c.(toSend := rest))
  }

  /** A datagram arrives: it becomes processable one latency later. */
  function Receive(c: State, payload: Payload, clock: real): (r: State)
    ensures |r.inbound| == |c.inbound| + 1
    ensures r.inbound[..|c.inbound|] == c.inbound
    ensures r.inbound[|c.inbound|] == LatencyQueue.Entry(clock + CLIENT_LATENCY, payload)
    ensures r == c.(inbound := r.inbound)
  {
    c.(inbound := LatencyQueue.Enqueue(c.inbound, clock + CLIENT_LATENCY, payload))
  }

  /**
   The receive loop's processing pass: the due prefix of the inbound queue is
   removed and its snapshots, and nothing else, are appended to the buffer.
   */
  function Pump(c: State, now: real): (r: State)
    requires |c.snapshots| <= MAX_SNAPSHOTS
    ensures |r.inbound| <= |c.inbound| && r.inbound == c.inbound[|c.inbound| - |r.inbound|..]
    ensures LatencyQueue.AllDue(c.inbound[..|c.inbound| - |r.inbound|], now)
    ensures LatencyQueue.HeadNotDue(r.inbound, now)
    ensures |r.snapshots| <= MAX_SNAPSHOTS
    ensures r.snapshots
            == LastN(c.snapshots + SnapshotsIn(LatencyQueue.Payloads(c.inbound[..|c.inbound| - |r.inbound|])), MAX_SNAPSHOTS)
    ensures r == c.(inbound := r.inbound, snapshots := r.snapshots)
  {
    var (due, rest) := LatencyQueue.Drain(c.inbound, now);
    assert c.inbound[..|due|] == due && c.inbound[|due|..] == rest;
    c.(inbound := rest, snapshots := PushAll(c.snapshots, LatencyQueue.Payloads(due)))
  }

  /** A delivery with no decodable snapshot in it leaves the buffer exactly as it was. */
  lemma PumpWithoutSnapshots(c: State, now: real)
    requires |c.snapshots| <= MAX_SNAPSHOTS
    requires var n := |LatencyQueue.Drain(c.inbound, now).0|;
      forall i :: 0 <= i < n ==> !IsSnapshot(c.inbound[i].payload)
    ensures Pump(c, now).snapshots == c.snapshots
  {
    var (due, rest) := LatencyQueue.Drain(c.inbound, now);
    var ps := LatencyQueue.Payloads(due);
    assert forall i :: 0 <= i < |due| ==> due[i] == c.inbound[i];
    NoSnapshotsIn(ps);
    assert c.snapshots + [] == c.snapshots;
  }

}
