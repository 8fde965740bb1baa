/**
 How old a snapshot is by the time the client can render it. The client talks
 to a server on the same host, so both sides read the same clock and their
 times compare directly. A snapshot is stamped before its envelope's send time,
 which lies one SERVER_LATENCY later; the envelope leaves no earlier than that,
 and the client processes it one CLIENT_LATENCY after it arrives. An
 interpolation delay shorter than that transit puts the render time after every
 buffered snapshot, so no pair ever brackets it and the interpolator never
 blends.
 */
module Timing {

  import opened Wrappers
  import opened Protocol
  import Server
  import Broadcast
  import Client
  import opened Interpolation

  /** The least age of a snapshot once the client processes it: both simulated latencies. */
  const TRANSIT: real := Server.SERVER_LATENCY + Client.CLIENT_LATENCY

  /** Every buffered snapshot was stamped at least `age` before `now`. */
  ghost predicate AgedAtLeast(snaps: seq<Snapshot>, now: real, age: real) {
    forall i :: 0 <= i < |snaps| ==> snaps[i].time <= now - age
  }

  /**
   The snapshot carried by a broadcast envelope is at least TRANSIT old when the
   client processes it: it was stamped no later than the broadcast's clock
   reading, the envelope is sent only once due, and the client's copy is
   processed only once its own latency has passed.
   */
  lemma SnapshotAge(s: Server.State, captureTime: real, clock: real, k: nat,
                    sendNow: real, recvClock: real, pumpNow: real)
    requires captureTime <= clock
    requires |s.outbound| <= k < |Broadcast.Cycle(s, captureTime, clock).outbound|
    requires Broadcast.Cycle(s, captureTime, clock).outbound[k].time <= sendNow
    requires sendNow <= recvClock
    requires recvClock + Client.CLIENT_LATENCY <= pumpNow
    ensures var p := Broadcast.Cycle(s, captureTime, clock).outbound[k].payload.payload;
      && p.Some? && p.value.SnapshotMsg?
      && p.value.snapshot.time <= pumpNow - TRANSIT
  {
    var e := Broadcast.Cycle(s, captureTime, clock).outbound[k];
    assert e.time == clock + Server.SERVER_LATENCY;
    assert e.payload.payload == Some(SnapshotMsg(Broadcast.Capture(s, captureTime)));
  }

  /** No pair of an aged buffer brackets a render time later than `now - TRANSIT`. */
  lemma NeverBracketed(snaps: seq<Snapshot>, now: real, t: real)
    requires AgedAtLeast(snaps, now, TRANSIT)
    requires now - TRANSIT < t
    ensures forall j :: !Brackets(snaps, j, t)
  {
    forall j
      ensures !Brackets(snaps, j, t)
    {
      if 0 <= j && j + 1 < |snaps| {
        assert snaps[j + 1].time <= now - TRANSIT;
      }
    }
  }

  /**
   As written: at INTERPOLATION_DELAY = 0.1 against a transit of 0.2, every
   buffer the client can hold is rendered as its newest snapshot verbatim; the
   blend is never reached.
   */
  lemma NeverBlends(snaps: seq<Snapshot>, now: real)
    requires |snaps| > 0
    requires AgedAtLeast(snaps, now, TRANSIT)
    ensures FindBracket(snaps, RenderTime(now)).None?
    ensures Interpolate(snaps, now) == RenderState(snaps[|snaps| - 1].players, snaps[|snaps| - 1].coins)
  {
    NeverBracketed(snaps, now, RenderTime(now));
  }

  /**
   The interpolator rendering `delay` in the past can reach its blend on some
   buffer the client can actually hold exactly when the delay covers the
   transit.
   */
  lemma BlendReachable(delay: real)
    ensures (exists snaps: seq<Snapshot>, now: real ::
               AgedAtLeast(snaps, now, TRANSIT) && FindBracket(snaps, now - delay).Some?)
            <==> delay >= TRANSIT
  {
    if delay >= TRANSIT {
      var snaps := [Snapshot(-delay, map[], []), Snapshot(-TRANSIT, map[], [])];
      assert AgedAtLeast(snaps, 0.0, TRANSIT);
      assert Brackets(snaps, 0, 0.0 - delay);
      assert FindBracket(snaps, 0.0 - delay).Some?;
    } else {
      forall snaps: seq<Snapshot>, now: real | AgedAtLeast(snaps, now, TRANSIT)
        ensures FindBracket(snaps, now - delay).None?
      {
        NeverBracketed(snaps, now, now - delay);
      }
    }
  }

  /**
   With a delay beyond the transit the blend is visible: some buffer the client
   can hold is rendered as something other than its newest snapshot.
   */
  lemma CoveredDelayBlends(delay: real)
    requires delay > TRANSIT
    ensures exists snaps: seq<Snapshot>, now: real ::
      && AgedAtLeast(snaps, now, TRANSIT)
      && |snaps| > 0
      && RenderAt(snaps, now - delay) != RenderState(snaps[|snaps| - 1].players, snaps[|snaps| - 1].coins)
  {
    var s0 := Snapshot(-delay, map[1 := PlayerView(0.0, 0.0, 0)], []);
    var s1 := Snapshot(-TRANSIT, map[1 := PlayerView(10.0, 0.0, 0)], []);
    var snaps := [s0, s1];
    assert AgedAtLeast(snaps, 0.0, TRANSIT);
    assert FirstBracket(snaps, 0, 0.0 - delay);
    var a := Alpha(s0.time, s1.time, 0.0 - delay);
    assert a * (s1.time - s0.time) == 0.0;
    var r := RenderAt(snaps, 0.0 - delay);
    assert r.players[1].x == 0.0;
  }

}
