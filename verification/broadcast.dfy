/**
 The snapshot broadcaster: one cycle captures an immutable snapshot of the world
 and queues one outbound delivery of it per player whose address is known.
 */
module Broadcast {

  import opened Wrappers
  import opened Protocol
  import opened Server
  import LatencyQueue

  /** A player's public fields. */
  function View(p: Player): PlayerView {
    PlayerView(p.x, p.y, p.score)
  }

  function PlayerIds(ps: seq<Player>): set<int> {
    set i | 0 <= i < |ps| :: ps[i].id
  }

  lemma PlayerIdsSnoc(ps: seq<Player>)
    requires |ps| > 0
    ensures PlayerIds(ps) == PlayerIds(ps[..|ps| - 1]) + {ps[|ps| - 1].id}
  {
    var init := ps[..|ps| - 1];
    forall x | x in PlayerIds(ps)
      ensures x in PlayerIds(init) + {ps[|ps| - 1].id}
    {
      var i :| 0 <= i < |ps| && ps[i].id == x;
      if i < |init| { assert init[i] == ps[i]; }
    }
    forall x | x in PlayerIds(init)
      ensures x in PlayerIds(ps)
    {
      var i :| 0 <= i < |init| && init[i].id == x;
      assert ps[i] == init[i];
    }
  }

  /** The snapshot's pid -> {x, y, score} object, built in iteration order. */
  function SnapshotPlayers(ps: seq<Player>): (m: map<int, PlayerView>)
    ensures m.Keys == PlayerIds(ps)
    ensures PidsIncreasing(ps) ==> forall i :: 0 <= i < |ps| ==> m[ps[i].id] == View(ps[i])
  {
    if |ps| == 0 then map[]
    else
      var init := ps[..|ps| - 1];
      var last := ps[|ps| - 1];
      PlayerIdsSnoc(ps);
      SnapshotPlayers(init)[last.id := View(last)]
  }

  /** The snapshot taken at `time`: every player's position and score and every coin. */
  function Capture(s: State, time: real): (snap: Snapshot)
    ensures snap.time == time
    ensures snap.coins == s.coins
    ensures snap.players.Keys == PlayerIds(s.players)
    ensures Valid(s) ==> forall i :: 0 <= i < |s.players| ==>
      snap.players[s.players[i].id] == PlayerView(s.players[i].x, s.players[i].y, s.players[i].score)
  {
    Snapshot(time, SnapshotPlayers(s.players), s.coins)
  }

  /**
   The players whose address is known, in iteration order (see AddressedAppend
   for the order, AddressedCount for the multiplicities and AddressedMembers for
   membership).
   */
  function Addressed(ps: seq<Player>): (r: seq<Player>)
    ensures |r| <= |ps|
    ensures forall k :: 0 <= k < |r| ==> r[k].addr.Some?
  {
    if |ps| == 0 then []
    else (if ps[0].addr.Some? then [ps[0]] else []) + Addressed(ps[1..])
  }

  /** The head's contribution comes first. */
  lemma AddressedCons(p: Player, ps: seq<Player>)
    ensures Addressed([p] + ps) == (if p.addr.Some? then [p] else []) + Addressed(ps)
  {
    assert ([p] + ps)[0] == p;
    assert ([p] + ps)[1..] == ps;
  }

  /** Each addressed player occurs as often as in `ps`; a player without an address not at all. */
  lemma {:induction false} AddressedCount(ps: seq<Player>, p: Player)
    ensures multiset(Addressed(ps))[p] == if p.addr.Some? then multiset(ps)[p] else 0
  {
    if |ps| > 0 {
      assert ps == [ps[0]] + ps[1..];
      AddressedCons(ps[0], ps[1..]);
      AddressedCount(ps[1..], p);
    }
  }

  /** A player is a destination exactly when it is a player with a known address. */
  lemma AddressedMembers(ps: seq<Player>)
    ensures forall p :: p in Addressed(ps) <==> p in ps && p.addr.Some?
  {
    forall p
      ensures p in Addressed(ps) <==> p in ps && p.addr.Some?
    {
      AddressedCount(ps, p);
      assert p in Addressed(ps) <==> p in multiset(Addressed(ps));
      assert p in ps <==> p in multiset(ps);
    }
  }

  /** Filtering distributes over concatenation, so the addressed players keep their iteration order. */
  lemma {:induction false} AddressedAppend(ps: seq<Player>, qs: seq<Player>)
    ensures Addressed(ps + qs) == Addressed(ps) + Addressed(qs)
  {
    if |ps| > 0 {
      var p, rest := ps[0], ps[1..];
      var h := if p.addr.Some? then [p] else [];
      assert ps == [p] + rest;
      assert ps + qs == [p] + (rest + qs);
      AddressedCons(p, rest);
      AddressedCons(p, rest + qs);
      AddressedAppend(rest, qs);
      var a, b := Addressed(rest), Addressed(qs);
      assert h + (a + b) == (h + a) + b by {
        assert forall j :: 0 <= j < |h + (a + b)| ==> (h + (a + b))[j] == ((h + a) + b)[j];
      }
    } else {
      assert ps + qs == qs;
    }
  }

  /** With distinct pids every player occurs exactly once in the sequence. */
  lemma {:induction false} OccursOnce(ps: seq<Player>, i: nat)
    requires PidsIncreasing(ps)
    requires i < |ps|
    ensures multiset(ps)[ps[i]] == 1
  {
    assert ps == [ps[0]] + ps[1..];
    if i == 0 {
      assert ps[0] !in ps[1..];
    } else {
      OccursOnce(ps[1..], i - 1);
      assert ps[0] != ps[i];
    }
  }

  /**
   Fan-out: every player with a known address is a destination exactly once
   per cycle, and a player without one is never a destination.
   */
  lemma EachAddressedOnce(s: State, i: nat)
    requires Valid(s)
    requires i < |s.players|
    ensures multiset(Addressed(s.players))[s.players[i]] == if s.players[i].addr.Some? then 1 else 0
  {
    OccursOnce(s.players, i);
    AddressedCount(s.players, s.players[i]);
  }

  /** One envelope per addressed player, all with the same send time and the same snapshot. */
  function Envelopes(ps: seq<Player>, snap: Snapshot, sendTime: real): (r: LatencyQueue.Queue<Datagram>)
    ensures |r| == |Addressed(ps)|
    ensures forall k :: 0 <= k < |r| ==>
      r[k] == LatencyQueue.Entry(sendTime, Datagram(Some(SnapshotMsg(snap)), Addressed(ps)[k].addr.value))
  {
    if |ps| == 0 then []
    else
      var rest := Envelopes(ps[1..], snap, sendTime);
      if ps[0].addr.Some? then
        [LatencyQueue.Entry(sendTime, Datagram(Some(SnapshotMsg(snap)), ps[0].addr.value))] + rest
      else rest
  }

  /**
   One broadcast cycle: snapshot captured at `captureTime`, deliveries due one
   server latency after `clock`. Existing queue entries are left as they were.
   */
  function Cycle(s: State, captureTime: real, clock: real): (r: State)
    ensures |r.outbound| == |s.outbound| + |Addressed(s.players)|
    ensures r.outbound[..|s.outbound|] == s.outbound
    ensures forall k :: |s.outbound| <= k < |r.outbound| ==>
      && r.outbound[k].time == clock + SERVER_LATENCY
      && r.outbound[k].payload.payload == Some(SnapshotMsg(Capture(s, captureTime)))
      && r.outbound[k].payload.addr == Addressed(s.players)[k - |s.outbound|].addr.value
    ensures r == s.(outbound := r.outbound)
  {
    var snap := Capture(s, captureTime);
    s.(outbound := s.outbound + Envelopes(s.players, snap, clock + SERVER_LATENCY))
  }

  /** Every player with a known address is sent the cycle's snapshot. */
  lemma CycleReaches(s: State, i: nat, captureTime: real, clock: real)
    requires i < |s.players| && s.players[i].addr.Some?
    ensures exists k :: |s.outbound| <= k < |Cycle(s, captureTime, clock).outbound|
                        && Cycle(s, captureTime, clock).outbound[k].payload.addr == s.players[i].addr.value
  {
    var p := s.players[i];
    var addressed := Addressed(s.players);
    AddressedMembers(s.players);
    assert p in addressed;
    var k :| 0 <= k < |addressed| && addressed[k] == p;
    var c := Cycle(s, captureTime, clock);
    assert c.outbound[|s.outbound| + k].payload.addr == p.addr.value;
  }

  /** Two players, only one of whom has sent an input: exactly one envelope is queued, to that one. */
  lemma OneAddressedOneEnvelope(s: State, a: Addr, captureTime: real, clock: real)
    requires |s.players| == 2
    requires s.players[0].addr == Some(a) && s.players[1].addr.None?
    ensures |Cycle(s, captureTime, clock).outbound| == |s.outbound| + 1
    ensures Cycle(s, captureTime, clock).outbound[|s.outbound|].payload.addr == a
  {
    assert Addressed(s.players[1..][1..]) == [];
    assert Addressed(s.players) == [s.players[0]];
  }

}
