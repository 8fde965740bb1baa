/**
 End-to-end properties that cross the client/server boundary: what a client
 sends is what the server's ingestion acts on, and what the broadcaster queues
 is what lands in a client's snapshot buffer.
 */
module Sync {

  import opened Wrappers
  import opened Protocol
  import Server
  import Ingest
  import Broadcast
  import Client
  import Physics

  /**
   An intent queued by `send_intent`, once it reaches the server from the
   client's address `from` and names a current player, sets exactly that player's
   velocity to the intent's normalised velocity and binds its address to `from`.
   */
  lemma InputRoundTrip(c: Client.State, intent: Intent, clock: real, from: Addr,
                       ps: seq<Server.Player>, stamp: real, root2: real)
    requires Ingest.IsRoot2(root2)
    requires Server.FindPlayer(ps, c.pid).Some?
    ensures var sent := Client.SendIntent(c, intent, clock).toSend[|c.toSend|].payload;
      var i := Server.FindPlayer(ps, c.pid).value;
      var r := Ingest.Handle(ps, Datagram(sent.payload, from), stamp, root2);
      && (r[i].vx, r[i].vy) == Ingest.Velocity(intent, root2)
      && r[i].addr == Some(from)
      && forall j :: 0 <= j < |ps| && j != i ==> r[j] == ps[j]
  {
  }

  /**
   Every envelope a broadcast cycle queues, once delivered into a client's
   buffer, makes the snapshot of that cycle the buffer's newest entry.
   */
  lemma SnapshotRoundTrip(s: Server.State, captureTime: real, clock: real, k: nat, buf: seq<Snapshot>)
    requires |s.outbound| <= k < |Broadcast.Cycle(s, captureTime, clock).outbound|
    requires |buf| <= Client.MAX_SNAPSHOTS
    ensures var d := Broadcast.Cycle(s, captureTime, clock).outbound[k].payload;
      var r := Client.PushAll(buf, [d.payload]);
      |r| > 0 && r[|r| - 1] == Broadcast.Capture(s, captureTime)
  {
    var snap := Broadcast.Capture(s, captureTime);
    var d := Broadcast.Cycle(s, captureTime, clock).outbound[k].payload;
    assert d.payload == Some(SnapshotMsg(snap));
    DeliverOne(buf, snap);
  }

  /** Delivering a single decoded snapshot makes it the buffer's newest entry. */
  lemma DeliverOne(buf: seq<Snapshot>, snap: Snapshot)
    requires |buf| <= Client.MAX_SNAPSHOTS
    ensures var r := Client.PushAll(buf, [Some(SnapshotMsg(snap))]);
      |r| > 0 && r[|r| - 1] == snap
  {
    assert Client.SnapshotsIn([Some(SnapshotMsg(snap))]) == [snap];
    var all := buf + [snap];
    var r := Client.PushAll(buf, [Some(SnapshotMsg(snap))]);
    assert r == Client.LastN(all, Client.MAX_SNAPSHOTS);
    assert r[|r| - 1] == all[|all| - 1];
  }

  /**
   Holding only "left" at 200 px/s for half a second moves a player 100 px to
   the left, stopped by the wall if it is nearer.
   */
  lemma LeftForHalfASecond(p: Server.Player, from: Addr, stamp: real, root2: real)
    requires Ingest.IsRoot2(root2)
    ensures var q := Ingest.ApplyInput(p, Intent(true, false, false, false), from, stamp, root2);
      var moved := Physics.MovePlayer(q, 0.5);
      && moved.x == Physics.Clamp(p.x - 100.0, Server.WALL_MARGIN, Server.WORLD_W - Server.WALL_MARGIN)
      && moved.y == Physics.Clamp(p.y, Server.WALL_MARGIN, Server.WORLD_H - Server.WALL_MARGIN)
  {
  }

}
