/**
 The end of a connection handler. After the lobby the handler sits in a
 keep-alive loop and deletes its player when the loop ends. As written the loop
 waits on the server's running flag alone and never looks at the connection,
 so a client that goes away keeps its player, and keeps being sent snapshots,
 until the whole server stops. KeepAliveAsWritten models that loop as it is;
 KeepAlive is the evidently intended one, which also ends when the client
 disconnects.
 */
module Session {

  import opened Server
  import Protocol
  import Ingest
  import Physics
  import Broadcast

  /** What the handler could observe at one wake-up of its keep-alive loop. */
  datatype Wakeup = Wakeup(running: bool, clientGone: bool)

  /**
   The keep-alive loop as written: while the server runs it goes back to sleep,
   whether or not the client is still there; once the server stops, the player
   is deleted.
   */
  function KeepAliveAsWritten(s: State, pid: int, w: Wakeup): (r: State)
    ensures w.running ==> r == s
    ensures !w.running && Valid(s) ==> FindPlayer(r.players, pid).None? && Valid(r)
  {
    if w.running then s else Disconnect(s, pid)
  }

  /**
   A client that has left while the server runs is still a player after the
   handler's wake-up, and the next broadcast still queues a snapshot to its
   address.
   */
  lemma DepartedClientStillServed(s: State, i: nat, captureTime: real, clock: real)
    requires Valid(s)
    requires i < |s.players| && s.players[i].addr.Some?
    ensures var r := KeepAliveAsWritten(s, s.players[i].id, Wakeup(true, true));
      && FindPlayer(r.players, s.players[i].id).Some?
      && exists k :: |r.outbound| <= k < |Broadcast.Cycle(r, captureTime, clock).outbound|
                     && Broadcast.Cycle(r, captureTime, clock).outbound[k].payload.addr == s.players[i].addr.value
  {
    var r := KeepAliveAsWritten(s, s.players[i].id, Wakeup(true, true));
    assert r == s;
    assert FindPlayer(r.players, s.players[i].id).Some?;
    Broadcast.CycleReaches(r, i, captureTime, clock);
  }

  /**
   The keep-alive loop as intended: it ends, and the player is deleted, when
   either the server stops or the client disconnects.
   */
  function KeepAlive(s: State, pid: int, w: Wakeup): (r: State)
    ensures w.running && !w.clientGone ==> r == s
    ensures Valid(s) ==> Valid(r)
    ensures (w.clientGone || !w.running) && Valid(s) ==> FindPlayer(r.players, pid).None?
    ensures forall i :: 0 <= i < |s.players| && s.players[i].id != pid ==> s.players[i] in r.players
  {
    if w.running && !w.clientGone then s else Disconnect(s, pid)
  }

  /**
   Once its client has disconnected, a player is neither in the next snapshot
   nor a destination of it.
   */
  lemma DepartedClientNotServed(s: State, pid: int, w: Wakeup, captureTime: real)
    requires Valid(s)
    requires w.clientGone
    ensures var r := KeepAlive(s, pid, w);
      && pid !in Broadcast.Capture(r, captureTime).players
      && forall p :: p in Broadcast.Addressed(r.players) ==> p.id != pid
  {
    var r := KeepAlive(s, pid, w);
    Unserved(r, pid, captureTime);
  }

  /** A world without the pid neither captures it in a snapshot nor addresses it. */
  lemma Unserved(s: State, pid: int, captureTime: real)
    requires FindPlayer(s.players, pid).None?
    ensures pid !in Broadcast.Capture(s, captureTime).players
    ensures forall p :: p in Broadcast.Addressed(s.players) ==> p.id != pid
  {
    assert pid !in Broadcast.PlayerIds(s.players);
    Broadcast.AddressedMembers(s.players);
    forall p | p in Broadcast.Addressed(s.players)
      ensures p.id != pid
    {
      var j :| 0 <= j < |s.players| && s.players[j] == p;
    }
  }

  /**
   The work of the server's other threads that can follow a handler's clean-up,
   one locked block per step: another handshake, a datagram arrival, an ingest
   pass, a physics tick, a broadcast, an outbound send pass, or another
   handler's clean-up.
   */
  datatype Step =
    | Join(spawnX: real, spawnY: real)
    | Arrive(d: Protocol.Datagram, clock: real)
    | IngestPass(now: real)
    | TickPass(dt: real, cx: real, cy: real)
    | BroadcastPass(captureTime: real, clock: real)
    | SendPass(now: real)
    | Leave(other: int)

  /** Drawn spawn positions lie in the ranges the source draws them from. */
  predicate StepOk(st: Step) {
    match st
    case Join(x, y) =>
      && PLAYER_SPAWN_MARGIN <= x <= WORLD_W - PLAYER_SPAWN_MARGIN
      && PLAYER_SPAWN_MARGIN <= y <= WORLD_H - PLAYER_SPAWN_MARGIN
    case TickPass(_, cx, cy) =>
      && COIN_SPAWN_MARGIN <= cx <= WORLD_W - COIN_SPAWN_MARGIN
      && COIN_SPAWN_MARGIN <= cy <= WORLD_H - COIN_SPAWN_MARGIN
    case _ => true
  }

  function Apply(s: State, st: Step, root2: real): State
    requires StepOk(st) && Ingest.IsRoot2(root2)
  {
    match st
    case Join(x, y) => Connect(s, x, y).0
    case Arrive(d, clock) => Receive(s, d, clock)
    case IngestPass(now) => Ingest.Ingest(s, now, root2)
    case TickPass(dt, cx, cy) => Physics.Tick(s, dt, cx, cy)
    case BroadcastPass(captureTime, clock) => Broadcast.Cycle(s, captureTime, clock)
    case SendPass(now) => Flush(s, now).1
    case Leave(other) => Disconnect(s, other)
  }

  function Run(s: State, steps: seq<Step>, root2: real): State
    requires forall k :: 0 <= k < |steps| ==> StepOk(steps[k])
    requires Ingest.IsRoot2(root2)
    decreases |steps|
  {
    if |steps| == 0 then s else Run(Apply(s, steps[0], root2), steps[1..], root2)
  }

  /**
   No step brings back a pid that was handed out earlier and has since been
   deleted.
   */
  lemma StepKeepsGone(s: State, st: Step, root2: real, pid: int)
    requires Valid(s) && StepOk(st) && Ingest.IsRoot2(root2)
    requires pid < s.nextPid && FindPlayer(s.players, pid).None?
    ensures var r := Apply(s, st, root2);
      Valid(r) && pid < r.nextPid && FindPlayer(r.players, pid).None?
  {
    match st
    case Join(x, y) => JoinKeepsGone(s, x, y, pid);
    case Arrive(d, clock) => QueuesOnly(s, Receive(s, d, clock));
    case IngestPass(now) => IngestKeepsGone(s, now, root2, pid);
    case TickPass(dt, cx, cy) => TickKeepsGone(s, dt, cx, cy, pid);
    case BroadcastPass(captureTime, clock) => QueuesOnly(s, Broadcast.Cycle(s, captureTime, clock));
    case SendPass(now) => QueuesOnly(s, Flush(s, now).1);
    case Leave(other) => LeaveKeepsGone(s, other, pid);
  }

  /** A step that only touches the queues leaves the world as it was. */
  lemma QueuesOnly(s: State, r: State)
    requires Valid(s)
    requires r == s.(inbound := r.inbound, outbound := r.outbound)
    ensures Valid(r) && r.players == s.players && r.nextPid == s.nextPid
  {
  }

  lemma JoinKeepsGone(s: State, x: real, y: real, pid: int)
    requires Valid(s) && StepOk(Join(x, y))
    requires pid < s.nextPid && FindPlayer(s.players, pid).None?
    ensures var r := Connect(s, x, y).0;
      Valid(r) && pid < r.nextPid && FindPlayer(r.players, pid).None?
  {
    var r := Connect(s, x, y).0;
    forall i | 0 <= i < |r.players|
      ensures r.players[i].id != pid
    {
      if i < |s.players| {
        assert r.players[i] == r.players[..|s.players|][i];
      }
    }
  }

  lemma IngestKeepsGone(s: State, now: real, root2: real, pid: int)
    requires Valid(s) && Ingest.IsRoot2(root2)
    requires pid < s.nextPid && FindPlayer(s.players, pid).None?
    ensures var r := Ingest.Ingest(s, now, root2);
      Valid(r) && pid < r.nextPid && FindPlayer(r.players, pid).None?
  {
    var r := Ingest.Ingest(s, now, root2);
    Ingest.FindPlayerSameIds(s.players, r.players, pid);
  }

  lemma TickKeepsGone(s: State, dt: real, cx: real, cy: real, pid: int)
    requires Valid(s) && StepOk(TickPass(dt, cx, cy))
    requires pid < s.nextPid && FindPlayer(s.players, pid).None?
    ensures var r := Physics.Tick(s, dt, cx, cy);
      Valid(r) && pid < r.nextPid && FindPlayer(r.players, pid).None?
  {
    var r := Physics.Tick(s, dt, cx, cy);
    Physics.TickValid(s, dt, cx, cy);
    forall i | 0 <= i < |r.players|
      ensures r.players[i].id != pid
    {
      assert r.players[i].id == Physics.MovePlayer(s.players[i], dt).id;
    }
  }

  lemma LeaveKeepsGone(s: State, other: int, pid: int)
    requires Valid(s)
    requires pid < s.nextPid && FindPlayer(s.players, pid).None?
    ensures var r := Disconnect(s, other);
      Valid(r) && pid < r.nextPid && FindPlayer(r.players, pid).None?
  {
    var r := Disconnect(s, other);
    forall i | 0 <= i < |r.players|
      ensures r.players[i].id != pid
    {
      assert r.players[i] in s.players;
    }
  }

  lemma {:induction false} StaysGone(s: State, steps: seq<Step>, root2: real, pid: int)
    requires Valid(s) && Ingest.IsRoot2(root2)
    requires forall k :: 0 <= k < |steps| ==> StepOk(steps[k])
    requires pid < s.nextPid && FindPlayer(s.players, pid).None?
    ensures var r := Run(s, steps, root2);
      Valid(r) && pid < r.nextPid && FindPlayer(r.players, pid).None?
    decreases |steps|
  {
    if |steps| > 0 {
      StepKeepsGone(s, steps[0], root2, pid);
      StaysGone(Apply(s, steps[0], root2), steps[1..], root2, pid);
    }
  }

  /** No coin on the board carries `id`. */
  ghost predicate CoinGone(coins: seq<Protocol.Coin>, id: int) {
    forall k :: 0 <= k < |coins| ==> coins[k].id != id
  }

  /**
   A coin id that was handed out and is no longer on the board does not come
   back in one step: only a physics tick adds a coin, and it takes the fresh
   `coinNextId`.
   */
  lemma StepKeepsCoinGone(s: State, st: Step, root2: real, id: int)
    requires Valid(s) && StepOk(st) && Ingest.IsRoot2(root2)
    requires id < s.coinNextId && CoinGone(s.coins, id)
    ensures var r := Apply(s, st, root2);
      Valid(r) && id < r.coinNextId && CoinGone(r.coins, id)
  {
    // Pid 0 is never handed out, so this gives validity of the next state.
    StepKeepsGone(s, st, root2, 0);
    match st
    case TickPass(dt, cx, cy) => TickKeepsCoinGone(s, dt, cx, cy, id);
    case _ =>
  }

  lemma TickKeepsCoinGone(s: State, dt: real, cx: real, cy: real, id: int)
    requires Valid(s) && StepOk(TickPass(dt, cx, cy))
    requires id < s.coinNextId && CoinGone(s.coins, id)
    ensures var r := Physics.Tick(s, dt, cx, cy);
      id < r.coinNextId && CoinGone(r.coins, id)
  {
    var r := Physics.Tick(s, dt, cx, cy);
    Physics.TickCoins(s, dt, cx, cy);
    forall k | 0 <= k < |r.coins|
      ensures r.coins[k].id != id
    {
      var c := r.coins[k];
      assert c in r.coins;
      if c in s.coins {
        var j :| 0 <= j < |s.coins| && s.coins[j] == c;
      }
    }
  }

  /** Once a handed-out coin id is off the board, it stays off whatever the server does. */
  lemma {:induction false} StaysCollected(s: State, steps: seq<Step>, root2: real, id: int)
    requires Valid(s) && Ingest.IsRoot2(root2)
    requires forall k :: 0 <= k < |steps| ==> StepOk(steps[k])
    requires id < s.coinNextId && CoinGone(s.coins, id)
    ensures var r := Run(s, steps, root2);
      Valid(r) && id < r.coinNextId && CoinGone(r.coins, id)
    decreases |steps|
  {
    if |steps| > 0 {
      StepKeepsCoinGone(s, steps[0], root2, id);
      StaysCollected(Apply(s, steps[0], root2), steps[1..], root2, id);
    }
  }

  /**
   With the intended handler a departed client is gone for good: whatever the
   server does afterwards, its pid is in no later snapshot and no later
   broadcast addresses it.
   */
  lemma DepartedClientNeverServed(s: State, pid: int, w: Wakeup, steps: seq<Step>, root2: real, captureTime: real)
    requires Valid(s) && Ingest.IsRoot2(root2)
    requires pid < s.nextPid
    requires w.clientGone
    requires forall k :: 0 <= k < |steps| ==> StepOk(steps[k])
    ensures var r := Run(KeepAlive(s, pid, w), steps, root2);
      && pid !in Broadcast.Capture(r, captureTime).players
      && forall p :: p in Broadcast.Addressed(r.players) ==> p.id != pid
  {
    var left := KeepAlive(s, pid, w);
    assert left.nextPid == s.nextPid;
    StaysGone(left, steps, root2, pid);
    Unserved(Run(left, steps, root2), pid, captureTime);
  }

}
