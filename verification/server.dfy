/**
 The authoritative server's world: players (in insertion order, which is also
 ascending pid order), coins, the identifier counters, the coin-spawn timer and
 the two latency queues. Each operation is one atomic step taken under the
 server's lock.
 */
module Server {

  import opened Wrappers
  import opened Protocol
  import LatencyQueue

  const WORLD_W: real := 800.0
  const WORLD_H: real := 600.0
  const PLAYER_SPEED: real := 200.0
  const PLAYER_RADIUS: real := 16.0
  const COIN_RADIUS: real := 10.0
  /** Simulated one-way delay applied to inbound inputs and outbound snapshots. */
  const SERVER_LATENCY: real := 0.1
  /** Positions are clamped into [WALL_MARGIN, extent - WALL_MARGIN] on both axes. */
  const WALL_MARGIN: real := 10.0
  /** A new player appears uniformly within this inset of the world edges. */
  const PLAYER_SPAWN_MARGIN: real := 50.0
  /** A new coin appears uniformly within this inset of the world edges. */
  const COIN_SPAWN_MARGIN: real := 30.0
  /** Seconds of accumulated tick time between coin spawns. */
  const COIN_SPAWN_INTERVAL: real := 2.0

  datatype Player = Player(
    id: int,
    x: real,
    y: real,
    vx: real,
    vy: real,
    score: nat,
    lastInputTime: real,
    addr: Option<Addr>)

  /**
   `spawnTimer` is the tick loop's accumulated time since the last coin spawn;
   queue payloads are datagrams with their sender (inbound) or destination
   (outbound) address.
   */
  datatype State = State(
    players: seq<Player>,
    nextPid: int,
    coins: seq<Coin>,
    coinNextId: int,
    spawnTimer: real,
    inbound: LatencyQueue.Queue<Datagram>,
    outbound: LatencyQueue.Queue<Datagram>)

  ghost predicate InBounds(p: Player) {
    && WALL_MARGIN <= p.x <= WORLD_W - WALL_MARGIN
    && WALL_MARGIN <= p.y <= WORLD_H - WALL_MARGIN
  }

  ghost predicate PidsIncreasing(ps: seq<Player>) {
    forall i, j :: 0 <= i < j < |ps| ==> ps[i].id < ps[j].id
  }

  ghost predicate CoinIdsIncreasing(cs: seq<Coin>) {
    forall i, j :: 0 <= i < j < |cs| ==> cs[i].id < cs[j].id
  }

  /**
   The world invariant: player ids are unique (strictly increasing in iteration
   order) and below `nextPid`, every player lies inside the clamp bounds, and coin
   ids are unique (strictly increasing along `coins`) and below `coinNextId`.
   */
  ghost predicate Valid(s: State) {
    && 1 <= s.nextPid
    && PidsIncreasing(s.players)
    && (forall i :: 0 <= i < |s.players| ==> 1 <= s.players[i].id < s.nextPid)
    && (forall i :: 0 <= i < |s.players| ==> InBounds(s.players[i]))
    && 1 <= s.coinNextId
    && CoinIdsIncreasing(s.coins)
    && (forall i :: 0 <= i < |s.coins| ==> 1 <= s.coins[i].id < s.coinNextId)
  }

  /** The freshly started server: no players, no coins, both counters at 1. */
  function Init(): (s: State)
    ensures Valid(s)
    ensures |s.players| == 0 && |s.coins| == 0
    ensures s.nextPid == 1 && s.coinNextId == 1
  {
    State([], 1, [], 1, 0.0, [], [])
  }

  function FindFrom(ps: seq<Player>, pid: int, k: nat): (r: Option<nat>)
    requires k <= |ps|
    ensures r.Some? ==> k <= r.value < |ps| && ps[r.value].id == pid
    ensures r.Some? ==> forall i :: k <= i < r.value ==> ps[i].id != pid
    ensures r.None? ==> forall i :: k <= i < |ps| ==> ps[i].id != pid
    decreases |ps| - k
  {
    if k == |ps| then None
    else if ps[k].id == pid then Some(k)
    else FindFrom(ps, pid, k + 1)
  }

  /** Dictionary lookup `players.get(pid)`: the position of the first player with that id. */
  function FindPlayer(ps: seq<Player>, pid: int): (r: Option<nat>)
    ensures r.Some? ==> r.value < |ps| && ps[r.value].id == pid
    ensures r.Some? ==> forall i :: 0 <= i < r.value ==> ps[i].id != pid
    ensures r.None? <==> forall i :: 0 <= i < |ps| ==> ps[i].id != pid
  {
    FindFrom(ps, pid, 0)
  }

  /** Dictionary store `players[p.id] = p`: replace in place if present, else append. */
  function StorePlayer(ps: seq<Player>, p: Player): (r: seq<Player>)
    ensures FindPlayer(ps, p.id).None? ==> r == ps + [p]
    ensures FindPlayer(ps, p.id).Some? ==>
      |r| == |ps| && r[FindPlayer(ps, p.id).value] == p
      && forall i :: 0 <= i < |ps| && i != FindPlayer(ps, p.id).value ==> r[i] == ps[i]
  {
    match FindPlayer(ps, p.id)
    case None => ps + [p]
    case Some(i) => ps[i := p]
  }

  /**
   A player as created at handshake: at rest, score 0, address not yet known.
   A start position drawn within the spawn margins lies inside the walls.
   */
  function NewPlayer(pid: int, x: real, y: real): (p: Player)
    ensures p.id == pid && p.x == x && p.y == y
    ensures p.vx == 0.0 && p.vy == 0.0 && p.score == 0 && p.lastInputTime == 0.0 && p.addr.None?
    ensures (&& PLAYER_SPAWN_MARGIN <= x <= WORLD_W - PLAYER_SPAWN_MARGIN
             && PLAYER_SPAWN_MARGIN <= y <= WORLD_H - PLAYER_SPAWN_MARGIN) ==> InBounds(p)
  {
    Player(pid, x, y, 0.0, 0.0, 0, 0.0, None)
  }

  /**
   Handshake: the new player gets `pid == nextPid` and the counter advances.
   `spawnX`/`spawnY` are the uniformly drawn start position.
   */
  function Connect(s: State, spawnX: real, spawnY: real): (r: (State, int))
    requires PLAYER_SPAWN_MARGIN <= spawnX <= WORLD_W - PLAYER_SPAWN_MARGIN
    requires PLAYER_SPAWN_MARGIN <= spawnY <= WORLD_H - PLAYER_SPAWN_MARGIN
    ensures r.1 == s.nextPid
    ensures r.0.nextPid > s.nextPid
    ensures Valid(s) ==> FindPlayer(s.players, r.1).None?
    ensures Valid(s) ==> |r.0.players| == |s.players| + 1 && r.0.players[..|s.players|] == s.players
    ensures Valid(s) ==> r.0.players[|s.players|] == NewPlayer(r.1, spawnX, spawnY)
    ensures Valid(s) ==> Valid(r.0)
    ensures r.0 == s.(players := r.0.players, nextPid := r.0.nextPid)
  {
    var pid := s.nextPid;
    var ps := StorePlayer(s.players, NewPlayer(pid, spawnX, spawnY));
    assert Valid(s) ==> ps == s.players + [NewPlayer(pid, spawnX, spawnY)];
    (s.(players := ps, nextPid := pid + 1), pid)
  }

  /** The sequence without its element at position `i`, the rest in order. */
  function RemoveAt(ps: seq<Player>, i: nat): (r: seq<Player>)
    requires i < |ps|
    ensures |r| == |ps| - 1
    ensures forall j :: 0 <= j < i ==> r[j] == ps[j]
    ensures forall j :: i <= j < |r| ==> r[j] == ps[j + 1]
  {
    ps[..i] + ps[i + 1..]
  }

  lemma RemoveAtKeepsOthers(ps: seq<Player>, i: nat)
    requires i < |ps|
    ensures forall j :: 0 <= j < |ps| && j != i ==> ps[j] in RemoveAt(ps, i)
    ensures forall p :: p in RemoveAt(ps, i) ==> p in ps
  {
    var r := RemoveAt(ps, i);
    forall j | 0 <= j < |ps| && j != i
      ensures ps[j] in r
    {
      if j < i { assert r[j] == ps[j]; } else { assert r[j - 1] == ps[j]; }
    }
    forall p | p in r
      ensures p in ps
    {
      var j :| 0 <= j < |r| && r[j] == p;
      if j < i { assert ps[j] == p; } else { assert ps[j + 1] == p; }
    }
  }

  /** Removing one player keeps the world invariant and, under it, removes that pid entirely. */
  lemma RemoveAtValid(s: State, i: nat)
    requires Valid(s)
    requires i < |s.players|
    ensures Valid(s.(players := RemoveAt(s.players, i)))
    ensures FindPlayer(RemoveAt(s.players, i), s.players[i].id).None?
  {
    var r := RemoveAt(s.players, i);
    forall a, b | 0 <= a < b < |r|
      ensures r[a].id < r[b].id
    {
      var a' := if a < i then a else a + 1;
      var b' := if b < i then b else b + 1;
      assert r[a] == s.players[a'] && r[b] == s.players[b'];
    }
    forall j | 0 <= j < |r|
      ensures r[j].id != s.players[i].id
    {
      if j < i { assert r[j] == s.players[j]; } else { assert r[j] == s.players[j + 1]; }
    }
  }

  /**
   The handler thread's clean-up: delete the player with that pid, if there is
   one. The handler reaches it only once the server's running flag is cleared
   (see Session for when that is).
   */
  function Disconnect(s: State, pid: int): (r: State)
    ensures FindPlayer(s.players, pid).None? ==> r == s
    ensures FindPlayer(s.players, pid).Some? ==> |r.players| == |s.players| - 1
    ensures forall i :: 0 <= i < |s.players| && s.players[i].id != pid ==> s.players[i] in r.players
    ensures forall p :: p in r.players ==> p in s.players
    ensures Valid(s) ==> FindPlayer(r.players, pid).None?
    ensures Valid(s) ==> Valid(r)
    ensures r == s.(players := r.players)
  {
    match FindPlayer(s.players, pid)
    case None => s
    case Some(i) =>
      var r := s.(players := RemoveAt(s.players, i));
      RemoveAtKeepsOthers(s.players, i);
      assert Valid(s) ==> Valid(r) && FindPlayer(r.players, pid).None? by {
        if Valid(s) { RemoveAtValid(s, i); }
      }
      r
  }

  /** A datagram arrives on the game port: it becomes processable one latency later. */
  function Receive(s: State, d: Datagram, clock: real): (r: State)
    ensures |r.inbound| == |s.inbound| + 1
    ensures r.inbound[..|s.inbound|] == s.inbound
    ensures r.inbound[|s.inbound|] == LatencyQueue.Entry(clock + SERVER_LATENCY, d)
    ensures r == s.(inbound := r.inbound)
  {
    s.(inbound := LatencyQueue.Enqueue(s.inbound, clock + SERVER_LATENCY, d))
  }

  /**
   Sends every outbound datagram due at `now`: the longest due prefix leaves the
   queue, in FIFO order, and is returned as the datagrams put on the wire.
   */
  function Flush(s: State, now: real): (r: (seq<Datagram>, State))
    ensures |r.0| + |r.1.outbound| == |s.outbound|
    ensures forall i :: 0 <= i < |r.0| ==> s.outbound[i].payload == r.0[i] && s.outbound[i].time <= now
    ensures r.1.outbound == s.outbound[|r.0|..]
    ensures LatencyQueue.HeadNotDue(r.1.outbound, now)
    ensures r.1 == s.(outbound := r.1.outbound)
  {
    var (due, rest) := LatencyQueue.Drain(s.outbound, now);
    assert s.outbound[|due|..] == rest;
    assert forall i :: 0 <= i < |due| ==> s.outbound[i] == due[i];
    (LatencyQueue.Payloads(due), s.(outbound := rest))
  }

}
