/**
 Input ingestion: the server drains its inbound latency queue and applies every
 well-formed input addressed to a known player as that player's new commanded
 velocity. Anything else is dropped without a trace.
 */
module Ingest {

  import opened Wrappers
  import opened Protocol
  import opened Server
  import LatencyQueue

  /** Net contribution of one axis' key pair: -1 for the negative key, +1 for the positive. */
  function Axis(neg: bool, pos: bool): (d: int)
    ensures -1 <= d <= 1
    ensures d == 0 <==> neg == pos
    ensures d < 0 <==> neg && !pos
    ensures d > 0 <==> pos && !neg
  {
    (if neg then -1 else 0) + (if pos then 1 else 0)
  }

  /**
   The un-normalised direction of an intent; screen y grows downwards. Each
   component is -1, 0 or 1, and is non-zero exactly when one key of its pair is held.
   */
  function Direction(intent: Intent): (d: (int, int))
    ensures -1 <= d.0 <= 1 && -1 <= d.1 <= 1
    ensures d.0 == -1 <==> intent.left && !intent.right
    ensures d.0 == 1 <==> intent.right && !intent.left
    ensures d.1 == -1 <==> intent.up && !intent.down
    ensures d.1 == 1 <==> intent.down && !intent.up
  {
    (Axis(intent.left, intent.right), Axis(intent.up, intent.down))
  }

  /** `r` is the positive square root of 2, the magnitude of a diagonal direction. */
  predicate IsRoot2(r: real) {
    r > 0.0 && r * r == 2.0
  }

  /** The Euclidean length of a direction with components in {-1, 0, 1}. */
  function Magnitude(dx: int, dy: int, root2: real): (m: real)
    requires -1 <= dx <= 1 && -1 <= dy <= 1
    requires IsRoot2(root2)
    ensures m >= 0.0
    ensures m * m == (dx * dx + dy * dy) as real
  {
    var sq := dx * dx + dy * dy;
    if sq == 0 then 0.0 else if sq == 1 then 1.0 else root2
  }

  function Sign(v: real): int {
    if v > 0.0 then 1 else if v < 0.0 then -1 else 0
  }

  /** A unit component divided by the square root of 2 squares to one half. */
  lemma HalfSquare(d: real, root2: real)
    requires d * d == 1.0
    requires IsRoot2(root2)
    ensures (d / root2) * (d / root2) * 2.0 == 1.0
  {
    var y := d / root2;
    assert y * root2 == d;
    calc {
      y * y * 2.0;
      y * y * (root2 * root2);
      (y * root2) * (y * root2);
      d * d;
    }
  }

  /** A diagonal direction normalised by the square root of 2 and scaled has length `speed`. */
  lemma DiagonalNorm(dx: real, dy: real, root2: real, speed: real)
    requires dx * dx == 1.0 && dy * dy == 1.0
    requires IsRoot2(root2)
    ensures (dx / root2 * speed) * (dx / root2 * speed) + (dy / root2 * speed) * (dy / root2 * speed)
            == speed * speed
  {
    var y, z := dx / root2, dy / root2;
    HalfSquare(dx, root2);
    HalfSquare(dy, root2);
    assert (y * speed) * (y * speed) == (y * y) * (speed * speed);
    assert (z * speed) * (z * speed) == (z * z) * (speed * speed);
    assert y * y + z * z == 1.0;
  }

  /**
   A non-zero direction divided by its magnitude and scaled to PLAYER_SPEED keeps
   each component's sign, stays parallel to the direction and has length
   PLAYER_SPEED.
   */
  lemma Normalised(dx: int, dy: int, root2: real)
    requires -1 <= dx <= 1 && -1 <= dy <= 1 && (dx, dy) != (0, 0)
    requires IsRoot2(root2)
    ensures var m := Magnitude(dx, dy, root2);
      var v := (dx as real / m * PLAYER_SPEED, dy as real / m * PLAYER_SPEED);
      && m > 0.0
      && Sign(v.0) == dx && Sign(v.1) == dy
      && v.0 * (dy as real) == v.1 * (dx as real)
      && v.0 * v.0 + v.1 * v.1 == PLAYER_SPEED * PLAYER_SPEED
  {
    var m := Magnitude(dx, dy, root2);
    var w := PLAYER_SPEED / m;
    if dx == 0 || dy == 0 {
      assert m == 1.0;
    } else {
      assert m == root2;
      assert dx as real / m * PLAYER_SPEED == (dx as real) * w;
      assert dy as real / m * PLAYER_SPEED == (dy as real) * w;
      assert (dx * dx) as real == 1.0 && (dy * dy) as real == 1.0;
      DiagonalNorm(dx as real, dy as real, root2, PLAYER_SPEED);
    }
  }

  /**
   The commanded velocity for an intent: its direction normalised to unit length
   and scaled to PLAYER_SPEED, or exactly zero when the keys cancel out.
   */
  function Velocity(intent: Intent, root2: real): (v: (real, real))
    requires IsRoot2(root2)
    ensures Direction(intent) == (0, 0) <==> v == (0.0, 0.0)
    ensures Sign(v.0) == Direction(intent).0
    ensures Sign(v.1) == Direction(intent).1
    ensures v.0 * (Direction(intent).1 as real) == v.1 * (Direction(intent).0 as real)
    ensures Direction(intent) != (0, 0) ==> v.0 * v.0 + v.1 * v.1 == PLAYER_SPEED * PLAYER_SPEED
  {
    var (dx, dy) := Direction(intent);
    var m := Magnitude(dx, dy, root2);
    if m > 0.0 then
      Normalised(dx, dy, root2);
      (dx as real / m * PLAYER_SPEED, dy as real / m * PLAYER_SPEED)
    else
      (0.0, 0.0)
  }

  /** `d` is a well-formed input naming `pid`. */
  predicate InputFor(d: Datagram, pid: int) {
    && d.payload.Some?
    && d.payload.value.Input?
    && d.payload.value.pid == Some(pid)
  }

  /** `d` decodes to an input whose pid is a current player: the only datagrams that act. */
  predicate Accepted(ps: seq<Player>, d: Datagram) {
    && d.payload.Some?
    && d.payload.value.Input?
    && d.payload.value.pid.Some?
    && FindPlayer(ps, d.payload.value.pid.value).Some?
  }

  /** Both sequences list the same players at the same positions with the same scores. */
  ghost predicate SameBodies(ps: seq<Player>, qs: seq<Player>) {
    && |ps| == |qs|
    && forall i :: 0 <= i < |ps| ==>
         qs[i].id == ps[i].id && qs[i].x == ps[i].x && qs[i].y == ps[i].y && qs[i].score == ps[i].score
  }

  lemma FindPlayerSameIds(ps: seq<Player>, qs: seq<Player>, pid: int)
    requires SameBodies(ps, qs)
    ensures FindPlayer(qs, pid) == FindPlayer(ps, pid)
  {
    var a := FindPlayer(ps, pid);
    var b := FindPlayer(qs, pid);
    if a.Some? && b.Some? {
      assert qs[a.value].id == pid && ps[b.value].id == pid;
    }
  }

  /**
   One accepted input: the sender's address is recorded (overwriting any earlier
   one), the velocity is replaced by the intent's, and the input time stamped.
   */
  function ApplyInput(p: Player, intent: Intent, from: Addr, stamp: real, root2: real): (q: Player)
    requires IsRoot2(root2)
    ensures q.addr == Some(from)
    ensures (q.vx, q.vy) == Velocity(intent, root2)
    ensures q.lastInputTime == stamp
    ensures q.id == p.id && q.x == p.x && q.y == p.y && q.score == p.score
  {
    var v := Velocity(intent, root2);
    p.(addr := Some(from), vx := v.0, vy := v.1, lastInputTime := stamp)
  }

  /** Processes one delivered datagram. */
  function Handle(ps: seq<Player>, d: Datagram, stamp: real, root2: real): (r: seq<Player>)
    requires IsRoot2(root2)
    ensures SameBodies(ps, r)
    ensures !Accepted(ps, d) ==> r == ps
    ensures Accepted(ps, d) ==>
      var i := FindPlayer(ps, d.payload.value.pid.value).value;
      && r[i] == ApplyInput(ps[i], d.payload.value.intent, d.addr, stamp, root2)
      && forall j :: 0 <= j < |ps| && j != i ==> r[j] == ps[j]
  {
    match d.payload
    case Some(Input(Some(pid), intent)) =>
      (match FindPlayer(ps, pid)
       case Some(i) => ps[i := ApplyInput(ps[i], intent, d.addr, stamp, root2)]
       case None => ps)
    case _ => ps
  }

  /** Processes delivered datagrams in order. */
  function HandleAll(ps: seq<Player>, ds: seq<Datagram>, stamp: real, root2: real): (r: seq<Player>)
    requires IsRoot2(root2)
    ensures SameBodies(ps, r)
    ensures (forall k :: 0 <= k < |ds| ==> !Accepted(ps, ds[k])) ==> r == ps
    ensures forall i :: 0 <= i < |ps| && (forall k :: 0 <= k < |ds| ==> !InputFor(ds[k], ps[i].id)) ==> r[i] == ps[i]
    decreases |ds|
  {
    if |ds| == 0 then ps
    else
      var ps' := Handle(ps, ds[0], stamp, root2);
      var r := HandleAll(ps', ds[1..], stamp, root2);
      assert forall pid :: FindPlayer(ps', pid) == FindPlayer(ps, pid) by {
        forall pid { FindPlayerSameIds(ps, ps', pid); }
      }
      assert forall k :: 0 < k < |ds| ==> ds[1..][k - 1] == ds[k];
      r
  }

  /** An accepted input overwrites every field that is not part of the body. */
  lemma ApplyInputSameBody(p: Player, q: Player, intent: Intent, from: Addr, stamp: real, root2: real)
    requires IsRoot2(root2)
    requires p.id == q.id && p.x == q.x && p.y == q.y && p.score == q.score
    ensures ApplyInput(p, intent, from, stamp, root2) == ApplyInput(q, intent, from, stamp, root2)
  {
  }

  /** After the first datagram, no later one naming the player touches it again. */
  lemma UntouchedAfter(ps: seq<Player>, ds: seq<Datagram>, stamp: real, root2: real, i: nat)
    requires IsRoot2(root2)
    requires i < |ps|
    requires forall k :: 0 <= k < |ds| ==> !InputFor(ds[k], ps[i].id)
    ensures HandleAll(ps, ds, stamp, root2)[i] == ps[i]
  {
  }

  /** Handling an input for a player that is at index `i` applies it there. */
  lemma HandledHere(ps: seq<Player>, d: Datagram, stamp: real, root2: real, i: nat)
    requires IsRoot2(root2)
    requires i < |ps| && FindPlayer(ps, ps[i].id) == Some(i)
    requires InputFor(d, ps[i].id)
    ensures Handle(ps, d, stamp, root2)[i] == ApplyInput(ps[i], d.payload.value.intent, d.addr, stamp, root2)
  {
  }

  /**
   After the first datagram of a pass is handled, the player at index `i` is
   still findable there with the same body, and the rest of the pass is a pass
   over the remaining datagrams, none of which after position `k` names it.
   */
  lemma AfterFirst(ps: seq<Player>, ds: seq<Datagram>, stamp: real, root2: real, i: nat, k: nat)
    requires IsRoot2(root2)
    requires i < |ps| && FindPlayer(ps, ps[i].id) == Some(i)
    requires k < |ds|
    requires forall k' :: k < k' < |ds| ==> !InputFor(ds[k'], ps[i].id)
    ensures var qs := Handle(ps, ds[0], stamp, root2);
      && i < |qs| && qs[i].id == ps[i].id && qs[i].x == ps[i].x && qs[i].y == ps[i].y && qs[i].score == ps[i].score
      && FindPlayer(qs, qs[i].id) == Some(i)
      && (forall j :: k <= j < |ds[1..]| ==> !InputFor(ds[1..][j], qs[i].id))
      && HandleAll(ps, ds, stamp, root2) == HandleAll(qs, ds[1..], stamp, root2)
  {
    var qs := Handle(ps, ds[0], stamp, root2);
    var tail := ds[1..];
    assert qs[i].id == ps[i].id;
    FindPlayerSameIds(ps, qs, ps[i].id);
    forall j | k <= j < |tail|
      ensures !InputFor(tail[j], qs[i].id)
    {
      assert tail[j] == ds[j + 1];
    }
  }

  /**
   The last input addressed to a player decides its state: earlier inputs in the
   same pass are overwritten, never accumulated.
   */
  lemma {:induction false} LastInputWins(ps: seq<Player>, ds: seq<Datagram>, stamp: real, root2: real, i: nat, k: nat)
    requires IsRoot2(root2)
    requires i < |ps| && FindPlayer(ps, ps[i].id) == Some(i)
    requires k < |ds| && InputFor(ds[k], ps[i].id)
    requires forall k' :: k < k' < |ds| ==> !InputFor(ds[k'], ps[i].id)
    ensures HandleAll(ps, ds, stamp, root2)[i]
            == ApplyInput(ps[i], ds[k].payload.value.intent, ds[k].addr, stamp, root2)
    decreases |ds|
  {
    var ps' := Handle(ps, ds[0], stamp, root2);
    var tail := ds[1..];
    var d := ds[k];
    var goal := ApplyInput(ps[i], d.payload.value.intent, d.addr, stamp, root2);
    AfterFirst(ps, ds, stamp, root2, i, k);
    var r := HandleAll(ps', tail, stamp, root2);
    assert HandleAll(ps, ds, stamp, root2)[i] == r[i];
    if k == 0 {
      HandledHere(ps, d, stamp, root2, i);
      assert ps'[i] == goal;
      UntouchedAfter(ps', tail, stamp, root2, i);
      assert r[i] == ps'[i];
    } else {
      assert tail[k - 1] == d;
      LastInputWins(ps', tail, stamp, root2, i, k - 1);
      assert r[i] == ApplyInput(ps'[i], d.payload.value.intent, d.addr, stamp, root2);
      ApplyInputSameBody(ps'[i], ps[i], d.payload.value.intent, d.addr, stamp, root2);
    }
  }

  /** Changing only velocities, addresses and stamps keeps the world invariant. */
  lemma SameBodiesValid(s: State, ps: seq<Player>, inbound: LatencyQueue.Queue<Datagram>)
    requires SameBodies(s.players, ps)
    ensures Valid(s) ==> Valid(s.(players := ps, inbound := inbound))
  {
    if Valid(s) {
      assert forall i :: 0 <= i < |ps| ==> ps[i].id == s.players[i].id && InBounds(ps[i]);
    }
  }

  /**
   One ingestion pass at `now`: the due prefix of the inbound queue is removed
   and its datagrams applied in order, each accepted input stamped with `now`.
   */
  function Ingest(s: State, now: real, root2: real): (r: State)
    requires IsRoot2(root2)
    ensures |r.inbound| <= |s.inbound| && r.inbound == s.inbound[|s.inbound| - |r.inbound|..]
    ensures LatencyQueue.AllDue(s.inbound[..|s.inbound| - |r.inbound|], now)
    ensures LatencyQueue.HeadNotDue(r.inbound, now)
    ensures r.players == HandleAll(s.players, LatencyQueue.Payloads(s.inbound[..|s.inbound| - |r.inbound|]), now, root2)
    ensures SameBodies(s.players, r.players)
    ensures (forall k :: 0 <= k < |s.inbound| - |r.inbound| ==> !Accepted(s.players, s.inbound[k].payload))
            ==> r.players == s.players
    ensures r == s.(players := r.players, inbound := r.inbound)
    ensures Valid(s) ==> Valid(r)
  {
    var (due, rest) := LatencyQueue.Drain(s.inbound, now);
    assert s.inbound[..|due|] == due && s.inbound[|due|..] == rest;
    var ds := LatencyQueue.Payloads(due);
    var ps := HandleAll(s.players, ds, now, root2);
    assert forall k :: 0 <= k < |due| ==> s.inbound[k].payload == ds[k];
    SameBodiesValid(s, ps, rest);
    s.(players := ps, inbound := rest)
  }

}
