/**
 The client's interpolator. It aims at the world as it was a fixed delay ago:
 when an adjacent pair of buffered snapshots brackets that moment it blends the
 first such pair, and otherwise it shows the newest snapshot as it is. Whether
 a pair can bracket it at all depends on how old snapshots are on arrival
 (module Timing).
 */
module Interpolation {

  import opened Wrappers
  import opened Protocol
  import opened Reals

  /** How far in the past the client renders. */
  const INTERPOLATION_DELAY: real := 0.1

  /** What the renderer draws: pid -> {x, y, score} and the coin list. */
  datatype RenderState = RenderState(players: map<int, PlayerView>, coins: seq<Coin>)

  /** The moment the client renders at clock reading `now`. */
  function RenderTime(now: real): (t: real)
    ensures t < now
    ensures t + INTERPOLATION_DELAY == now
  {
    now - INTERPOLATION_DELAY
  }

  /** Snapshots `i` and `i + 1` are adjacent and their times enclose `t`. */
  predicate Brackets(snaps: seq<Snapshot>, i: int, t: real) {
    0 <= i && i + 1 < |snaps| && snaps[i].time <= t <= snaps[i + 1].time
  }

  /** Pair `i` encloses `t` and no earlier pair does. */
  predicate FirstBracket(snaps: seq<Snapshot>, i: int, t: real) {
    Brackets(snaps, i, t) && forall j :: 0 <= j < i ==> !Brackets(snaps, j, t)
  }

  function FindBracketFrom(snaps: seq<Snapshot>, t: real, k: nat): (r: Option<nat>)
    ensures r.Some? ==> k <= r.value && Brackets(snaps, r.value, t)
    ensures r.Some? ==> forall j :: k <= j < r.value ==> !Brackets(snaps, j, t)
    ensures r.None? ==> forall j :: k <= j ==> !Brackets(snaps, j, t)
    decreases |snaps| - k
  {
    if k + 1 >= |snaps| then None
    else if snaps[k].time <= t <= snaps[k + 1].time then Some(k)
    else FindBracketFrom(snaps, t, k + 1)
  }

  /** The first adjacent pair, scanning from the oldest, whose times enclose `t`. */
  function FindBracket(snaps: seq<Snapshot>, t: real): (r: Option<nat>)
    ensures r.Some? ==> FirstBracket(snaps, r.value, t)
    ensures r.None? <==> forall j :: !Brackets(snaps, j, t)
  {
    FindBracketFrom(snaps, t, 0)
  }

  /**
   The blend factor of `t` between times `t0` and `t1`, clamped into [0, 1] and
   taken as 1 when the interval is empty or reversed (so nothing divides by zero).
   */
  function Alpha(t0: real, t1: real, t: real): (a: real)
    ensures 0.0 <= a <= 1.0
    ensures t1 <= t0 ==> a == 1.0
    ensures t0 < t1 && t0 <= t <= t1 ==> t0 + a * (t1 - t0) == t
    ensures t0 < t1 && t <= t0 ==> a == 0.0
    ensures t0 < t1 && t1 <= t ==> a == 1.0
  {
    var raw := if t1 > t0 then (t - t0) / (t1 - t0) else 1.0;
    assert t0 < t1 ==>
      && t0 + raw * (t1 - t0) == t
      && (t <= t0 ==> raw <= 0.0)
      && (t1 <= t ==> raw >= 1.0)
      && (t0 <= t <= t1 ==> 0.0 <= raw <= 1.0)
    by {
      if t0 < t1 { QuotientBounds(raw, t1 - t0, t - t0); }
    }
    var a := Max(0.0, Min(1.0, raw));
    assert 0.0 <= raw <= 1.0 ==> a == raw;
    a
  }

  /**
   Where `q` solves `q * d == e` for a positive `d`, `q` has the sign of `e`,
   is at least 1 when `e >= d`, and lies in [0, 1] when `e` lies in [0, d].
   */
  lemma QuotientBounds(q: real, d: real, e: real)
    requires d > 0.0 && q * d == e
    ensures e <= 0.0 ==> q <= 0.0
    ensures e >= d ==> q >= 1.0
    ensures 0.0 <= e <= d ==> 0.0 <= q <= 1.0
  {
    if q > 0.0 {
      assert q * d > 0.0;
    }
    if q < 0.0 {
      assert (-q) * d > 0.0;
    }
    if q < 1.0 {
      var w := 1.0 - q;
      assert w * d > 0.0;
      assert w * d == d - e;
    }
    if q > 1.0 {
      var w := q - 1.0;
      assert w * d > 0.0;
      assert w * d == e - d;
    }
  }

  /** Linear interpolation from `u` (at a = 0) to `v` (at a = 1). */
  function Blend(u: real, v: real, a: real): real {
    u * (1.0 - a) + v * a
  }

  /** A blend starts at `u`, ends at `v` and moves along the line through them in proportion to `a`. */
  lemma BlendLinear(u: real, v: real, a: real)
    ensures Blend(u, v, a) == u + a * (v - u)
    ensures Blend(u, v, 0.0) == u
    ensures Blend(u, v, 1.0) == v
  {
    assert u * (1.0 - a) + v * a == u + a * (v - u);
  }

  /** `x` lies between `u` and `v`, inclusive, in either order. */
  predicate Between(x: real, u: real, v: real) {
    (u <= x <= v) || (v <= x <= u)
  }

  /** Scaling a non-negative `k` by a factor in [0, 1] stays within [0, k]. */
  lemma ScaleWithin(a: real, k: real)
    requires 0.0 <= a <= 1.0 && 0.0 <= k
    ensures 0.0 <= a * k <= k
  {
    assert (1.0 - a) * k >= 0.0;
    assert (1.0 - a) * k == k - a * k;
  }

  /** A blend with a factor in [0, 1] is a convex combination; blending a value with itself returns it. */
  lemma BlendConvex(u: real, v: real, a: real)
    requires 0.0 <= a <= 1.0
    ensures Between(Blend(u, v, a), u, v)
    ensures Blend(u, u, a) == u
  {
    assert Blend(u, v, a) == u + a * (v - u);
    if u <= v {
      ScaleWithin(a, v - u);
    } else {
      ScaleWithin(a, u - v);
      assert a * (v - u) == -(a * (u - v));
    }
    assert u * (1.0 - a) + u * a == u * ((1.0 - a) + a);
  }

  /**
   Blends every player of the older snapshot toward the newer one. A pid missing
   from the newer snapshot stays exactly where the older one had it; players only
   in the newer snapshot are not rendered; scores jump to the newer value.
   */
  function BlendPlayers(p0s: map<int, PlayerView>, p1s: map<int, PlayerView>, a: real): (r: map<int, PlayerView>)
    requires 0.0 <= a <= 1.0
    ensures r.Keys == p0s.Keys
    ensures forall pid :: pid in p0s && pid in p1s ==>
      && Between(r[pid].x, p0s[pid].x, p1s[pid].x)
      && Between(r[pid].y, p0s[pid].y, p1s[pid].y)
      && r[pid].x == p0s[pid].x + a * (p1s[pid].x - p0s[pid].x)
      && r[pid].y == p0s[pid].y + a * (p1s[pid].y - p0s[pid].y)
      && r[pid].score == p1s[pid].score
    ensures forall pid :: pid in p0s && pid !in p1s ==> r[pid] == p0s[pid]
  {
    var r := map pid | pid in p0s ::
      var q0 := p0s[pid];
      var q1 := if pid in p1s then p1s[pid] else q0;
      PlayerView(Blend(q0.x, q1.x, a), Blend(q0.y, q1.y, a), q1.score);
    assert forall pid :: pid in p0s ==>
      var q1 := if pid in p1s then p1s[pid] else p0s[pid];
      Between(r[pid].x, p0s[pid].x, q1.x) && Between(r[pid].y, p0s[pid].y, q1.y)
      && Blend(p0s[pid].x, p0s[pid].x, a) == p0s[pid].x && Blend(p0s[pid].y, p0s[pid].y, a) == p0s[pid].y
    by {
      forall pid | pid in p0s
        ensures var q1 := if pid in p1s then p1s[pid] else p0s[pid];
          Between(r[pid].x, p0s[pid].x, q1.x) && Between(r[pid].y, p0s[pid].y, q1.y)
          && Blend(p0s[pid].x, p0s[pid].x, a) == p0s[pid].x && Blend(p0s[pid].y, p0s[pid].y, a) == p0s[pid].y
      {
        var q1 := if pid in p1s then p1s[pid] else p0s[pid];
        BlendConvex(p0s[pid].x, q1.x, a);
        BlendConvex(p0s[pid].y, q1.y, a);
      }
    }
    r
  }

  /**
   Inside a proper bracket the blended position moves with the render time: it
   is the older position plus the elapsed fraction of the interval times the
   displacement between the two snapshots.
   */
  lemma BlendTracksTime(s0: Snapshot, s1: Snapshot, t: real, pid: int)
    requires s0.time < s1.time && s0.time <= t <= s1.time
    requires pid in s0.players && pid in s1.players
    ensures var r := BlendPlayers(s0.players, s1.players, Alpha(s0.time, s1.time, t));
      && r[pid].x == s0.players[pid].x + (t - s0.time) / (s1.time - s0.time) * (s1.players[pid].x - s0.players[pid].x)
      && r[pid].y == s0.players[pid].y + (t - s0.time) / (s1.time - s0.time) * (s1.players[pid].y - s0.players[pid].y)
  {
    var a := Alpha(s0.time, s1.time, t);
    var r := BlendPlayers(s0.players, s1.players, a);
    TracksTime(s0.time, s1.time, t, a, s0.players[pid].x, s1.players[pid].x, r[pid].x);
    TracksTime(s0.time, s1.time, t, a, s0.players[pid].y, s1.players[pid].y, r[pid].y);
  }

  /** One coordinate of BlendTracksTime: the blend at the solved factor is the time-proportional point. */
  lemma TracksTime(t0: real, t1: real, t: real, a: real, u: real, v: real, w: real)
    requires t0 < t1 && t0 + a * (t1 - t0) == t
    requires w == u + a * (v - u)
    ensures w == u + (t - t0) / (t1 - t0) * (v - u)
  {
    assert a == (t - t0) / (t1 - t0);
  }

  /**
   The interpolator at render time `t`: nothing for an empty buffer; the blend
   of the first bracketing pair around `t`, with the newer snapshot's coins;
   otherwise the newest snapshot verbatim.
   */
  function RenderAt(snaps: seq<Snapshot>, t: real): (r: RenderState)
    ensures |snaps| == 0 ==> r.players == map[] && r.coins == []
    ensures |snaps| > 0 && (forall j :: !Brackets(snaps, j, t)) ==>
      r == RenderState(snaps[|snaps| - 1].players, snaps[|snaps| - 1].coins)
    ensures forall i :: FirstBracket(snaps, i, t) ==>
      && r.coins == snaps[i + 1].coins
      && r.players == BlendPlayers(snaps[i].players, snaps[i + 1].players, Alpha(snaps[i].time, snaps[i + 1].time, t))
  {
    if |snaps| == 0 then RenderState(map[], [])
    else
      match FindBracket(snaps, t)
      case None =>
        var s := snaps[|snaps| - 1];
        RenderState(s.players, s.coins)
      case Some(i) =>
        FirstBracketUnique(snaps, t, i);
        var s0, s1 := snaps[i], snaps[i + 1];
        var a := Alpha(s0.time, s1.time, t);
        RenderState(BlendPlayers(s0.players, s1.players, a), s1.coins)
  }

  /**
   `get_interpolated_state` at clock reading `now`: the interpolator at
   `now - INTERPOLATION_DELAY`.
   */
  function Interpolate(snaps: seq<Snapshot>, now: real): (r: RenderState)
    ensures |snaps| == 0 ==> r.players == map[] && r.coins == []
    ensures |snaps| > 0 && (forall j :: !Brackets(snaps, j, RenderTime(now))) ==>
      r == RenderState(snaps[|snaps| - 1].players, snaps[|snaps| - 1].coins)
    ensures forall i :: FirstBracket(snaps, i, RenderTime(now)) ==>
      && r.coins == snaps[i + 1].coins
      && r.players == BlendPlayers(snaps[i].players, snaps[i + 1].players,
                                   Alpha(snaps[i].time, snaps[i + 1].time, RenderTime(now)))
  {
    RenderAt(snaps, RenderTime(now))
  }

  /** Only one bracketing pair can be the first: any first bracket is the one FindBracket chose. */
  lemma FirstBracketUnique(snaps: seq<Snapshot>, t: real, i: nat)
    requires FindBracket(snaps, t) == Some(i)
    ensures forall k :: FirstBracket(snaps, k, t) ==> k == i
  {
    forall k | FirstBracket(snaps, k, t)
      ensures k == i
    {
      assert Brackets(snaps, i, t);
    }
  }

  /**
   The worked example: snapshots at t = 0 (x = 0) and t = 1 (x = 10), rendered
   at 0.3, put the player at x = 3 with the newer snapshot's score.
   */
  lemma ThreeTenthsExample(p0: PlayerView, p1: PlayerView)
    requires p0.x == 0.0 && p1.x == 10.0
    ensures var snaps := [Snapshot(0.0, map[1 := p0], []), Snapshot(1.0, map[1 := p1], [])];
      var r := Interpolate(snaps, 0.3 + INTERPOLATION_DELAY);
      1 in r.players && r.players[1].x == 3.0 && r.players[1].score == p1.score
  {
    var snaps := [Snapshot(0.0, map[1 := p0], []), Snapshot(1.0, map[1 := p1], [])];
    assert Brackets(snaps, 0, 0.3);
    assert Alpha(0.0, 1.0, 0.3) == 0.3;
  }

}
