/**
 The physics tick: integrate and clamp every player, advance the coin-spawn
 timer (spawning at most one coin), then resolve player-coin collisions with
 "first overlapping player wins" and remove the collected coins after the pass.
 */
module Physics {

  import opened Wrappers
  import opened Protocol
  import opened Server
  import opened Reals

  /** `max(lo, min(hi, v))`: a solid wall with no bounce. */
  function Clamp(v: real, lo: real, hi: real): (r: real)
    requires lo <= hi
    ensures lo <= r <= hi
    ensures lo <= v <= hi ==> r == v
    ensures v < lo ==> r == lo
    ensures v > hi ==> r == hi
  {
    Max(lo, Min(hi, v))
  }

  /** One player's integration step over `dt` seconds, for any `dt` and start position. */
  function MovePlayer(p: Player, dt: real): (q: Player)
    ensures InBounds(q)
    ensures q == p.(x := q.x, y := q.y)
    ensures WALL_MARGIN <= p.x + p.vx * dt <= WORLD_W - WALL_MARGIN ==> q.x == p.x + p.vx * dt
    ensures WALL_MARGIN <= p.y + p.vy * dt <= WORLD_H - WALL_MARGIN ==> q.y == p.y + p.vy * dt
  {
    p.(x := Clamp(p.x + p.vx * dt, WALL_MARGIN, WORLD_W - WALL_MARGIN),
       y := Clamp(p.y + p.vy * dt, WALL_MARGIN, WORLD_H - WALL_MARGIN))
  }

  /** Moves every player; nothing but positions changes. */
  function Integrate(ps: seq<Player>, dt: real): (r: seq<Player>)
    ensures |r| == |ps|
    ensures forall i :: 0 <= i < |ps| ==> r[i] == MovePlayer(ps[i], dt)
  {
    seq(|ps|, i requires 0 <= i < |ps| => MovePlayer(ps[i], dt))
  }

  /**
   Advances the spawn timer by `dt`; once it reaches the interval a coin with the
   next id appears at (`cx`, `cy`) and the timer restarts from zero (the overshoot
   is discarded).
   */
  function Spawn(s: State, dt: real, cx: real, cy: real): (r: State)
    ensures s.spawnTimer + dt >= COIN_SPAWN_INTERVAL ==>
      && r.coins == s.coins + [Coin(s.coinNextId, cx, cy)]
      && r.coinNextId == s.coinNextId + 1
      && r.spawnTimer == 0.0
    ensures s.spawnTimer + dt < COIN_SPAWN_INTERVAL ==>
      r.coins == s.coins && r.coinNextId == s.coinNextId && r.spawnTimer == s.spawnTimer + dt
    ensures r == s.(coins := r.coins, coinNextId := r.coinNextId, spawnTimer := r.spawnTimer)
  {
    var timer := s.spawnTimer + dt;
    if timer >= COIN_SPAWN_INTERVAL then
      s.(coins := s.coins + [Coin(s.coinNextId, cx, cy)], coinNextId := s.coinNextId + 1, spawnTimer := 0.0)
    else
      s.(spawnTimer := timer)
  }

  /** A spawn step keeps ids unique and increasing, and leaves the timer below the interval. */
  lemma SpawnValid(s: State, dt: real, cx: real, cy: real)
    requires Valid(s)
    ensures Valid(Spawn(s, dt, cx, cy))
    ensures |Spawn(s, dt, cx, cy).coins| <= |s.coins| + 1
    ensures Spawn(s, dt, cx, cy).spawnTimer < COIN_SPAWN_INTERVAL
  {
  }

  /** The squared pickup distance, (PLAYER_RADIUS + COIN_RADIUS)^2. */
  const PICKUP_RANGE_SQ: real := (PLAYER_RADIUS + COIN_RADIUS) * (PLAYER_RADIUS + COIN_RADIUS)

  predicate Touches(c: Coin, p: Player) {
    (c.x - p.x) * (c.x - p.x) + (c.y - p.y) * (c.y - p.y) <= PICKUP_RANGE_SQ
  }

  function FirstToucherFrom(c: Coin, ps: seq<Player>, k: nat): (r: Option<nat>)
    requires k <= |ps|
    ensures r.Some? ==> k <= r.value < |ps| && Touches(c, ps[r.value])
    ensures r.Some? ==> forall i :: k <= i < r.value ==> !Touches(c, ps[i])
    ensures r.None? ==> forall i :: k <= i < |ps| ==> !Touches(c, ps[i])
    decreases |ps| - k
  {
    if k == |ps| then None
    else if Touches(c, ps[k]) then Some(k)
    else FirstToucherFrom(c, ps, k + 1)
  }

  /** The player a coin is awarded to: the first, in iteration order, within pickup range. */
  function FirstToucher(c: Coin, ps: seq<Player>): (r: Option<nat>)
    ensures r.Some? ==> r.value < |ps| && Touches(c, ps[r.value])
    ensures r.Some? ==> forall i :: 0 <= i < r.value ==> !Touches(c, ps[i])
    ensures r.None? <==> forall i :: 0 <= i < |ps| ==> !Touches(c, ps[i])
  {
    FirstToucherFrom(c, ps, 0)
  }

  /** `qs` is `ps` with only scores possibly changed. */
  ghost predicate ScoresOnly(ps: seq<Player>, qs: seq<Player>) {
    && |ps| == |qs|
    && forall i :: 0 <= i < |ps| ==> qs[i] == ps[i].(score := qs[i].score)
  }

  lemma FirstToucherScoresOnly(c: Coin, ps: seq<Player>, qs: seq<Player>)
    requires ScoresOnly(ps, qs)
    ensures FirstToucher(c, qs) == FirstToucher(c, ps)
  {
    assert forall i :: 0 <= i < |ps| ==> (Touches(c, ps[i]) <==> Touches(c, qs[i]));
    var a := FirstToucher(c, ps);
    var b := FirstToucher(c, qs);
    if a.Some? && b.Some? {
      assert Touches(c, qs[a.value]) && Touches(c, ps[b.value]);
    }
  }

  function TotalScore(ps: seq<Player>): nat {
    if |ps| == 0 then 0 else ps[0].score + TotalScore(ps[1..])
  }

  /** Awarding one point to one player raises the total by exactly one. */
  lemma {:induction false} TotalScoreBump(ps: seq<Player>, j: nat)
    requires j < |ps|
    ensures TotalScore(ps[j := ps[j].(score := ps[j].score + 1)]) == TotalScore(ps) + 1
  {
    var qs := ps[j := ps[j].(score := ps[j].score + 1)];
    if j > 0 {
      assert qs[1..] == ps[1..][j - 1 := ps[1..][j - 1].(score := ps[1..][j - 1].score + 1)];
      TotalScoreBump(ps[1..], j - 1);
    } else {
      assert qs[1..] == ps[1..];
    }
  }

  /** The number of coins of `coins` awarded to the player at position `j`. */
  function Wins(coins: seq<Coin>, ps: seq<Player>, j: nat): nat {
    if |coins| == 0 then 0
    else Wins(coins[..|coins| - 1], ps, j) + (if FirstToucher(coins[|coins| - 1], ps) == Some(j) then 1 else 0)
  }

  /** The coins some player is within range of, in their original order (`to_remove`). */
  function Touched(coins: seq<Coin>, ps: seq<Player>): (r: seq<Coin>)
    ensures |r| <= |coins|
    ensures forall c :: c in r <==> c in coins && FirstToucher(c, ps).Some?
  {
    if |coins| == 0 then []
    else
      var last := coins[|coins| - 1];
      assert forall c :: c in coins <==> c in coins[..|coins| - 1] || c == last;
      Touched(coins[..|coins| - 1], ps) + (if FirstToucher(last, ps).Some? then [last] else [])
  }

  /**
   The collision pass over coins in order: each coin within range of some player
   gives exactly one point to the first such player and is recorded for removal.
   Returns the re-scored players and the coins to remove.
   */
  function CollectPass(coins: seq<Coin>, ps: seq<Player>): (r: (seq<Player>, seq<Coin>))
    ensures ScoresOnly(ps, r.0)
    ensures forall j :: 0 <= j < |ps| ==> r.0[j].score == ps[j].score + Wins(coins, ps, j)
    ensures r.1 == Touched(coins, ps)
    ensures TotalScore(r.0) == TotalScore(ps) + |r.1|
  {
    if |coins| == 0 then (ps, [])
    else
      var (ps', removed) := CollectPass(coins[..|coins| - 1], ps);
      var c := coins[|coins| - 1];
      FirstToucherScoresOnly(c, ps, ps');
      match FirstToucher(c, ps')
      case None => (ps', removed)
      case Some(j) =>
        TotalScoreBump(ps', j);
        (ps'[j := ps'[j].(score := ps'[j].score + 1)], removed + [c])
  }

  /**
   `list.remove(c)`: drops the first element equal to `c`, so one occurrence of
   `c` leaves (none when absent) and nothing else changes.
   */
  function RemoveFirst(cs: seq<Coin>, c: Coin): (r: seq<Coin>)
    ensures multiset(r) == multiset(cs) - multiset{c}
    ensures c !in cs ==> r == cs
  {
    if |cs| == 0 then []
    else
      assert cs == [cs[0]] + cs[1..];
      if cs[0] == c then cs[1..]
      else [cs[0]] + RemoveFirst(cs[1..], c)
  }

  /**
   `for c in rs: if c in cs: cs.remove(c)`: as a bag, exactly the difference
   of the coins and the removal list.
   */
  function RemoveEach(cs: seq<Coin>, rs: seq<Coin>): (r: seq<Coin>)
    ensures multiset(r) == multiset(cs) - multiset(rs)
    decreases |rs|
  {
    if |rs| == 0 then cs
    else
      assert rs == [rs[0]] + rs[1..];
      var cs' := if rs[0] in cs then RemoveFirst(cs, rs[0]) else cs;
      assert multiset(cs') == multiset(cs) - multiset{rs[0]};
      RemoveEach(cs', rs[1..])
  }

  /** The coins of `cs` not in `gone`, in their original order. */
  function Without(cs: seq<Coin>, gone: set<Coin>): (r: seq<Coin>)
    ensures forall c :: c in r <==> c in cs && c !in gone
  {
    if |cs| == 0 then []
    else (if cs[0] in gone then [] else [cs[0]]) + Without(cs[1..], gone)
  }

  /** The coins no player is within range of, in their original order. */
  function Untouched(cs: seq<Coin>, ps: seq<Player>): (r: seq<Coin>)
    ensures forall c :: c in r <==> c in cs && forall i :: 0 <= i < |ps| ==> !Touches(c, ps[i])
    ensures CoinIdsIncreasing(cs) ==> CoinIdsIncreasing(r)
  {
    if |cs| == 0 then []
    else
      var rest := Untouched(cs[1..], ps);
      var head := if FirstToucher(cs[0], ps).None? then [cs[0]] else [];
      assert CoinIdsIncreasing(cs) ==> CoinIdsIncreasing(head + rest) by {
        if CoinIdsIncreasing(cs) && head != [] {
          assert CoinIdsIncreasing(cs[1..]);
          forall c | c in rest
            ensures cs[0].id < c.id
          {
            var j :| 0 <= j < |cs[1..]| && cs[1..][j] == c;
            assert cs[j + 1] == c;
          }
          PrependIncreasing(cs[0], rest);
        }
      }
      head + rest
  }

  lemma PrependIncreasing(c: Coin, cs: seq<Coin>)
    requires CoinIdsIncreasing(cs)
    requires forall d :: d in cs ==> c.id < d.id
    ensures CoinIdsIncreasing([c] + cs)
  {
    forall i, j | 0 <= i < j < |[c] + cs|
      ensures ([c] + cs)[i].id < ([c] + cs)[j].id
    {
      if i == 0 {
        assert ([c] + cs)[j] == cs[j - 1];
      }
    }
  }

  ghost predicate Distinct(cs: seq<Coin>) {
    forall i, j :: 0 <= i < j < |cs| ==> cs[i] != cs[j]
  }

  lemma {:induction false} WithoutNothing(cs: seq<Coin>, gone: set<Coin>)
    requires forall c :: c in cs ==> c !in gone
    ensures Without(cs, gone) == cs
  {
    if |cs| > 0 {
      WithoutNothing(cs[1..], gone);
    }
  }

  lemma {:induction false} WithoutDistinct(cs: seq<Coin>, gone: set<Coin>)
    requires Distinct(cs)
    ensures Distinct(Without(cs, gone))
  {
    if |cs| > 0 {
      WithoutDistinct(cs[1..], gone);
      assert cs[0] !in cs[1..];
    }
  }

  lemma {:induction false} WithoutWithout(cs: seq<Coin>, a: set<Coin>, b: set<Coin>)
    ensures Without(Without(cs, a), b) == Without(cs, a + b)
  {
    if |cs| > 0 {
      WithoutWithout(cs[1..], a, b);
      if cs[0] in a {
        assert Without(cs, a) == Without(cs[1..], a);
        assert Without(cs, a + b) == Without(cs[1..], a + b);
      } else {
        var w := Without(cs, a);
        assert w == [cs[0]] + Without(cs[1..], a);
        assert w[0] == cs[0] && w[1..] == Without(cs[1..], a);
        assert Without(w, b) == (if cs[0] in b then [] else [cs[0]]) + Without(w[1..], b);
      }
    }
  }

  /** The set of elements of a sequence. */
  function Elems(rs: seq<Coin>): (r: set<Coin>)
    ensures forall c :: c in r <==> c in rs
  {
    if |rs| == 0 then {} else {rs[0]} + Elems(rs[1..])
  }

  /** On distinct coins `list.remove` of a present coin is filtering it out. */
  lemma {:induction false} RemoveFirstDistinct(cs: seq<Coin>, c: Coin)
    requires Distinct(cs) && c in cs
    ensures RemoveFirst(cs, c) == Without(cs, {c})
  {
    if cs[0] == c {
      WithoutNothing(cs[1..], {c});
    } else {
      RemoveFirstDistinct(cs[1..], c);
    }
  }

  /** On distinct coins the removal loop is a filter by the removal list's elements. */
  lemma {:induction false} RemoveEachDistinct(cs: seq<Coin>, rs: seq<Coin>)
    requires Distinct(cs)
    ensures RemoveEach(cs, rs) == Without(cs, Elems(rs))
    decreases |rs|
  {
    if |rs| == 0 {
      WithoutNothing(cs, {});
    } else {
      var cs' := if rs[0] in cs then RemoveFirst(cs, rs[0]) else cs;
      if rs[0] in cs {
        RemoveFirstDistinct(cs, rs[0]);
      } else {
        WithoutNothing(cs, {rs[0]});
      }
      assert cs' == Without(cs, {rs[0]});
      WithoutDistinct(cs, {rs[0]});
      RemoveEachDistinct(cs', rs[1..]);
      WithoutWithout(cs, {rs[0]}, Elems(rs[1..]));
    }
  }

  /** Filtering by "touched by someone" leaves exactly the untouched coins. */
  lemma {:induction false} WithoutTouched(cs: seq<Coin>, gone: set<Coin>, ps: seq<Player>)
    requires forall c :: c in cs ==> (c in gone <==> FirstToucher(c, ps).Some?)
    ensures Without(cs, gone) == Untouched(cs, ps)
  {
    if |cs| > 0 {
      WithoutTouched(cs[1..], gone, ps);
    }
  }

  lemma IncreasingDistinct(cs: seq<Coin>)
    requires CoinIdsIncreasing(cs)
    ensures Distinct(cs)
  {
  }

  /**
   The collected coins leave the world exactly once: on unique coin ids the
   removal loop leaves precisely the coins no player reached, in order.
   */
  lemma RemovalLeavesUntouched(cs: seq<Coin>, ps: seq<Player>)
    requires CoinIdsIncreasing(cs)
    ensures RemoveEach(cs, Touched(cs, ps)) == Untouched(cs, ps)
  {
    IncreasingDistinct(cs);
    RemoveEachDistinct(cs, Touched(cs, ps));
    WithoutTouched(cs, Elems(Touched(cs, ps)), ps);
  }

  /** Untouched coins plus touched coins account for every coin. */
  lemma {:induction false} TouchedUntouchedSplit(cs: seq<Coin>, ps: seq<Player>)
    ensures |Touched(cs, ps)| + |Untouched(cs, ps)| == |cs|
  {
    if |cs| > 0 {
      TouchedUntouchedSplit(cs[..|cs| - 1], ps);
      TouchedUntouchedSplit(cs[1..], ps);
      UntouchedSnoc(cs, ps);
    }
  }

  lemma {:induction false} UntouchedSnoc(cs: seq<Coin>, ps: seq<Player>)
    requires |cs| > 0
    ensures |Untouched(cs, ps)| == |Untouched(cs[..|cs| - 1], ps)| + (if FirstToucher(cs[|cs| - 1], ps).None? then 1 else 0)
    decreases |cs|
  {
    if |cs| > 1 {
      UntouchedSnoc(cs[1..], ps);
      assert cs[1..][..|cs| - 2] == cs[..|cs| - 1][1..];
      assert cs[1..][|cs| - 2] == cs[|cs| - 1];
    }
  }

  /** The world after the movement and spawn phases of a tick, before collisions. */
  function MovedAndSpawned(s: State, dt: real, cx: real, cy: real): State {
    Spawn(s.(players := Integrate(s.players, dt)), dt, cx, cy)
  }

  /**
   One physics tick of `dt` seconds. `cx`/`cy` are the uniformly drawn position
   of a coin spawned this tick (ignored when none spawns).
   */
  function Tick(s: State, dt: real, cx: real, cy: real): (r: State)
    requires COIN_SPAWN_MARGIN <= cx <= WORLD_W - COIN_SPAWN_MARGIN
    requires COIN_SPAWN_MARGIN <= cy <= WORLD_H - COIN_SPAWN_MARGIN
    ensures |r.players| == |s.players|
    ensures forall i :: 0 <= i < |s.players| ==> InBounds(r.players[i])
    ensures forall i :: 0 <= i < |s.players| ==>
      r.players[i] == MovePlayer(s.players[i], dt).(score := r.players[i].score)
    ensures forall i :: 0 <= i < |s.players| ==> r.players[i].score >= s.players[i].score
    ensures s.coinNextId <= r.coinNextId <= s.coinNextId + 1
    ensures r.nextPid == s.nextPid && r.inbound == s.inbound && r.outbound == s.outbound
  {
    var spawned := MovedAndSpawned(s, dt, cx, cy);
    var (ps, removed) := CollectPass(spawned.coins, spawned.players);
    spawned.(players := ps, coins := RemoveEach(spawned.coins, removed))
  }

  /** Under the invariant, a tick's surviving coins are the untouched ones of the spawn phase. */
  lemma TickUnfold(s: State, dt: real, cx: real, cy: real)
    requires Valid(s)
    requires COIN_SPAWN_MARGIN <= cx <= WORLD_W - COIN_SPAWN_MARGIN
    requires COIN_SPAWN_MARGIN <= cy <= WORLD_H - COIN_SPAWN_MARGIN
    ensures Valid(MovedAndSpawned(s, dt, cx, cy))
    ensures Tick(s, dt, cx, cy).coins == Untouched(MovedAndSpawned(s, dt, cx, cy).coins, Tick(s, dt, cx, cy).players)
    ensures |Touched(MovedAndSpawned(s, dt, cx, cy).coins, MovedAndSpawned(s, dt, cx, cy).players)|
            + |Tick(s, dt, cx, cy).coins| == |MovedAndSpawned(s, dt, cx, cy).coins|
  {
    var spawned := MovedAndSpawned(s, dt, cx, cy);
    var ps := CollectPass(spawned.coins, spawned.players).0;
    assert Valid(s.(players := Integrate(s.players, dt)));
    SpawnValid(s.(players := Integrate(s.players, dt)), dt, cx, cy);
    RemovalLeavesUntouched(spawned.coins, spawned.players);
    TouchedUntouchedSplit(spawned.coins, spawned.players);
    assert forall c :: FirstToucher(c, ps) == FirstToucher(c, spawned.players) by {
      forall c { FirstToucherScoresOnly(c, spawned.players, ps); }
    }
    UntouchedSameToucher(spawned.coins, spawned.players, ps);
  }

  lemma CoinsBelow(cs: seq<Coin>, sub: seq<Coin>, next: int)
    requires forall i :: 0 <= i < |cs| ==> 1 <= cs[i].id < next
    requires forall c :: c in sub ==> c in cs
    ensures forall i :: 0 <= i < |sub| ==> 1 <= sub[i].id < next
  {
    forall i | 0 <= i < |sub|
      ensures 1 <= sub[i].id < next
    {
      assert sub[i] in cs;
    }
  }

  /** Changing only scores keeps the world invariant. */
  lemma RescoredValid(s: State, ps: seq<Player>)
    requires Valid(s) && ScoresOnly(s.players, ps)
    ensures Valid(s.(players := ps))
  {
    assert forall i :: 0 <= i < |ps| ==> ps[i].id == s.players[i].id && InBounds(ps[i]);
  }

  /** Keeping only some of the coins, in increasing id order, keeps the world invariant. */
  lemma FewerCoinsValid(s: State, sub: seq<Coin>)
    requires Valid(s)
    requires forall c :: c in sub ==> c in s.coins
    requires CoinIdsIncreasing(sub)
    ensures Valid(s.(coins := sub))
  {
    CoinsBelow(s.coins, sub, s.coinNextId);
  }

  /** A tick keeps the world invariant. */
  lemma TickValid(s: State, dt: real, cx: real, cy: real)
    requires Valid(s)
    requires COIN_SPAWN_MARGIN <= cx <= WORLD_W - COIN_SPAWN_MARGIN
    requires COIN_SPAWN_MARGIN <= cy <= WORLD_H - COIN_SPAWN_MARGIN
    ensures Valid(Tick(s, dt, cx, cy))
  {
    TickUnfold(s, dt, cx, cy);
    var spawned := MovedAndSpawned(s, dt, cx, cy);
    var ps := CollectPass(spawned.coins, spawned.players).0;
    var r := Tick(s, dt, cx, cy);
    RescoredValid(spawned, ps);
    FewerCoinsValid(spawned.(players := ps), r.coins);
    assert r == spawned.(players := ps).(coins := r.coins);
  }

  /**
   The coins left after a tick are exactly the earlier coins and the one just
   spawned (if any) that no moved player is within range of.
   */
  lemma TickCoins(s: State, dt: real, cx: real, cy: real)
    requires Valid(s)
    requires COIN_SPAWN_MARGIN <= cx <= WORLD_W - COIN_SPAWN_MARGIN
    requires COIN_SPAWN_MARGIN <= cy <= WORLD_H - COIN_SPAWN_MARGIN
    ensures var r := Tick(s, dt, cx, cy);
      forall c :: c in r.coins <==>
        && (c in s.coins || (c == Coin(s.coinNextId, cx, cy) && r.coinNextId == s.coinNextId + 1))
        && forall i :: 0 <= i < |r.players| ==> !Touches(c, r.players[i])
  {
    TickUnfold(s, dt, cx, cy);
  }

  /**
   Every coin that disappears in a tick becomes exactly one point: total score
   plus coins on the board grows only by the coins spawned.
   */
  lemma TickConservesCoins(s: State, dt: real, cx: real, cy: real)
    requires Valid(s)
    requires COIN_SPAWN_MARGIN <= cx <= WORLD_W - COIN_SPAWN_MARGIN
    requires COIN_SPAWN_MARGIN <= cy <= WORLD_H - COIN_SPAWN_MARGIN
    ensures var r := Tick(s, dt, cx, cy);
      TotalScore(r.players) + |r.coins| == TotalScore(s.players) + |s.coins| + (r.coinNextId - s.coinNextId)
  {
    var moved := s.(players := Integrate(s.players, dt));
    var spawned := MovedAndSpawned(s, dt, cx, cy);
    var r := Tick(s, dt, cx, cy);
    TickCoinCount(s, dt, cx, cy);
    TickScoreCount(s, dt, cx, cy);
    assert spawned == Spawn(moved, dt, cx, cy);
    SpawnCount(moved, dt, cx, cy);
    assert r.coinNextId == spawned.coinNextId;
  }

  /** A spawn adds exactly as many coins as it advances the next coin id. */
  lemma SpawnCount(s: State, dt: real, cx: real, cy: real)
    ensures |Spawn(s, dt, cx, cy).coins| == |s.coins| + (Spawn(s, dt, cx, cy).coinNextId - s.coinNextId)
  {
  }

  /** The coins a tick's collision pass collects and the coins left over add up to the spawned ones. */
  lemma TickCoinCount(s: State, dt: real, cx: real, cy: real)
    requires Valid(s)
    requires COIN_SPAWN_MARGIN <= cx <= WORLD_W - COIN_SPAWN_MARGIN
    requires COIN_SPAWN_MARGIN <= cy <= WORLD_H - COIN_SPAWN_MARGIN
    ensures |Touched(MovedAndSpawned(s, dt, cx, cy).coins, MovedAndSpawned(s, dt, cx, cy).players)|
            + |Tick(s, dt, cx, cy).coins| == |MovedAndSpawned(s, dt, cx, cy).coins|
  {
    TickUnfold(s, dt, cx, cy);
  }

  /** A tick raises the total score by exactly the number of coins collected. */
  lemma TickScoreCount(s: State, dt: real, cx: real, cy: real)
    requires COIN_SPAWN_MARGIN <= cx <= WORLD_W - COIN_SPAWN_MARGIN
    requires COIN_SPAWN_MARGIN <= cy <= WORLD_H - COIN_SPAWN_MARGIN
    ensures TotalScore(Tick(s, dt, cx, cy).players)
            == TotalScore(s.players) + |Touched(MovedAndSpawned(s, dt, cx, cy).coins, MovedAndSpawned(s, dt, cx, cy).players)|
  {
    var spawned := MovedAndSpawned(s, dt, cx, cy);
    var pass := CollectPass(spawned.coins, spawned.players);
    assert Tick(s, dt, cx, cy).players == pass.0;
    assert TotalScore(spawned.players) == TotalScore(s.players) by {
      TotalScoreSameScores(s.players, Integrate(s.players, dt));
    }
  }

  lemma {:induction false} TotalScoreSameScores(ps: seq<Player>, qs: seq<Player>)
    requires |ps| == |qs|
    requires forall i :: 0 <= i < |ps| ==> ps[i].score == qs[i].score
    ensures TotalScore(ps) == TotalScore(qs)
  {
    if |ps| > 0 {
      TotalScoreSameScores(ps[1..], qs[1..]);
    }
  }

  lemma {:induction false} UntouchedSameToucher(cs: seq<Coin>, ps: seq<Player>, qs: seq<Player>)
    requires forall c :: FirstToucher(c, qs) == FirstToucher(c, ps)
    ensures Untouched(cs, qs) == Untouched(cs, ps)
  {
    if |cs| > 0 {
      UntouchedSameToucher(cs[1..], ps, qs);
    }
  }

}
