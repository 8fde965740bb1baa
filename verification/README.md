# Coin-collector state synchronisation, modelled in Dafny

This project models the synchronisation core of a small two-player "coin
collector" game: an authoritative server (`server.py`) and a client
(`client.py`). The server runs a fixed-rate physics tick over its players and
coins, ingests inputs, and broadcasts snapshots. Every message passes through a
simulated-latency queue in each direction. The client buffers the snapshots it
receives and renders the world a fixed delay in the past. It blends two
buffered snapshots only when an adjacent pair brackets that moment; otherwise it
shows the newest snapshot as it is. Under the source's constants no pair ever
brackets it, so the blend is never reached (see Findings).

Each locked block of the source is one pure step function over immutable
values. Time, `dt`, random spawn positions and decode results are parameters.
Positions and times are `real`.

- `wrappers.dfy`: the `Option` type.
- `reals.dfy` (`Reals`): `Min` and `Max` on reals, shared by the clamp and the
  interpolator.
- `latency_queue.dfy` (`LatencyQueue`): the delay queue shared by all four
  directions. It holds envelopes `(eligible time, payload)`. `Drain` removes the
  longest due prefix, `DrainLoop` is the source's pop-while-due loop, and
  `DrainUnique` proves that the two agree.
- `protocol.dfy` (`Protocol`): addresses, intents, player views, coins,
  snapshots and decoded messages. A payload is `Option<Message>`; `None` stands
  for bytes that do not decode.
- `server.py` is split by component:
  - `server.dfy` (`Server`): constants, player and world state, and the world
    invariant `Valid`. It also holds pid allocation (`Connect`), disconnect,
    datagram arrival and the outbound send pass.
  - `ingest.dfy` (`Ingest`): turning an intent into a velocity, and the inbound
    ingestion pass.
  - `physics.dfy` (`Physics`): the tick. It covers integration and clamping,
    coin spawning, first-player-wins collisions and the removal loop.
  - `broadcast.dfy` (`Broadcast`): snapshot capture and the per-address
    enqueue.
- `client.py` is split by component:
  - `client.dfy` (`Client`): `send_intent`, the send and receive passes, and the
    snapshot buffer (capacity 200, oldest evicted first).
  - `interpolation.dfy` (`Interpolation`): `get_interpolated_state`.
- `session.dfy` (`Session`): the end of a TCP connection handler. It has the
  keep-alive loop as written and as intended (see Findings), and the server
  steps that can follow it.
- `sync.dfy` (`Sync`): properties that cross the wire, from client to server
  and from server to client.
- `timing.dfy` (`Timing`): how old a snapshot is when the client can render
  it, and what that means for the interpolation delay.

Server players are a sequence ordered by insertion. The source keeps them in a
Python `dict`, which iterates in insertion order. That order decides which
player wins a coin, so it is kept. Snapshot players are a `map`, like the JSON
object they travel as.

Where the code disagrees with its comments or with the design, the model
follows the code:

- An accepted input overwrites the player's address every time
  (`server.py:142`), even though the comment says "if not set".
- The spawn timer resets to `0.0` (`server.py:189`), so the overshoot past
  two seconds is lost.
- The clamp margin is the literal 10 on every axis (`server.py:184-185`), not
  the player radius.
- The keep-alive loop (`server.py:105-110`) waits only on the server's running
  flag, even though the comment says it lasts "until client disconnects". This
  one is recorded under Findings.

## Model

| member | source | states |
|---|---|---|
| LatencyQueue.Enqueue | server.py:121-123 | an entry is appended at the tail with the eligible time it is given and its payload; earlier entries are unchanged |
| LatencyQueue.DueCount | server.py:128 | the number of leading entries that are due: all of them have time <= now and the next one (if any) has time > now |
| LatencyQueue.Drain | server.py:128-129 | delivered ++ remaining == queue, every delivered entry is due, and the remaining head (if any) is not due |
| LatencyQueue.DrainUnique | server.py:128-129 | any split with those three properties is the drain's split, so a drain removes exactly the longest due prefix |
| LatencyQueue.DrainLoop | client.py:145-146 | the pop-while-head-is-due loop delivers the due prefix in FIFO order and leaves the rest untouched; it equals `Drain` |
| LatencyQueue.DrainSortedDeliversAllDue | server.py:122-129 | on a queue sorted by eligible time, an entry is delivered iff its time <= now, and the remainder stays sorted |
| LatencyQueue.EnqueueKeepsSorted | server.py:122-123 | appending with a time no earlier than the tail keeps the queue sorted |
| Server.Init | server.py:53-56 | the started server has no players or coins, `next_pid == coin_next_id == 1`, and satisfies the world invariant |
| Server.FindPlayer | server.py:139 | lookup by pid finds a player with that id and no earlier one, and fails iff no player has the id |
| Server.StorePlayer | server.py:92 | a dict store replaces the player with that id in place, or appends when the id is new |
| Server.NewPlayer | server.py:31-39 | a new player has the given pid and position, is at rest with score 0, input time 0 and no address, and is in bounds when the position was drawn from the spawn range |
| Server.Connect | server.py:88-92 | the new pid equals `next_pid` and was not already a key; `next_pid` strictly increases; the new player is appended at rest with score 0 and no address; the invariant (ids unique and < next_pid) is kept |
| Server.Disconnect | server.py:111-113 | only the player with that pid is removed (nothing happens if absent); everyone else stays; the invariant is kept |
| Server.RemoveAt | server.py:113 | `del` at a position drops exactly that player: one fewer, everyone before it at the same place, everyone after it shifted down by one |
| Server.RemoveAtValid | server.py:111-113 | deleting one player keeps pids increasing and leaves no player with the deleted pid |
| Server.Receive | server.py:120-123 | a received datagram is queued at the tail of the inbound queue with eligible time = arrival clock + SERVER_LATENCY; earlier entries and the world are unchanged |
| Server.Flush | server.py:160-167 | the outbound due prefix is sent in FIFO order; the queue keeps exactly the rest, whose head is not due |
| Ingest.Axis | server.py:144-148 | each axis is a sum of ±1 contributions: in {-1,0,1}, zero iff both or neither key is held, negative iff only the negative key is held |
| Ingest.Direction | server.py:144-148 | each component is in [-1, 1]; x is -1 iff only left is held and +1 iff only right is held; likewise y for up and down |
| Ingest.Magnitude | server.py:150 | the magnitude is the non-negative square root of dx²+dy² |
| Ingest.Velocity | server.py:144-155 | zero velocity iff the keys cancel out or none is held; each component has the sign of the direction; the velocity is parallel to the direction (vx·dy == vy·dx); otherwise the speed is exactly PLAYER_SPEED |
| Ingest.DiagonalNorm | server.py:150-153 | a diagonal direction divided by √2 and scaled has length `speed` |
| Ingest.Normalised | server.py:150-153 | a non-zero direction divided by its magnitude and scaled by PLAYER_SPEED keeps each component's sign, stays parallel to the direction, and has squared length PLAYER_SPEED² |
| Ingest.ApplyInput | server.py:140-156 | an accepted input overwrites the address with the sender's, sets the velocity to the intent's, stamps the input time, and does not change id, position or score |
| Ingest.Handle | server.py:130-157 | an undecodable payload, a non-input type, a missing pid or an unknown pid leaves every player unchanged; otherwise only the addressed player changes |
| Ingest.HandleAll | server.py:128-157 | a pass never changes ids, positions or scores; with no acceptable input it changes nothing; a player with no input addressed to it is unchanged |
| Ingest.LastInputWins | server.py:142-155 | after a pass a player's state is that set by the LAST input addressed to it: later inputs overwrite earlier ones and nothing accumulates |
| Ingest.Ingest | server.py:126-157 | an ingestion pass removes exactly the due prefix of the inbound queue and applies its datagrams, in order, to the players (the players afterwards are HandleAll of the drained payloads); it changes only velocities/addresses/stamps and keeps the world invariant |
| Physics.Clamp | server.py:184-185 | the result lies in [lo, hi], equals v when v is in range, and equals the nearer bound otherwise |
| Physics.MovePlayer | server.py:180-185 | for any dt and start position the player ends in 10 <= x <= W-10, 10 <= y <= H-10; only the position changes; an unclamped move is exact |
| Physics.Integrate | server.py:180-185 | every player is moved by the integration step, none added or dropped |
| Physics.Spawn | server.py:187-194 | once the timer reaches 2.0 exactly one coin with id `coin_next_id` is appended, the counter advances and the timer resets to 0.0; otherwise only the timer grows |
| Physics.SpawnValid | server.py:187-194 | spawning keeps coin ids increasing, adds at most one coin, and leaves the timer below the interval |
| Physics.FirstToucher | server.py:199-206 | a coin goes to the first player in iteration order within squared distance (16+10)², and to nobody iff no player is in range |
| Physics.Touched | server.py:197-206 | the coins marked for removal are exactly those some player reaches |
| Physics.CollectPass | server.py:196-206 | only scores change; each player gains one point per coin it is first to reach; the marked coins are the touched ones; total score rises by exactly the number of marked coins |
| Physics.TotalScoreBump | server.py:204 | one award raises the total score by exactly one |
| Physics.Untouched | server.py:197-210 | the coins no player reaches, in their original order, with increasing ids kept |
| Physics.RemoveFirst | server.py:209-210 | `list.remove(c)` takes one occurrence of c out of the bag of coins, and nothing when c is absent |
| Physics.RemoveEach | server.py:207-210 | the removal loop leaves exactly the bag difference of the coins and the removal list |
| Physics.RemoveFirstDistinct | server.py:208-210 | on distinct coins `list.remove` of a present coin removes exactly that coin |
| Physics.RemoveEachDistinct | server.py:207-210 | on distinct coins the removal loop keeps exactly the coins not in the removal list, in order |
| Physics.RemovalLeavesUntouched | server.py:197-210 | with unique coin ids, removing after the pass leaves exactly the untouched coins in their original order, and no coin is removed twice |
| Physics.Tick | server.py:175-210 | after a tick every player is in bounds, keeps everything but position and score, and has not lost score; at most one coin spawned; queues and pid counter unchanged |
| Physics.TickValid | server.py:175-210 | a tick keeps the world invariant (unique increasing pids and coin ids, players in bounds) |
| Physics.TickCoins | server.py:187-210 | the coins after a tick are exactly the earlier coins plus the newly spawned one, minus those a moved player reaches |
| Physics.TickConservesCoins | server.py:196-210 | each coin is awarded exactly once: total score + coins on the board grows only by the coins spawned |
| Broadcast.SnapshotPlayers | server.py:222 | the snapshot's player keys are exactly the player ids, each mapped to that player's x, y and score |
| Broadcast.Capture | server.py:219-224 | the snapshot carries the capture time, every player's x, y and score, and every coin verbatim |
| Broadcast.Addressed | server.py:228-229 | every recipient has a known address, and there are no more recipients than players |
| Broadcast.AddressedMembers | server.py:228-229 | a player is a recipient iff it is one of the players and its address is known |
| Broadcast.AddressedCount | server.py:228-229 | a player with a known address is a recipient as many times as it occurs among the players; one without an address never is |
| Broadcast.AddressedAppend | server.py:228-229 | recipients follow iteration order: the recipients of a concatenation are those of the first part followed by those of the second |
| Broadcast.EachAddressedOnce | server.py:228-229 | in a valid world each player with a known address is a recipient exactly once, and one without an address never |
| Broadcast.Envelopes | server.py:226-230 | one envelope per recipient, all with the same send time and the same snapshot |
| Broadcast.Cycle | server.py:217-230 | a cycle appends exactly one envelope per addressed player (due at clock + latency, same snapshot) and leaves existing entries and the world unchanged |
| Broadcast.CycleReaches | server.py:228-230 | every player with a known address has one of the cycle's new envelopes queued to that address |
| Broadcast.OneAddressedOneEnvelope | server.py:228-230 | with two players of whom only one has an address, exactly one envelope is queued, to that address |
| Client.Push | client.py:154 | appending never exceeds 200 entries; the new snapshot is last; a full buffer drops its oldest entry |
| Client.LastNAppend | client.py:154 | trimming to the newest n before appending more and trimming again gives the same buffer as trimming once at the end |
| Client.SnapshotsIn | client.py:147-152 | no more snapshots are kept than payloads were delivered |
| Client.SnapshotsInCount | client.py:147-154 | each snapshot is kept exactly as many times as it was delivered as a decoded "snapshot" message; nothing else is kept |
| Client.SnapshotsInAppend | client.py:145-154 | snapshots are kept in receipt order: those of a concatenated delivery are those of the first part followed by those of the second |
| Client.PushAll | client.py:145-154 | after a delivery the buffer is the newest 200 of old buffer ++ delivered snapshots, in receipt order |
| Client.SendIntent | client.py:158-164 | exactly one input envelope (own pid, intent, server address) is appended, deliverable at clock + CLIENT_LATENCY |
| Client.FlushSends | client.py:126-132 | the send pass sends exactly the due prefix in FIFO order and keeps the rest |
| Client.Receive | client.py:137-140 | a received datagram is queued at the tail with eligible time = arrival clock + CLIENT_LATENCY |
| Client.Pump | client.py:144-154 | the receive pass removes exactly the due prefix; only its snapshots reach the buffer, which stays within 200 entries |
| Client.PumpWithoutSnapshots | client.py:147-154 | a delivery with no decodable snapshot leaves the buffer unchanged |
| Interpolation.RenderTime | client.py:172 | the render time is earlier than the clock reading by exactly INTERPOLATION_DELAY |
| Interpolation.FindBracket | client.py:178-183 | the chosen pair is the first adjacent pair with snaps[i].time <= render_time <= snaps[i+1].time; none is found iff no pair brackets it |
| Interpolation.Alpha | client.py:190-193 | alpha lies in [0,1]; it is 1 when t1 <= t0 (no division by zero); inside the bracket t0 + alpha·(t1 - t0) equals the render time |
| Reals.Min | client.py:193 | the minimum is one of its arguments and no greater than either |
| Reals.Max | client.py:193 | the maximum is one of its arguments and no less than either |
| Interpolation.BlendLinear | client.py:199-200 | `p0·(1 - alpha) + p1·alpha` equals p0 + alpha·(p1 - p0); it is p0 at alpha 0 and p1 at alpha 1 |
| Interpolation.BlendConvex | client.py:199-200 | a blend with alpha in [0,1] lies between its endpoints; blending a value with itself returns it |
| Interpolation.BlendPlayers | client.py:195-202 | output pids are exactly s0's; for a pid in both, x = x0 + alpha·(x1 - x0) and y likewise, both between s0's and s1's values, and score is s1's; a pid missing from s1 keeps s0's values exactly |
| Interpolation.BlendTracksTime | client.py:190-200 | inside a proper bracket a player's blended x is x0 + (t - t0)/(t1 - t0)·(x1 - x0), and likewise y |
| Interpolation.RenderAt | client.py:173-202 | the interpolator at a given render time: an empty buffer yields nothing; with no bracketing pair it yields the last snapshot verbatim; otherwise it blends the first bracketing pair and takes s1's coins |
| Interpolation.Interpolate | client.py:168-205 | an empty buffer yields no players and no coins; with no bracketing pair (including a single snapshot) it yields the last snapshot verbatim; otherwise it blends the first bracketing pair and takes s1's coins |
| Interpolation.ThreeTenthsExample | client.py:190-202 | snapshots at t=0 (x=0) and t=1 (x=10) rendered at 0.3 give x = 3 with s1's score |
| Sync.InputRoundTrip | server.py:135-156 | an intent sent by the client and received from its address sets that player's velocity to the intent's, binds the address, and changes no other player |
| Sync.SnapshotRoundTrip | client.py:152-154 | each envelope a broadcast queues, once delivered, makes that cycle's snapshot the newest buffer entry |
| Sync.DeliverOne | client.py:152-154 | a delivery of one decoded snapshot makes that snapshot the newest buffer entry, whatever the buffer held |
| Sync.LeftForHalfASecond | server.py:145-185 | holding only "left" for 0.5 s at 200 px/s moves x by -100, clamped at the wall, and leaves y in place |
| Session.KeepAliveAsWritten | server.py:105-113 | while the server's running flag is set the handler changes nothing, whatever the client did; once it is cleared the player is deleted and the invariant is kept |
| Session.DepartedClientStillServed | server.py:105-113 | as written, a client that has gone while the server runs still has its player, and the next broadcast still queues a snapshot to its address |
| Session.KeepAlive | server.py:105-113 | the intended handler: the player is deleted when the client disconnects or the server stops; nothing changes otherwise; every other player stays; the invariant is kept |
| Session.DepartedClientNotServed | server.py:105-113 | with the intended handler a departed client's player is not in the next snapshot and is not one of its recipients |
| Session.StepKeepsGone | server.py:88-92 | no server step brings back a pid that was handed out and then deleted; each step keeps the world invariant and never lowers `next_pid` below that pid |
| Session.StaysGone | server.py:88-92 | the same across any sequence of handshakes, arrivals, ingest passes, ticks, broadcasts, send passes and other clean-ups |
| Session.DepartedClientNeverServed | server.py:105-113 | with the intended handler a departed client's pid is in no snapshot captured afterwards, whatever the server does in between, and no later broadcast addresses it |
| Session.StepKeepsCoinGone | server.py:186-210 | no server step brings back a coin id that was handed out and is off the board; each step keeps the world invariant |
| Session.TickKeepsCoinGone | server.py:186-210 | after a tick, a coin id that was handed out and was off the board is still below `coin_next_id` and still off the board |
| Session.StaysCollected | server.py:186-210 | the same across any sequence of server steps: a collected coin never reappears |
| Timing.SnapshotAge | server.py:219-230 | the snapshot in a broadcast envelope, once sent when due, received, and processed when due on the client (`client.py:139-145`), is at least SERVER_LATENCY + CLIENT_LATENCY old at the processing time |
| Timing.NeverBracketed | client.py:178-183 | no adjacent pair of a buffer that old brackets a render time later than now − SERVER_LATENCY − CLIENT_LATENCY |
| Timing.NeverBlends | client.py:168-188 | as written (delay 0.1 against a transit of 0.2), every such buffer is rendered as its newest snapshot verbatim; no bracket is ever found |
| Timing.BlendReachable | client.py:172-202 | with the render time `delay` in the past, some buffer the client can hold has a bracketing pair iff delay >= SERVER_LATENCY + CLIENT_LATENCY |
| Timing.CoveredDelayBlends | client.py:172-202 | with a delay above SERVER_LATENCY + CLIENT_LATENCY, some buffer the client can hold is rendered as a blend that differs from its newest snapshot |

## Left out

- Sockets, the TCP accept loop, the handshake and the lobby wait for
  MAX_PLAYERS (`server.py:79-104`, `client.py:95-120`). These are I/O. The
  handshake's results are the client's `pid` and `server` fields.
- Threads, the lock, `time.sleep` cadence and the broadcaster's
  sleep-the-residual timing. Each locked block is one atomic function. `dt`,
  `now` and every clock reading are parameters.
- JSON encoding and decoding. A payload is the decode result
  `Option<Message>`, and a decoded input always carries an int pid and an
  intent of four booleans. So the model cannot express the inputs that make
  the server's ingest thread raise. When that thread dies, inbound processing
  and outbound sends stop for the rest of the run. These inputs are:
  - a JSON value that decodes but is not an object, because `msg.get` raises;
  - a pid that is not hashable, such as a list or an object, because
    `self.players.get(pid)` raises (`server.py:139`);
  - an `"intent"` that is not an object, because `intent.get` raises at
    `server.py:145`. By then line 142 has already overwritten the player's
    address.

  The source reads intent keys by truthiness, so `1` or `"yes"` counts as
  held. The model's booleans stand for that truthiness.
  JSON turns snapshot keys into strings; the model keeps them as ints.
- Client.Pump: the client's crash on a non-object datagram is not modelled.
  `snap.get("type")` at `client.py:152` sits outside the `try` around
  `json.loads`. A datagram that decodes to a list, number, string or `null`
  raises there and ends the receive thread, and no later snapshot is
  buffered. The model treats such a payload like any other non-snapshot
  (`None` or `Other`) and keeps the buffer.
- The lobby wait's failure path: if a client disconnects before the game
  starts, `conn.sendall` at `server.py:102` may raise. If it does, the handler exits
  without the clean-up at `server.py:111-113`, so that player is never
  deleted. If the send succeeds, the handler enters the keep-alive loop, which
  does not delete the player either (see Findings). Session models only the
  keep-alive loop and its clean-up.
- `random.uniform` for player and coin spawn positions. The drawn values are
  parameters, limited to the ranges `random.uniform` draws from.
- Ingest.Velocity: the square root in the normalisation is the parameter
  `root2`, required to satisfy `root2 > 0` and `root2 * root2 == 2`. The only
  magnitudes that occur are 0, 1 and √2. IEEE rounding is not modelled:
  arithmetic is exact `real`.
- Ingest.Ingest: every accepted input in a pass is stamped with the pass's
  clock parameter. The source reads the clock again for each input; the stamp
  is never read by the core.
- The client's `recv_time` field on buffered snapshots. It is written but never
  read by the core.
- Rendering, fonts, key polling and `draw_shape` (`client.py:57-91`,
  `client.py:209-253`).
- The stop flag and the dropping of undelivered envelopes on shutdown.
- DepartedClientNeverServed: envelopes queued to the departed client's
  address before the clean-up stay in the outbound queue and are still sent.
  The lemma speaks only of snapshots captured, and broadcasts made, after it.
- A snapshot message that is missing fields would be buffered and later raise in
  the interpolator. Here a decoded snapshot always has all its fields.
- Sync.SnapshotRoundTrip: the 8192-byte receive buffer (`client.py:138`) is
  not modelled, so the round trip holds for snapshots of any size. The JSON
  snapshot grows with the coins left on the board and passes 8192 bytes at
  roughly 130 uncollected coins, about four and a half minutes of spawns at
  one per two seconds. On Linux the datagram is then silently cut short,
  `json.loads` fails (`client.py:147-150`), and that snapshot and every larger
  one are dropped. On Windows `recvfrom` raises an `OSError` that the
  `except BlockingIOError` at `client.py:141` does not catch, and the receive
  thread ends.
- Timing.SnapshotAge: both ends are taken to read one clock, as they do with
  the client connecting to `127.0.0.1` (`client.py:11`). A client on another
  host with a clock offset is not modelled.

## Findings

| source | as written | input that shows it | evidently intended | confidence | as-written member | corrected member |
|---|---|---|---|---|---|---|
| client.py:172-188 | the render time is `now - INTERPOLATION_DELAY` with a delay of 0.1 (`client.py:15`), but a snapshot stamped at time T is sent no earlier than T + SERVER_LATENCY (`server.py:18`, 0.1) and processed no earlier than T + SERVER_LATENCY + CLIENT_LATENCY (`client.py:14`, 0.1) = T + 0.2, so every buffered snapshot is older than the render time and the blend at lines 190-202 is never reached | any buffer the client holds at clock `now`: its newest snapshot has time <= now − 0.2 < now − 0.1, so no pair satisfies `snaps[i]["time"] <= render_time <= snaps[i+1]["time"]` and line 187 shows the newest snapshot as it is | an interpolation delay at least SERVER_LATENCY + CLIENT_LATENCY (plus the broadcast interval to have a pair on both sides), so the render time falls between buffered snapshots and the client blends | not executed | Timing.NeverBlends | Timing.BlendReachable |
| server.py:105-113 | the keep-alive loop only checks `self.running`, so the handler deletes its player only when the server stops | a client disconnects while the server keeps running: its player stays in the world, and every broadcast still queues a snapshot to its address | the loop ends and the player is deleted when the client disconnects, as the comment at line 105 says | not executed | Session.DepartedClientStillServed | Session.DepartedClientNeverServed |
