/**
 The messages exchanged over the unreliable channel, as the closed variant a
 decoder produces. A payload is what decoding a datagram yields: `None` when the
 bytes are not well-formed, otherwise the decoded message.
 */
module Protocol {

  import opened Wrappers

  /** A UDP endpoint (host, port). */
  datatype Addr = Addr(host: string, port: int)

  /** The four direction keys of one input sample; a missing key reads as false. */
  datatype Intent = Intent(left: bool, right: bool, up: bool, down: bool)

  /** A player's public fields as carried by a snapshot. */
  datatype PlayerView = PlayerView(x: real, y: real, score: int)

  /** A collectible coin: identifier and position. */
  datatype Coin = Coin(id: int, x: real, y: real)

  /** An immutable capture of the authoritative world at `time`. */
  datatype Snapshot = Snapshot(time: real, players: map<int, PlayerView>, coins: seq<Coin>)

  /**
   A decoded message, by its "type" field. An input whose "pid" is missing
   carries `pid == None`; every type other than "input" and "snapshot" is `Other`.
   */
  datatype Message =
    | Input(pid: Option<int>, intent: Intent)
    | SnapshotMsg(snapshot: Snapshot)
    | Other

  /** The decode result of one datagram's bytes. */
  type Payload = Option<Message>

  /** A datagram with the address it came from or goes to. */
  datatype Datagram = Datagram(payload: Payload, addr: Addr)

}
