/** The DeliveryManager's session protocol, on values: what each event does to the sessions, the rooms
    and the replay buffer. */
module Sessions {
  import opened LinkedList

  const CONN_TIMEOUT := 5
  const BUFFER_CLEANUP_PERIOD := 30
  const NO_PRODUCTORES := 3

  datatype Session = Session(timestamp: int, suscCounter: int, sockfd: int, token: int)

  datatype Packet = Packet(timestamp: int, payload: string)

  datatype Message = ConnAccepted(token: int) | CliAccepted | Fin | Data(packet: Packet)

  // Messages sent, with the descriptor each was sent on, and the descriptors open at the server.
  datatype State = State(
    connections: seq<Session>, rooms: seq<seq<int>>, buffer: seq<Packet>,
    startTime: int, lastGc: int, open: set<int>, sent: seq<(int, Message)>)

  ghost predicate Shaped(s: State) {
    |s.rooms| == NO_PRODUCTORES
  }

  // ---------- lookups ----------

  // The first session with a token, or -1.
  function TokenIndex(conns: seq<Session>, token: int): (i: int)
    ensures -1 <= i < |conns|
    ensures i >= 0 ==> conns[i].token == token && forall j :: 0 <= j < i ==> conns[j].token != token
    ensures i < 0 ==> forall j :: 0 <= j < |conns| ==> conns[j].token != token
  {
    if conns == [] then -1
    else
      var i := TokenIndex(conns[..|conns| - 1], token);
      if i >= 0 then i else if conns[|conns| - 1].token == token then |conns| - 1 else -1
  }

  // The first place of a descriptor, or -1.
  function FdIndex(room: seq<int>, fd: int): (i: int)
    ensures -1 <= i < |room|
    ensures i >= 0 ==> room[i] == fd && forall j :: 0 <= j < i ==> room[j] != fd
    ensures i < 0 ==> fd !in room
  {
    if room == [] then -1
    else
      var i := FdIndex(room[..|room| - 1], fd);
      if i >= 0 then i else if room[|room| - 1] == fd then |room| - 1 else -1
  }

  function WithoutFd(room: seq<int>, fd: int): seq<int> {
    var i := FdIndex(room, fd);
    if i < 0 then room else Removed(room, i)
  }

  function WithoutFds(room: seq<int>, fds: seq<int>): seq<int> {
    if fds == [] then room else WithoutFd(WithoutFds(room, fds[..|fds| - 1]), fds[|fds| - 1])
  }

  // The first place of one descriptor given to another.
  function Renamed(room: seq<int>, fd: int, fd': int): (r: seq<int>)
    ensures |r| == |room|
  {
    var i := FdIndex(room, fd);
    if i < 0 then room else room[i := fd']
  }

  // ---------- events ----------

  function Accepted(s: State, fd: int, token: int, now: int): State {
    s.(connections := s.connections + [Session(now, 0, fd, token)],
       open := s.open + {fd},
       sent := s.sent + [(fd, ConnAccepted(token))])
  }

  // An acknowledgement moves its session's time; an unknown token moves nothing.
  function Acked(s: State, token: int, now: int): State {
    var i := TokenIndex(s.connections, token);
    if i < 0 then s
    else s.(connections := s.connections[i := s.connections[i].(timestamp := now)])
  }

  // The packets of a replay: those not older than the session's time, in buffer order.
  function Recent(buffer: seq<Packet>, since: int): (r: seq<Packet>)
    ensures |r| <= |buffer|
  {
    if buffer == [] then []
    else
      var k := |buffer| - 1;
      Recent(buffer[..k], since) + if since > buffer[k].timestamp then [] else [buffer[k]]
  }

  function Replay(fd: int, packets: seq<Packet>): seq<(int, Message)> {
    seq(|packets|, i requires 0 <= i < |packets| => (fd, Data(packets[i])))
  }

  // A client takes up the session of the old token in place of the one just accepted.
  function Authed(s: State, sockfd: int, oldToken: int, newToken: int): State
    requires Shaped(s)
  {
    var n := TokenIndex(s.connections, newToken);
    if n < 0 then s.(sent := s.sent + [(sockfd, Fin)])
    else
      var conns := Removed(s.connections, n);
      var i := TokenIndex(conns, oldToken);
      if i < 0 then s.(connections := conns, sent := s.sent + [(sockfd, Fin)])
      else
        var c := conns[i];
        s.(connections := conns[i := c.(sockfd := sockfd)],
           rooms := seq(NO_PRODUCTORES, r requires 0 <= r < NO_PRODUCTORES => Renamed(s.rooms[r], c.sockfd, sockfd)),
           open := s.open - {c.sockfd},
           sent := s.sent + Replay(sockfd, Recent(s.buffer, c.timestamp)))
  }

  datatype Command = CmdAdd | CmdDel | CmdOther

  // A session joins a producer's room; a room that is not there or already has it changes nothing.
  function Joined(s: State, i: nat, productor: int, now: int): State
    requires Shaped(s) && i < |s.connections|
  {
    var c := s.connections[i];
    if productor > NO_PRODUCTORES - 1 || productor < 0 || FdIndex(s.rooms[productor], c.sockfd) != -1 then s
    else s.(rooms := s.rooms[productor := s.rooms[productor] + [c.sockfd]],
            connections := s.connections[i := c.(suscCounter := c.suscCounter + 1, timestamp := now)],
            sent := s.sent + [(c.sockfd, CliAccepted)])
  }

  // A session leaves a producer's room.
  function Departed(s: State, i: nat, productor: int, now: int): State
    requires Shaped(s) && i < |s.connections|
  {
    var c := s.connections[i];
    if productor > NO_PRODUCTORES - 1 || productor < 0 || FdIndex(s.rooms[productor], c.sockfd) == -1 then s
    else s.(rooms := s.rooms[productor := WithoutFd(s.rooms[productor], c.sockfd)],
            connections := s.connections[i := c.(suscCounter := c.suscCounter - 1, timestamp := now)])
  }

  // A command names a session by its token. A command that makes no sense leaves the session's time
  // as it was; any other moves it.
  function Commanded(s: State, cmd: Command, token: int, productor: int, now: int): State
    requires Shaped(s)
  {
    var i := TokenIndex(s.connections, token);
    if i < 0 then s
    else
      match cmd
      case CmdAdd => Joined(s, i, productor, now)
      case CmdDel => Departed(s, i, productor, now)
      case CmdOther => s.(connections := s.connections[i := s.connections[i].(timestamp := now)])
  }

  function Broadcast(room: seq<int>, packet: Packet): seq<(int, Message)> {
    seq(|room|, i requires 0 <= i < |room| => (room[i], Data(packet)))
  }

  // A producer's packet goes to its room and to the head of the buffer.
  function Produced(s: State, id: nat, packet: Packet): State
    requires Shaped(s) && id < NO_PRODUCTORES
  {
    s.(buffer := [packet] + s.buffer, sent := s.sent + Broadcast(s.rooms[id], packet))
  }

  predicate Expired(c: Session, now: int) {
    now - c.timestamp > CONN_TIMEOUT && c.suscCounter > 0
  }

  function Survivors(conns: seq<Session>, now: int): (r: seq<Session>)
    ensures |r| <= |conns|
    ensures forall c :: c in r <==> c in conns && !Expired(c, now)
  {
    if conns == [] then []
    else
      var k := |conns| - 1;
      Survivors(conns[..k], now) + if Expired(conns[k], now) then [] else [conns[k]]
  }

  function ExpiredFds(conns: seq<Session>, now: int): seq<int> {
    if conns == [] then []
    else
      var k := |conns| - 1;
      ExpiredFds(conns[..k], now) + if Expired(conns[k], now) then [conns[k].sockfd] else []
  }

  function Fins(fds: seq<int>): seq<(int, Message)> {
    seq(|fds|, i requires 0 <= i < |fds| => (fds[i], Fin))
  }

  // Subscribed sessions that have been silent too long are told so, dropped and closed.
  function ConnectionsCollected(s: State, now: int): State
    requires Shaped(s)
  {
    if now - s.startTime < CONN_TIMEOUT then s
    else
      var fds := ExpiredFds(s.connections, now);
      s.(connections := Survivors(s.connections, now),
         rooms := seq(NO_PRODUCTORES, r requires 0 <= r < NO_PRODUCTORES => WithoutFds(s.rooms[r], fds)),
         open := s.open - (set fd | fd in fds),
         sent := s.sent + Fins(fds))
  }

  function Fresh(buffer: seq<Packet>, now: int): (r: seq<Packet>)
    ensures |r| <= |buffer|
  {
    if buffer == [] then []
    else
      var k := |buffer| - 1;
      Fresh(buffer[..k], now) + if now - buffer[k].timestamp > CONN_TIMEOUT then [] else [buffer[k]]
  }

  // Old packets leave the buffer, at most once a period.
  function PacketsCollected(s: State, now: int): State {
    if now - s.lastGc < BUFFER_CLEANUP_PERIOD then s
    else s.(buffer := Fresh(s.buffer, now), lastGc := now)
  }

  datatype Event =
    | Accept(fd: int, token: int, now: int)
    | Ack(token: int, now: int)
    | Auth(sockfd: int, oldToken: int, newToken: int, now: int)
    | Order(cmd: Command, token: int, productor: int, now: int)
    | Produce(id: nat, packet: Packet, now: int)
    | Collect(tc: int, tp: int)

  function Step(s: State, e: Event): (r: State)
    requires Shaped(s) && (e.Produce? ==> e.id < NO_PRODUCTORES)
    ensures Shaped(r)
  {
    match e
    case Accept(fd, token, now) => Accepted(s, fd, token, now)
    case Ack(token, now) => Acked(s, token, now)
    case Auth(sockfd, oldToken, newToken, _) => Authed(s, sockfd, oldToken, newToken)
    case Order(cmd, token, productor, now) => Commanded(s, cmd, token, productor, now)
    case Produce(id, packet, _) => Produced(s, id, packet)
    case Collect(tc, tp) => PacketsCollected(ConnectionsCollected(s, tc), tp)
  }

  function Start(now: int): (s: State)
    ensures Shaped(s)
  {
    State([], [[], [], []], [], now, now, {}, [])
  }
}
