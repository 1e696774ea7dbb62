/** The DeliveryManager on its linked lists: every handler and both cleanups change the lists just as
    the session protocol says. */
module Server {
  import opened Wrappers
  import opened LinkedList
  import opened Sessions
  import ReplayBuffer

  // The list's first match is the protocol's lookup.
  lemma FirstToken(conns: seq<Session>, token: int, index: int)
    requires -1 <= index < |conns|
    requires index >= 0 ==> conns[index].token == token && forall j :: 0 <= j < index ==> conns[j].token != token
    requires index < 0 ==> forall j :: 0 <= j < |conns| ==> conns[j].token != token
    ensures index == TokenIndex(conns, token)
  {
    var i := TokenIndex(conns, token);
    if i >= 0 && index >= 0 {
      assert !(i < index) && !(index < i);
    }
  }

  lemma FirstFd(room: seq<int>, fd: int, index: int)
    requires -1 <= index < |room|
    requires index >= 0 ==> room[index] == fd && forall j :: 0 <= j < index ==> room[j] != fd
    requires index < 0 ==> forall j :: 0 <= j < |room| ==> room[j] != fd
    ensures index == FdIndex(room, fd)
  {
    var i := FdIndex(room, fd);
    if i >= 0 && index >= 0 {
      assert !(i < index) && !(index < i);
    }
  }

  method FindToken(connections: List<Session>, token: int) returns (index: int)
    requires connections.Valid()
    ensures index == TokenIndex(connections.contents, token)
  {
    index := connections.Find((c: Session) => c.token == token);
    FirstToken(connections.contents, token, index);
  }

  method FindFd(room: List<int>, fd: int) returns (index: int)
    requires room.Valid()
    ensures index == FdIndex(room.contents, fd)
  {
    index := room.Find((x: int) => x == fd);
    FirstFd(room.contents, fd, index);
  }

  // Removes a descriptor's first entry; a descriptor that is not there changes nothing.
  method DropFd(room: List<int>, fd: int)
    requires room.Valid()
    modifies room.repr
    ensures room.Valid() && room.contents == WithoutFd(old(room.contents), fd) && room.repr == old(room.repr)
  {
    var index := FindFd(room, fd);
    var r := room.Delete(index);
  }

  // Changes a descriptor's first entry to another.
  method RenameFd(room: List<int>, fd: int, fd': int)
    requires room.Valid()
    modifies room.repr
    ensures room.Valid() && room.contents == Renamed(old(room.contents), fd, fd') && room.repr == old(room.repr)
  {
    var index := FindFd(room, fd);
    if index >= 0 {
      room.Set(index, fd');
    }
  }

  // The walk that cleans up the buffer: the next node is taken before the current one is deleted, and
  // the index only moves past packets that stay.
  method CollectOldPackets(buffer: List<Packet>, now: int, lastGc: int) returns (lastGc': int)
    requires buffer.Valid()
    modifies buffer.repr
    ensures buffer.Valid() && buffer.repr == old(buffer.repr)
    ensures now - lastGc < BUFFER_CLEANUP_PERIOD ==> buffer.contents == old(buffer.contents) && lastGc' == lastGc
    ensures now - lastGc >= BUFFER_CLEANUP_PERIOD ==> buffer.contents == Fresh(old(buffer.contents), now) && lastGc' == now
  {
    if now - lastGc < BUFFER_CLEANUP_PERIOD {
      return lastGc;
    }
    hide Walked, Fresh;
    ghost var all, k := buffer.contents, 0;
    var iter, index := buffer.head, 0;
    WalkStart(all, now);
    while iter.next != null
      invariant buffer.Valid() && buffer.repr == old(buffer.repr)
      invariant Walked(buffer.contents, all, k, index, now) && index <= |buffer.contents| && iter == buffer.nodes[index]
      decreases |all| - k
    {
      buffer.AtEnd(index);
      WalkOn(buffer.contents, all, k, index, now);
      if now - iter.data.timestamp > CONN_TIMEOUT {
        iter := iter.next;
        var r := buffer.Delete(index);
      } else {
        iter := iter.next;
        index := index + 1;
      }
      k := k + 1;
    }
    buffer.AtEnd(index);
    WalkEnd(buffer.contents, all, k, index, now);
    lastGc' := now;
  }

  // The first k packets are dealt with, and the walk stands at the next.
  ghost predicate Walked(contents: seq<Packet>, all: seq<Packet>, k: nat, index: nat, now: int) {
    && k <= |all| && index == |Fresh(all[..k], now)|
    && contents == Fresh(all[..k], now) + all[k..]
  }

  lemma WalkStart(all: seq<Packet>, now: int)
    ensures Walked(all, all, 0, 0, now)
  {}

  lemma WalkOn(contents: seq<Packet>, all: seq<Packet>, k: nat, index: nat, now: int)
    requires Walked(contents, all, k, index, now) && index < |contents|
    ensures k < |all| && contents[index] == all[k]
    ensures now - all[k].timestamp > CONN_TIMEOUT ==> Walked(Removed(contents, index), all, k + 1, index, now)
    ensures now - all[k].timestamp <= CONN_TIMEOUT ==> Walked(contents, all, k + 1, index + 1, now)
  {
    var kept := Fresh(all[..k], now);
    assert all[..k + 1][..k] == all[..k];
    assert all[k..] == [all[k]] + all[k + 1..];
    if now - all[k].timestamp > CONN_TIMEOUT {
      assert Removed(contents, index) == kept + all[k + 1..];
    } else {
      assert contents == kept + [all[k]] + all[k + 1..];
    }
  }

  lemma WalkEnd(contents: seq<Packet>, all: seq<Packet>, k: nat, index: nat, now: int)
    requires Walked(contents, all, k, index, now) && index == |contents|
    ensures contents == Fresh(all, now)
  {
    assert all[..k] == all;
  }

  // ---------- the server ----------

  // An empty room for each producer.
  method NewRooms() returns (r0: List<int>, r1: List<int>, r2: List<int>)
    ensures r0.Valid() && r1.Valid() && r2.Valid() && fresh(r0.repr + r1.repr + r2.repr)
    ensures r0.contents == r1.contents == r2.contents == []
    ensures r0 in r0.repr && r1 in r1.repr && r2 in r2.repr
    ensures r0.repr !! r1.repr && r0.repr !! r2.repr && r1.repr !! r2.repr
  {
    hide List.Valid, List.Shaped;
    r0 := new List<int>();
    r1 := new List<int>();
    r2 := new List<int>();
  }

  class DeliveryManager {
    const connections: List<Session>
    const room0: List<int>
    const room1: List<int>
    const room2: List<int>
    const buffer: List<Packet>
    var lastTimeCleanup: int
    var lastGcTime: int
    // Descriptors open, and messages sent.
    ghost var open: set<int>
    ghost var sent: seq<(int, Message)>

    ghost function Frame(): set<object>
      reads this, connections, room0, room1, room2, buffer
    {
      {this} + connections.repr + room0.repr + room1.repr + room2.repr + buffer.repr
    }

    // No list shares a node with another.
    ghost predicate Apart()
      reads this, connections, room0, room1, room2, buffer
    {
      && this !in connections.repr && this !in room0.repr && this !in room1.repr && this !in room2.repr && this !in buffer.repr
      && connections in connections.repr && buffer in buffer.repr
      && room0 in room0.repr && room1 in room1.repr && room2 in room2.repr
      && connections.repr !! room0.repr && connections.repr !! room1.repr && connections.repr !! room2.repr
      && connections.repr !! buffer.repr && room0.repr !! room1.repr && room0.repr !! room2.repr
      && room1.repr !! room2.repr && room0.repr !! buffer.repr && room1.repr !! buffer.repr && room2.repr !! buffer.repr
    }

    ghost predicate Valid()
      reads this, connections, room0, room1, room2, buffer, Frame()
    {
      && Apart()
      && connections.Valid() && room0.Valid() && room1.Valid() && room2.Valid() && buffer.Valid()
    }

    ghost function Rooms(): seq<seq<int>>
      reads room0, room1, room2
    {
      [room0.contents, room1.contents, room2.contents]
    }

    // The protocol state that the lists stand for.
    ghost function Model(): (s: State)
      reads this, connections, room0, room1, room2, buffer
      ensures Shaped(s)
    {
      State(connections.contents, Rooms(), buffer.contents, lastTimeCleanup, lastGcTime, open, sent)
    }

    constructor (now: int)
      ensures Valid() && fresh(Frame()) && Model() == Start(now)
    {
      hide List.Valid, List.Shaped;
      connections := new List<Session>();
      var r0, r1, r2 := NewRooms();
      room0, room1, room2 := r0, r1, r2;
      buffer := new List<Packet>();
      lastTimeCleanup, lastGcTime := now, now;
      open, sent := {}, [];
    }

    method Send(fd: int, m: Message)
      modifies `sent
      ensures sent == old(sent) + [(fd, m)]
    {
      sent := sent + [(fd, m)];
    }

    method Accept(fd: int, token: int, now: int)
      requires Valid()
      modifies `open, `sent, connections.repr
      ensures Valid() && fresh(Frame() - old(Frame())) && Model() == Accepted(old(Model()), fd, token, now)
    {
      Send(fd, ConnAccepted(token));
      open := open + {fd};
      connections.AddLast(Session(now, 0, fd, token));
    }

    method Ack(token: int, now: int)
      requires Valid()
      modifies connections.repr
      ensures Valid() && Frame() == old(Frame()) && Model() == Acked(old(Model()), token, now)
    {
      var index := FindToken(connections, token);
      var connection := connections.Get(index);
      if connection.Some? {
        connections.Set(index, connection.value.(timestamp := now));
      }
    }

    method Produce(id: nat, packet: Packet)
      requires Valid() && id < NO_PRODUCTORES
      modifies `sent, buffer.repr
      ensures Valid() && fresh(Frame() - old(Frame())) && Model() == Produced(old(Model()), id, packet)
    {
      BroadcastRoom(if id == 0 then room0 else if id == 1 then room1 else room2, packet);
      buffer.AddStart(packet);
    }

    method BroadcastRoom(room: List<int>, packet: Packet)
      requires room.Valid() && this !in room.repr
      modifies `sent
      ensures sent == old(sent) + Broadcast(room.contents, packet)
    {
      var iter := room.head;
      ghost var k := 0;
      while iter.next != null
        invariant room.Valid() && k <= |room.contents| && iter == room.nodes[k]
        invariant sent == old(sent) + Broadcast(room.contents[..k], packet)
        decreases |room.contents| - k
      {
        room.AtEnd(k);
        assert Broadcast(room.contents[..k + 1], packet) == Broadcast(room.contents[..k], packet) + [(iter.data, Data(packet))];
        Send(iter.data, Data(packet));
        iter := iter.next;
        k := k + 1;
      }
      room.AtEnd(k);
      assert room.contents[..k] == room.contents;
    }

    method CollectPackets(now: int)
      requires Valid()
      modifies `lastGcTime, buffer.repr
      ensures Valid() && Frame() == old(Frame()) && Model() == PacketsCollected(old(Model()), now)
    {
      lastGcTime := CollectOldPackets(buffer, now, lastGcTime);
    }

    // Every room's first entry of a descriptor becomes another.
    method RenameInRooms(fd: int, fd': int)
      requires Valid()
      modifies room0.repr, room1.repr, room2.repr
      ensures Valid() && Frame() == old(Frame())
      ensures Model() == old(Model()).(rooms := seq(NO_PRODUCTORES, r requires 0 <= r < NO_PRODUCTORES => Renamed(old(Rooms())[r], fd, fd')))
    {
      hide Renamed, List.Valid;
      RenameFd(room0, fd, fd');
      RenameFd(room1, fd, fd');
      RenameFd(room2, fd, fd');
    }

    // Sends again what the buffer has from a time on.
    method Resend(fd: int, since: int)
      requires Valid()
      modifies `sent
      ensures Valid() && Frame() == old(Frame())
      ensures Model() == old(Model()).(sent := old(sent) + Replay(fd, Recent(buffer.contents, since)))
    {
      hide Recent, Replay;
      var iter := buffer.head;
      ghost var k := 0;
      NothingReplayed(fd, buffer.contents, since, sent);
      while iter.next != null
        invariant k <= |buffer.contents| && iter == buffer.nodes[k]
        invariant sent == old(sent) + Replay(fd, Recent(buffer.contents[..k], since))
        decreases |buffer.contents| - k
      {
        buffer.AtEnd(k);
        ReplayOne(fd, buffer.contents, k, since, old(sent));
        if since > iter.data.timestamp {
          iter := iter.next;
          k := k + 1;
          continue;
        }
        Send(fd, Data(iter.data));
        iter := iter.next;
        k := k + 1;
      }
      buffer.AtEnd(k);
      assert buffer.contents[..k] == buffer.contents;
    }

    // Takes up the session of the old token on this descriptor, in place of the one just accepted.
    method Auth(sockfd: int, oldToken: int, newToken: int)
      requires Valid()
      modifies `open, `sent, connections.repr, room0.repr, room1.repr, room2.repr
      ensures Valid() && Frame() == old(Frame()) && Model() == Authed(old(Model()), sockfd, oldToken, newToken)
    {
      hide Renamed, Recent, Replay, TokenIndex, List.Valid;
      var index := FindToken(connections, newToken);
      if index == -1 {
        Send(sockfd, Fin);
        return;
      }
      var r := connections.Delete(index);
      index := FindToken(connections, oldToken);
      if index == -1 {
        Send(sockfd, Fin);
        return;
      }
      MoveSession(index, sockfd);
    }

    // Moves a session, with its subscriptions, to another descriptor, and replays to it.
    method MoveSession(index: nat, sockfd: int)
      requires Valid() && index < |connections.contents|
      modifies `open, `sent, connections.repr, room0.repr, room1.repr, room2.repr
      ensures Valid() && Frame() == old(Frame())
      ensures var c := old(connections.contents[index]);
        Model() == old(Model()).(
          connections := old(connections.contents)[index := c.(sockfd := sockfd)],
          rooms := seq(NO_PRODUCTORES, r requires 0 <= r < NO_PRODUCTORES => Renamed(old(Rooms())[r], c.sockfd, sockfd)),
          open := old(open) - {c.sockfd},
          sent := old(sent) + Replay(sockfd, Recent(old(buffer.contents), c.timestamp)))
    {
      hide Renamed, Recent, Replay, List.Valid;
      var origConn := connections.Get(index);
      var c := origConn.value;
      RenameInRooms(c.sockfd, sockfd);
      open := open - {c.sockfd};
      connections.Set(index, c.(sockfd := sockfd));
      Resend(sockfd, c.timestamp);
    }

    // The room of a producer.
    function Room(productor: nat): List<int>
      requires productor < NO_PRODUCTORES
    {
      if productor == 0 then room0 else if productor == 1 then room1 else room2
    }

    method AddToRoom(productor: nat, fd: int)
      requires Valid() && productor < NO_PRODUCTORES
      modifies Room(productor).repr
      ensures Valid() && fresh(Frame() - old(Frame())) && connections.repr == old(connections.repr)
      ensures Model() == old(Model()).(rooms := old(Rooms())[productor := old(Rooms())[productor] + [fd]])
    {
      hide List.Valid;
      Room(productor).AddLast(fd);
    }

    method DropFromRoom(productor: nat, fd: int)
      requires Valid() && productor < NO_PRODUCTORES
      modifies Room(productor).repr
      ensures Valid() && Frame() == old(Frame()) && connections.repr == old(connections.repr)
      ensures Model() == old(Model()).(rooms := old(Rooms())[productor := WithoutFd(old(Rooms())[productor], fd)])
    {
      hide List.Valid, WithoutFd;
      DropFd(Room(productor), fd);
    }

    // Changes a session in place.
    method Update(index: nat, c: Session)
      requires Valid() && index < |connections.contents|
      modifies connections.repr
      ensures Valid() && Frame() == old(Frame())
      ensures Model() == old(Model()).(connections := old(connections.contents)[index := c])
    {
      hide List.Valid;
      connections.Set(index, c);
    }

    // A subscription: the room, the session's counter and time, and the notice.
    method Enter(index: nat, productor: nat, now: int)
      requires Valid() && index < |connections.contents| && productor < NO_PRODUCTORES
      modifies `sent, connections.repr, Room(productor).repr
      ensures Valid() && fresh(Frame() - old(Frame()))
      ensures var c := old(connections.contents)[index];
        Model() == old(Model()).(
          rooms := old(Rooms())[productor := old(Rooms())[productor] + [c.sockfd]],
          connections := old(connections.contents)[index := c.(suscCounter := c.suscCounter + 1, timestamp := now)],
          sent := old(sent) + [(c.sockfd, CliAccepted)])
    {
      hide List.Valid;
      var found := connections.Get(index);
      var conn := found.value;
      AddToRoom(productor, conn.sockfd);
      ghost var frame, m := Frame(), Model();
      Update(index, conn.(suscCounter := conn.suscCounter + 1, timestamp := now));
      assert Frame() == frame && Model() == m.(connections := m.connections[index := conn.(suscCounter := conn.suscCounter + 1, timestamp := now)]);
      Send(conn.sockfd, CliAccepted);
    }

    method Join(index: nat, productor: int, now: int)
      requires Valid() && index < |connections.contents|
      modifies `sent, connections.repr, room0.repr, room1.repr, room2.repr
      ensures Valid() && fresh(Frame() - old(Frame()))
      ensures Model() == Joined(old(Model()), index, productor, now)
    {
      hide FdIndex, List.Valid;
      var found := connections.Get(index);
      var conn := found.value;
      if productor > NO_PRODUCTORES - 1 || productor < 0 {
        return;
      }
      var at := FindFd(Room(productor), conn.sockfd);
      if at != -1 {
        return;
      }
      Enter(index, productor, now);
    }

    method Depart(index: nat, productor: int, now: int)
      requires Valid() && index < |connections.contents|
      modifies connections.repr, room0.repr, room1.repr, room2.repr
      ensures Valid() && Frame() == old(Frame())
      ensures Model() == Departed(old(Model()), index, productor, now)
    {
      hide FdIndex, WithoutFd, List.Valid;
      var found := connections.Get(index);
      var conn := found.value;
      if productor > NO_PRODUCTORES - 1 || productor < 0 {
        return;
      }
      var at := FindFd(Room(productor), conn.sockfd);
      if at == -1 {
        return;
      }
      DropFromRoom(productor, conn.sockfd);
      Update(index, conn.(suscCounter := conn.suscCounter - 1, timestamp := now));
    }

    // A command from the command line, on the session with a token.
    method Command(cmd: Sessions.Command, token: int, productor: int, now: int)
      requires Valid()
      modifies `sent, connections.repr, room0.repr, room1.repr, room2.repr
      ensures Valid() && fresh(Frame() - old(Frame()))
      ensures Model() == Commanded(old(Model()), cmd, token, productor, now)
    {
      hide TokenIndex, Joined, Departed, List.Valid;
      var index := FindToken(connections, token);
      var found := connections.Get(index);
      if found.None? {
        return;
      }
      match cmd {
        case CmdAdd => Join(index, productor, now);
        case CmdDel => Depart(index, productor, now);
        case CmdOther => Update(index, found.value.(timestamp := now));
      }
    }

    // Drops a descriptor from every room.
    method DropFromRooms(fd: int)
      requires Valid()
      modifies room0.repr, room1.repr, room2.repr
      ensures Valid() && Frame() == old(Frame())
      ensures Model() == old(Model()).(rooms := seq(NO_PRODUCTORES, r requires 0 <= r < NO_PRODUCTORES => WithoutFd(old(Rooms())[r], fd)))
    {
      hide List.Valid, WithoutFd;
      DropFd(room0, fd);
      DropFd(room1, fd);
      DropFd(room2, fd);
    }

    // What an expired session loses: it is told so, leaves every room and is closed.
    method Expel(fd: int)
      requires Valid()
      modifies `open, `sent, room0.repr, room1.repr, room2.repr
      ensures Valid() && Frame() == old(Frame())
      ensures Model() == old(Model()).(
        rooms := seq(NO_PRODUCTORES, r requires 0 <= r < NO_PRODUCTORES => WithoutFd(old(Rooms())[r], fd)),
        open := old(open) - {fd}, sent := old(sent) + [(fd, Fin)])
    {
      hide WithoutFd, List.Valid;
      Send(fd, Fin);
      DropFromRooms(fd);
      open := open - {fd};
    }

    // Expels the session at an index and deletes its entry.
    method ExpelAt(index: nat, fd: int)
      requires Valid() && index < |connections.contents|
      modifies `open, `sent, connections.repr, room0.repr, room1.repr, room2.repr
      ensures Valid() && Frame() == old(Frame()) && Model() == Expelled(old(Model()), index, fd)
      ensures connections.nodes == Removed(old(connections.nodes), index)
    {
      hide WithoutFd, List.Valid;
      Expel(fd);
      var r := connections.Delete(index);
    }

    // The walk that cleans up the sessions; like the other, it takes the next node before deleting.
    method CollectConnections(now: int)
      requires Valid()
      modifies `open, `sent, connections.repr, room0.repr, room1.repr, room2.repr
      ensures Valid() && Frame() == old(Frame()) && Model() == ConnectionsCollected(old(Model()), now)
    {
      hide Partly, ConnectionsCollected, Expelled;
      ghost var s := Model();
      if now - lastTimeCleanup < CONN_TIMEOUT {
        TooEarly(s, now);
        return;
      }
      ghost var k := 0;
      var iter, index := connections.head, 0;
      PartlyStart(s, now);
      while iter.next != null
        invariant Valid() && Frame() == old(Frame()) && lastTimeCleanup == old(lastTimeCleanup)
        invariant Partly(s, Model(), k, index, now) && index <= |connections.contents| && iter == connections.nodes[index]
        decreases |s.connections| - k
      {
        connections.AtEnd(index);
        PartlyOn(s, Model(), k, index, now);
        var conn := iter.data;
        if now - conn.timestamp > CONN_TIMEOUT && conn.suscCounter > 0 {
          iter := iter.next;
          ExpelAt(index, conn.sockfd);
        } else {
          iter := iter.next;
          index := index + 1;
        }
        k := k + 1;
      }
      connections.AtEnd(index);
      PartlyEnd(s, Model(), k, index, now);
    }

    // One event of the loop.
    method Handle(e: Event)
      requires Valid() && (e.Produce? ==> e.id < NO_PRODUCTORES)
      modifies Frame()
      ensures Valid() && fresh(Frame() - old(Frame())) && Model() == Step(old(Model()), e)
    {
      hide List.Valid, Accepted, Acked, Authed, Commanded, Produced, ConnectionsCollected, PacketsCollected;
      match e {
        case Accept(fd, token, now) => Accept(fd, token, now);
        case Ack(token, now) => Ack(token, now);
        case Auth(sockfd, oldToken, newToken, _) => Auth(sockfd, oldToken, newToken);
        case Order(cmd, token, productor, now) => Command(cmd, token, productor, now);
        case Produce(id, packet, _) => Produce(id, packet);
        case Collect(tc, tp) =>
          CollectConnections(tc);
          CollectPackets(tp);
      }
    }
  }

  // The state when the sessions in kept stay, those in rest are still to come, and the descriptors in
  // fds are expelled.
  function Partial(s: State, kept: seq<Session>, rest: seq<Session>, fds: seq<int>): State
    requires Shaped(s)
  {
    s.(connections := kept + rest,
       rooms := seq(NO_PRODUCTORES, r requires 0 <= r < NO_PRODUCTORES => WithoutFds(s.rooms[r], fds)),
       open := s.open - (set fd | fd in fds),
       sent := s.sent + Fins(fds))
  }

  // The cleanup of the sessions, the first k dealt with and the walk at the next.
  ghost predicate Partly(s: State, t: State, k: nat, index: nat, now: int) {
    && Shaped(s) && k <= |s.connections| && index == |Survivors(s.connections[..k], now)|
    && t == Partial(s, Survivors(s.connections[..k], now), s.connections[k..], ExpiredFds(s.connections[..k], now))
  }

  // A session's expulsion, on values.
  function Expelled(t: State, index: nat, fd: int): State
    requires Shaped(t) && index < |t.connections|
  {
    t.(connections := Removed(t.connections, index),
       rooms := seq(NO_PRODUCTORES, r requires 0 <= r < NO_PRODUCTORES => WithoutFd(t.rooms[r], fd)),
       open := t.open - {fd}, sent := t.sent + [(fd, Fin)])
  }

  lemma TooEarly(s: State, now: int)
    requires Shaped(s) && now - s.startTime < CONN_TIMEOUT
    ensures ConnectionsCollected(s, now) == s
  {}

  lemma PartlyStart(s: State, now: int)
    requires Shaped(s)
    ensures Partly(s, s, 0, 0, now)
  {
    assert seq(NO_PRODUCTORES, r requires 0 <= r < NO_PRODUCTORES => WithoutFds(s.rooms[r], [])) == s.rooms;
    assert s.open - (set fd | fd in []) == s.open;
    assert s.sent + Fins([]) == s.sent;
  }

  lemma PartlyOn(s: State, t: State, k: nat, index: nat, now: int)
    requires Partly(s, t, k, index, now) && index < |t.connections|
    ensures k < |s.connections| && t.connections[index] == s.connections[k] && Shaped(t)
    ensures Expired(s.connections[k], now) ==> Partly(s, Expelled(t, index, s.connections[k].sockfd), k + 1, index, now)
    ensures !Expired(s.connections[k], now) ==> Partly(s, t, k + 1, index + 1, now)
  {
    hide Partial, Expelled, Survivors, ExpiredFds;
    var conns := s.connections;
    assert conns[k..] != [] by { NothingLeft(s, t, k, index, now); }
    WalkSplits(conns, k, now);
    StateParts(s, Survivors(conns[..k], now), conns[k..], ExpiredFds(conns[..k], now));
    if Expired(conns[k], now) {
      ExpelOne(s, Survivors(conns[..k], now), conns[k..], ExpiredFds(conns[..k], now));
    } else {
      KeepOne(s, Survivors(conns[..k], now), conns[k..], ExpiredFds(conns[..k], now));
    }
  }

  lemma NothingLeft(s: State, t: State, k: nat, index: nat, now: int)
    requires Partly(s, t, k, index, now) && index < |t.connections|
    ensures k < |s.connections|
  {}

  lemma WalkSplits(conns: seq<Session>, k: nat, now: int)
    requires k < |conns|
    ensures conns[k..][0] == conns[k] && conns[k..][1..] == conns[k + 1..]
    ensures Survivors(conns[..k + 1], now) == Survivors(conns[..k], now) + if Expired(conns[k], now) then [] else [conns[k]]
    ensures ExpiredFds(conns[..k + 1], now) == ExpiredFds(conns[..k], now) + if Expired(conns[k], now) then [conns[k].sockfd] else []
  {
    assert conns[..k + 1][..k] == conns[..k];
  }

  lemma StateParts(s: State, kept: seq<Session>, rest: seq<Session>, fds: seq<int>)
    requires Shaped(s) && rest != []
    ensures Shaped(Partial(s, kept, rest, fds)) && Partial(s, kept, rest, fds).connections == kept + rest
    ensures (kept + rest)[|kept|] == rest[0] && |kept| < |kept + rest|
    ensures kept + [] == kept && fds + [] == fds
  {}

  lemma ExpelOne(s: State, kept: seq<Session>, rest: seq<Session>, fds: seq<int>)
    requires Shaped(s) && rest != []
    ensures var t := Partial(s, kept, rest, fds);
      && Shaped(t) && |kept| < |t.connections|
      && Expelled(t, |kept|, rest[0].sockfd) == Partial(s, kept, rest[1..], fds + [rest[0].sockfd])
  {
    hide WithoutFd;
    var fd := rest[0].sockfd;
    var u, v := Expelled(Partial(s, kept, rest, fds), |kept|, fd), Partial(s, kept, rest[1..], fds + [fd]);
    assert u.connections == v.connections;
    assert (fds + [fd])[..|fds|] == fds;
    assert u.rooms == v.rooms;
    assert Fins(fds + [fd]) == Fins(fds) + [(fd, Fin)];
    assert (set x | x in fds + [fd]) == (set x | x in fds) + {fd};
  }

  lemma KeepOne(s: State, kept: seq<Session>, rest: seq<Session>, fds: seq<int>)
    requires Shaped(s) && rest != []
    ensures Partial(s, kept, rest, fds) == Partial(s, kept + [rest[0]], rest[1..], fds)
  {
    assert kept + rest == kept + [rest[0]] + rest[1..];
  }

  lemma PartlyEnd(s: State, t: State, k: nat, index: nat, now: int)
    requires Partly(s, t, k, index, now) && index == |t.connections| && now - s.startTime >= CONN_TIMEOUT
    ensures t == ConnectionsCollected(s, now)
  {
    assert s.connections[..k] == s.connections;
    assert Survivors(s.connections, now) + [] == Survivors(s.connections, now);
  }

  lemma NothingReplayed(fd: int, buffer: seq<Packet>, since: int, sent: seq<(int, Message)>)
    ensures sent + Replay(fd, Recent(buffer[..0], since)) == sent
  {}

  lemma ReplayOne(fd: int, buffer: seq<Packet>, k: nat, since: int, sent: seq<(int, Message)>)
    requires k < |buffer|
    ensures sent + Replay(fd, Recent(buffer[..k + 1], since))
      == sent + Replay(fd, Recent(buffer[..k], since)) + (if since > buffer[k].timestamp then [] else [(fd, Data(buffer[k]))])
  {
    assert buffer[..k + 1][..k] == buffer[..k];
    var a := Recent(buffer[..k], since);
    assert Replay(fd, a + [buffer[k]]) == Replay(fd, a) + [(fd, Data(buffer[k]))];
  }

  // The server loop over the events of a run.
  lemma RunFrom(start: int, events: seq<Event>)
    requires ReplayBuffer.Valid(events)
    ensures ReplayBuffer.Valid(events[..0]) && ReplayBuffer.Run(start, events[..0]) == Start(start)
    ensures forall k :: 0 <= k <= |events| ==> ReplayBuffer.Valid(events[..k])
  {}

  lemma RunNext(start: int, events: seq<Event>, k: nat)
    requires ReplayBuffer.Valid(events) && k < |events|
    ensures ReplayBuffer.Valid(events[..k]) && ReplayBuffer.Valid(events[..k + 1])
    ensures Shaped(ReplayBuffer.Run(start, events[..k])) && (events[k].Produce? ==> events[k].id < NO_PRODUCTORES)
    ensures ReplayBuffer.Run(start, events[..k + 1]) == Step(ReplayBuffer.Run(start, events[..k]), events[k])
  {
    hide Step;
    assert events[..k + 1][..k] == events[..k];
  }

  method Serve(start: int, events: seq<Event>) returns (server: DeliveryManager)
    requires ReplayBuffer.Valid(events)
    ensures server.Valid() && server.Model() == ReplayBuffer.Run(start, events)
  {
    hide Step, ReplayBuffer.Run, ReplayBuffer.Valid, Shaped, DeliveryManager.Model, DeliveryManager.Valid;
    RunFrom(start, events);
    server := new DeliveryManager(start);
    for k := 0 to |events|
      invariant server.Valid() && fresh(server.Frame()) && server.Model() == ReplayBuffer.Run(start, events[..k])
    {
      RunNext(start, events, k);
      server.Handle(events[k]);
    }
    assert events[..|events|] == events;
  }
}
