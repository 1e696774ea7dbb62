/** Who is sent what: the effect of each event on rooms, sessions and messages, told by membership of the
    rooms alone, in every state where rooms and sessions agree; and over a run, that a subscriber is sent
    exactly the packets of the producers whose rooms it is in. */
module Delivery {
  import opened LinkedList
  import opened Sessions
  import opened Subscriptions

  // The messages sent on a descriptor, in order.
  function To(sent: seq<(int, Message)>, fd: int): (ms: seq<Message>)
    ensures |ms| <= |sent|
  {
    if sent == [] then []
    else
      var k := |sent| - 1;
      To(sent[..k], fd) + if sent[k].0 == fd then [sent[k].1] else []
  }

  lemma {:induction false} ToConcat(a: seq<(int, Message)>, b: seq<(int, Message)>, fd: int)
    ensures To(a + b, fd) == To(a, fd) + To(b, fd)
    decreases |b|
  {
    if b == [] {
      assert a + b == a;
    } else {
      var k := |b| - 1;
      ToConcat(a, b[..k], fd);
      assert (a + b)[..|a + b| - 1] == a + b[..k];
    }
  }

  lemma ToOne(fd: int, m: Message, x: int)
    ensures To([(fd, m)], x) == if x == fd then [m] else []
  {
    assert [(fd, m)][..0] == [];
  }

  // One message to each of some descriptors.
  function Each(fds: seq<int>, m: Message): (r: seq<(int, Message)>)
    ensures |r| == |fds|
  {
    seq(|fds|, i requires 0 <= i < |fds| => (fds[i], m))
  }

  lemma {:induction false} ToEach(fds: seq<int>, m: Message, x: int)
    requires NoDuplicates(fds)
    ensures To(Each(fds, m), x) == if x in fds then [m] else []
  {
    if fds != [] {
      var k := |fds| - 1;
      ToEach(fds[..k], m, x);
      assert Each(fds, m)[..k] == Each(fds[..k], m);
      assert x in fds <==> x in fds[..k] || x == fds[k];
    }
  }

  function AsData(packets: seq<Packet>): (ms: seq<Message>)
    ensures |ms| == |packets|
  {
    seq(|packets|, i requires 0 <= i < |packets| => Data(packets[i]))
  }

  lemma {:induction false} ToReplay(fd: int, packets: seq<Packet>, x: int)
    ensures To(Replay(fd, packets), x) == if x == fd then AsData(packets) else []
  {
    if packets != [] {
      var k := |packets| - 1;
      ToReplay(fd, packets[..k], x);
      assert Replay(fd, packets)[..k] == Replay(fd, packets[..k]);
      assert AsData(packets) == AsData(packets[..k]) + [Data(packets[k])];
    }
  }

  // What a descriptor is sent by an event, before and after.
  ghost predicate Hears(s: State, s': State, fd: int, ms: seq<Message>) {
    To(s'.sent, fd) == To(s.sent, fd) + ms
  }

  lemma HearsNothing(s: State, s': State, fd: int)
    requires s'.sent == s.sent
    ensures Hears(s, s', fd, [])
  {}

  // The room membership of a descriptor.
  ghost predicate InRoom(s: State, r: nat, fd: int)
    requires Shaped(s) && r < NO_PRODUCTORES
  {
    fd in s.rooms[r]
  }

  ghost predicate Subscribed(s: State, fd: int)
    requires Shaped(s)
  {
    exists r: nat :: r < NO_PRODUCTORES && InRoom(s, r, fd)
  }

  // A session counts at least one room just when its descriptor is in one.
  lemma SubscribedCounts(s: State, i: nat)
    requires Consistent(s) && Shaped(s) && i < |s.connections|
    ensures s.connections[i].suscCounter > 0 <==> Subscribed(s, s.connections[i].sockfd)
  {
    var fd := s.connections[i].sockfd;
    assert Counted(s.connections[i], s.rooms);
    if fd in s.rooms[0] {
      assert InRoom(s, 0, fd);
    } else if fd in s.rooms[1] {
      assert InRoom(s, 1, fd);
    } else if fd in s.rooms[2] {
      assert InRoom(s, 2, fd);
    }
  }

  // ---------- a producer's packet ----------

  // Each descriptor in the producer's room is sent the packet once, and nobody else anything.
  lemma ProduceDelivers(s: State, id: nat, packet: Packet, now: int, fd: int)
    requires Consistent(s) && Shaped(s) && id < NO_PRODUCTORES
    ensures var s' := Step(s, Produce(id, packet, now));
      && Hears(s, s', fd, if fd in s.rooms[id] then [Data(packet)] else [])
      && s'.rooms == s.rooms && s'.connections == s.connections && s'.open == s.open
      && s'.buffer == [packet] + s.buffer
  {
    RoomNoDuplicates(s, id);
    assert Broadcast(s.rooms[id], packet) == Each(s.rooms[id], Data(packet));
    ToConcat(s.sent, Broadcast(s.rooms[id], packet), fd);
    ToEach(s.rooms[id], Data(packet), fd);
  }

  // ---------- commands ----------

  ghost predicate OnlySession(s: State, s': State, i: nat) {
    && i < |s.connections| == |s'.connections|
    && forall k :: 0 <= k < |s.connections| && k != i ==> s'.connections[k] == s.connections[k]
  }

  // The session's time is now; its descriptor and token are as they were.
  ghost predicate Touched(s: State, s': State, i: nat, now: int)
    requires OnlySession(s, s', i)
  {
    var c, c' := s.connections[i], s'.connections[i];
    c'.timestamp == now && c'.sockfd == c.sockfd && c'.token == c.token
  }

  // An unknown session, a producer that is not there, or a room that has the descriptor already.
  ghost predicate AddInvalid(s: State, token: int, productor: int)
    requires Shaped(s)
  {
    var i := TokenIndex(s.connections, token);
    i < 0 || productor < 0 || productor >= NO_PRODUCTORES || s.connections[i].sockfd in s.rooms[productor]
  }

  ghost predicate DelInvalid(s: State, token: int, productor: int)
    requires Shaped(s)
  {
    var i := TokenIndex(s.connections, token);
    i < 0 || productor < 0 || productor >= NO_PRODUCTORES || s.connections[i].sockfd !in s.rooms[productor]
  }

  // A client added to a producer's room is in it, and is told so; the other rooms and the others in this
  // one are as before.
  lemma AddSubscribes(s: State, token: int, productor: int, now: int, x: int)
    requires Consistent(s) && Shaped(s)
    ensures var s', i := Step(s, Order(CmdAdd, token, productor, now)), TokenIndex(s.connections, token);
      if AddInvalid(s, token, productor) then s' == s
      else
        var fd := s.connections[i].sockfd;
        && (forall r :: 0 <= r < NO_PRODUCTORES ==> (InRoom(s', r, x) <==> InRoom(s, r, x) || (r == productor && x == fd)))
        && Hears(s, s', x, if x == fd then [CliAccepted] else [])
        && OnlySession(s, s', i) && Touched(s, s', i, now) && s'.open == s.open && s'.buffer == s.buffer
  {
    hide Hears, Consistent;
    var s', i := Step(s, Order(CmdAdd, token, productor, now)), TokenIndex(s.connections, token);
    if !AddInvalid(s, token, productor) {
      var fd := s.connections[i].sockfd;
      assert FdIndex(s.rooms[productor], fd) == -1;
      SentOne(s, s', fd, CliAccepted, x);
    }
  }

  lemma SentOne(s: State, s': State, fd: int, m: Message, x: int)
    requires s'.sent == s.sent + [(fd, m)]
    ensures Hears(s, s', x, if x == fd then [m] else [])
  {
    ToConcat(s.sent, [(fd, m)], x);
    ToOne(fd, m, x);
  }

  // A client deleted from a producer's room is no longer in it, silently.
  lemma DelUnsubscribes(s: State, token: int, productor: int, now: int, x: int)
    requires Consistent(s) && Shaped(s)
    ensures var s', i := Step(s, Order(CmdDel, token, productor, now)), TokenIndex(s.connections, token);
      if DelInvalid(s, token, productor) then s' == s
      else
        var fd := s.connections[i].sockfd;
        && (forall r :: 0 <= r < NO_PRODUCTORES ==> (InRoom(s', r, x) <==> InRoom(s, r, x) && !(r == productor && x == fd)))
        && s'.sent == s.sent
        && OnlySession(s, s', i) && Touched(s, s', i, now) && s'.open == s.open && s'.buffer == s.buffer
  {
    hide WithoutFd, Consistent;
    if !DelInvalid(s, token, productor) {
      RoomNoDuplicates(s, productor);
      WithoutFdMembers(s.rooms[productor], s.connections[TokenIndex(s.connections, token)].sockfd);
    }
  }

  // So whatever was asked for, and whether or not it was so already.
  lemma AfterCommand(s: State, token: int, productor: nat, now: int)
    requires Consistent(s) && Shaped(s) && productor < NO_PRODUCTORES && TokenIndex(s.connections, token) >= 0
    ensures var fd := s.connections[TokenIndex(s.connections, token)].sockfd;
      && InRoom(Step(s, Order(CmdAdd, token, productor, now)), productor, fd)
      && !InRoom(Step(s, Order(CmdDel, token, productor, now)), productor, fd)
  {
    hide Step;
    var fd := s.connections[TokenIndex(s.connections, token)].sockfd;
    AddSubscribes(s, token, productor, now, fd);
    DelUnsubscribes(s, token, productor, now, fd);
  }

  // ---------- cleaning up sessions ----------

  // The descriptors to be dropped: the first period is over, the session has been silent too long, and it
  // is in some room.
  ghost predicate Overdue(s: State, now: int, c: Session)
    requires Shaped(s)
  {
    now - s.startTime >= CONN_TIMEOUT && now - c.timestamp > CONN_TIMEOUT && Subscribed(s, c.sockfd)
  }

  ghost function Dropped(s: State, now: int): set<int>
    requires Shaped(s)
  {
    set c | c in s.connections && Overdue(s, now, c) :: c.sockfd
  }

  // The sessions whose descriptors are not among these, in order.
  ghost function Keeping(conns: seq<Session>, fds: set<int>): seq<Session> {
    if conns == [] then []
    else
      var k := |conns| - 1;
      Keeping(conns[..k], fds) + if conns[k].sockfd in fds then [] else [conns[k]]
  }

  // Just those are dropped: each is sent one Fin, is closed and leaves its rooms, and nothing else changes.
  lemma CollectDrops(s: State, now: int, fd: int)
    requires Consistent(s) && Shaped(s)
    ensures var s', fds := ConnectionsCollected(s, now), Dropped(s, now);
      && s'.connections == Keeping(s.connections, fds)
      && (forall r :: 0 <= r < NO_PRODUCTORES ==> (InRoom(s', r, fd) <==> InRoom(s, r, fd) && fd !in fds))
      && Hears(s, s', fd, if fd in fds then [Fin] else [])
      && s'.open == s.open - fds && s'.buffer == s.buffer && s'.lastGc == s.lastGc && s'.startTime == s.startTime
  {
    hide Hears, Consistent, Overdue, ExpiredFds, Survivors, WithoutFds, Fins;
    if now - s.startTime < CONN_TIMEOUT {
      TooEarly(s, now);
      KeepingAll(s.connections);
      HearsNothing(s, s, fd);
      assert s.open - {} == s.open;
    } else {
      var fds := ExpiredFds(s.connections, now);
      DroppedAre(s, now);
      KeepingSurvivors(s, s.connections, now);
      forall r | 0 <= r < NO_PRODUCTORES
        ensures InRoom(ConnectionsCollected(s, now), r, fd) <==> InRoom(s, r, fd) && fd !in Dropped(s, now)
      {
        RoomNoDuplicates(s, r);
        WithoutFdsMembers(s.rooms[r], fds);
      }
      SentFins(s, ConnectionsCollected(s, now), fds, fd);
    }
  }

  lemma TooEarly(s: State, now: int)
    requires Shaped(s) && now - s.startTime < CONN_TIMEOUT
    ensures Dropped(s, now) == {} && ConnectionsCollected(s, now) == s
  {}

  lemma {:induction false} KeepingAll(conns: seq<Session>)
    ensures Keeping(conns, {}) == conns
  {
    if conns != [] {
      KeepingAll(conns[..|conns| - 1]);
    }
  }

  lemma SentFins(s: State, s': State, fds: seq<int>, fd: int)
    requires s'.sent == s.sent + Fins(fds) && NoDuplicates(fds)
    ensures Hears(s, s', fd, if fd in fds then [Fin] else [])
  {
    assert Fins(fds) == Each(fds, Fin);
    ToConcat(s.sent, Fins(fds), fd);
    ToEach(fds, Fin, fd);
  }

  // A session is overdue just when the walk finds it expired.
  lemma OverdueExpired(s: State, now: int, i: nat)
    requires Consistent(s) && Shaped(s) && i < |s.connections| && now - s.startTime >= CONN_TIMEOUT
    ensures Overdue(s, now, s.connections[i]) <==> Expired(s.connections[i], now)
    ensures Overdue(s, now, s.connections[i]) <==> s.connections[i].sockfd in Dropped(s, now)
  {
    hide Subscribed;
    SubscribedCounts(s, i);
    var c := s.connections[i];
    if c.sockfd in Dropped(s, now) {
      var d :| d in s.connections && Overdue(s, now, d) && d.sockfd == c.sockfd;
      var k :| 0 <= k < |s.connections| && s.connections[k] == d;
      OneSession(s, i, k);
    }
  }

  lemma OneSession(s: State, i: nat, k: nat)
    requires Consistent(s) && i < |s.connections| && k < |s.connections| && s.connections[i].sockfd == s.connections[k].sockfd
    ensures i == k
  {}

  lemma DroppedAre(s: State, now: int)
    requires Consistent(s) && Shaped(s) && now - s.startTime >= CONN_TIMEOUT
    ensures var fds := ExpiredFds(s.connections, now);
      NoDuplicates(fds) && (forall fd :: fd in fds <==> fd in Dropped(s, now)) && (set fd | fd in fds) == Dropped(s, now)
  {
    hide Consistent, Overdue, Expired;
    var fds := ExpiredFds(s.connections, now);
    ExpiredFdsAre(s.connections, now);
    ExpiredFdsDistinct(s, s.connections, now);
    forall fd ensures fd in fds <==> fd in Dropped(s, now) {
      if fd in fds {
        var i :| 0 <= i < |s.connections| && s.connections[i].sockfd == fd && Expired(s.connections[i], now);
        OverdueExpired(s, now, i);
      }
      if fd in Dropped(s, now) {
        var c :| c in s.connections && Overdue(s, now, c) && c.sockfd == fd;
        var i :| 0 <= i < |s.connections| && s.connections[i] == c;
        OverdueExpired(s, now, i);
      }
    }
  }

  lemma {:induction false} ExpiredFdsDistinct(s: State, conns: seq<Session>, now: int)
    requires Consistent(s) && conns <= s.connections
    ensures NoDuplicates(ExpiredFds(conns, now))
    decreases |conns|
  {
    if conns != [] {
      var k := |conns| - 1;
      var fds := ExpiredFds(conns[..k], now);
      ExpiredFdsDistinct(s, conns[..k], now);
      ExpiredFdsAre(conns[..k], now);
      forall j | 0 <= j < |fds| ensures fds[j] != conns[k].sockfd {
        assert fds[j] in fds;
        var i :| 0 <= i < k && conns[..k][i].sockfd == fds[j];
        assert s.connections[i] == conns[i] && s.connections[k] == conns[k];
      }
    }
  }

  lemma {:induction false} KeepingSurvivors(s: State, conns: seq<Session>, now: int)
    requires Consistent(s) && Shaped(s) && now - s.startTime >= CONN_TIMEOUT && conns <= s.connections
    ensures Survivors(conns, now) == Keeping(conns, Dropped(s, now))
    decreases |conns|
  {
    hide Consistent, Overdue, Expired, Dropped;
    if conns != [] {
      var k := |conns| - 1;
      KeepingSurvivors(s, conns[..k], now);
      assert s.connections[k] == conns[k];
      OverdueExpired(s, now, k);
    }
  }

  // A session that is in no room, or has been heard from in time, survives.
  lemma Survives(s: State, now: int, i: nat)
    requires Consistent(s) && Shaped(s) && i < |s.connections|
    ensures var c := s.connections[i];
      if !Subscribed(s, c.sockfd) || now - c.timestamp <= CONN_TIMEOUT || now - s.startTime < CONN_TIMEOUT
      then c in ConnectionsCollected(s, now).connections
      else forall d :: d in ConnectionsCollected(s, now).connections ==> d.sockfd != c.sockfd
  {
    hide ConnectionsCollected, Consistent, Subscribed;
    var c := s.connections[i];
    CollectDrops(s, now, c.sockfd);
    KeepingMembers(s.connections, Dropped(s, now));
    if now - s.startTime >= CONN_TIMEOUT {
      OverdueExpired(s, now, i);
    }
  }

  lemma {:induction false} KeepingMembers(conns: seq<Session>, fds: set<int>)
    ensures forall c :: c in Keeping(conns, fds) <==> c in conns && c.sockfd !in fds
  {
    if conns != [] {
      var k := |conns| - 1;
      KeepingMembers(conns[..k], fds);
      assert forall c :: c in conns <==> c in conns[..k] || c == conns[k];
    }
  }

  // Once a period, the packets older than the timeout leave the buffer, and no others.
  lemma {:induction false} FreshAre(buffer: seq<Packet>, now: int)
    ensures forall p :: p in Fresh(buffer, now) <==> p in buffer && now - p.timestamp <= CONN_TIMEOUT
  {
    if buffer != [] {
      var k := |buffer| - 1;
      FreshAre(buffer[..k], now);
      assert forall p :: p in buffer <==> p in buffer[..k] || p == buffer[k];
    }
  }

  lemma OldPacketsLeave(s: State, now: int)
    ensures var s' := PacketsCollected(s, now);
      if now - s.lastGc < BUFFER_CLEANUP_PERIOD then s' == s
      else
        && (forall p :: p in s'.buffer <==> p in s.buffer && now - p.timestamp <= CONN_TIMEOUT)
        && s'.lastGc == now && s'.sent == s.sent && s'.rooms == s.rooms && s'.connections == s.connections
  {
    FreshAre(s.buffer, now);
  }

  // ---------- the other events ----------

  // A client that has just been accepted is told its token and is in no room.
  lemma AcceptGreets(s: State, fd: int, token: int, now: int, x: int)
    requires Consistent(s) && Shaped(s) && fd !in s.open
    ensures var s' := Step(s, Accept(fd, token, now));
      && Hears(s, s', x, if x == fd then [ConnAccepted(token)] else [])
      && s'.rooms == s.rooms && !Subscribed(s', fd) && s'.open == s.open + {fd}
      && s'.connections == s.connections + [Session(now, 0, fd, token)] && s'.buffer == s.buffer
  {
    var s' := Step(s, Accept(fd, token, now));
    SentOne(s, s', fd, ConnAccepted(token), x);
    forall r | 0 <= r < NO_PRODUCTORES ensures !InRoom(s', r, fd) {
      RoomFds(s, r);
    }
  }

  // An acknowledgement keeps its session through every cleanup of the next five seconds, and does nothing else.
  lemma AckKeepsAlive(s: State, token: int, now: int, later: int)
    requires Consistent(s) && Shaped(s) && later <= now + CONN_TIMEOUT
    ensures var s', i := Step(s, Ack(token, now)), TokenIndex(s.connections, token);
      && s' == s.(connections := s'.connections)
      && if i < 0 then s' == s
         else OnlySession(s, s', i) && Touched(s, s', i, now) && s'.connections[i] in ConnectionsCollected(s', later).connections
  {
    hide ConnectionsCollected;
    var s', i := Step(s, Ack(token, now)), TokenIndex(s.connections, token);
    if i >= 0 {
      AckConsistent(s, token, now);
      Survives(s', later, i);
    }
  }

  // A take-over moves the old session to the new descriptor, in its rooms too, and replays to it the packets
  // that are not older than its time; one that fails is told so. Nobody else is sent anything.
  lemma AuthMoves(s: State, sockfd: int, oldToken: int, newToken: int, now: int, x: int)
    requires Consistent(s) && Shaped(s) && EventOk(s, Auth(sockfd, oldToken, newToken, now))
    ensures var s', n := Step(s, Auth(sockfd, oldToken, newToken, now)), TokenIndex(s.connections, newToken);
      if n < 0 || TokenIndex(Rest(s, newToken), oldToken) < 0 then
        Hears(s, s', x, if x == sockfd then [Fin] else []) && s'.rooms == s.rooms && s'.open == s.open
        && s'.connections == if n < 0 then s.connections else Rest(s, newToken)
      else
        var i := TokenIndex(Rest(s, newToken), oldToken);
        var c := Rest(s, newToken)[i];
        && Hears(s, s', x, if x == sockfd then AsData(Recent(s.buffer, c.timestamp)) else [])
        && (forall r :: 0 <= r < NO_PRODUCTORES ==>
          (InRoom(s', r, x) <==> if x == sockfd then InRoom(s, r, c.sockfd) else InRoom(s, r, x) && x != c.sockfd))
        && s'.connections == Rest(s, newToken)[i := c.(sockfd := sockfd)] && s'.open == s.open - {c.sockfd}
  {
    hide Hears, Renamed, Recent, Replay, Consistent;
    var s', n := Step(s, Auth(sockfd, oldToken, newToken, now)), TokenIndex(s.connections, newToken);
    if n < 0 || TokenIndex(Rest(s, newToken), oldToken) < 0 {
      SentOne(s, s', sockfd, Fin, x);
    } else {
      var i := TokenIndex(Rest(s, newToken), oldToken);
      var c := Rest(s, newToken)[i];
      Replayed(s, s', sockfd, Recent(s.buffer, c.timestamp), x);
      assert c in Rest(s, newToken);
      forall r | 0 <= r < NO_PRODUCTORES
        ensures InRoom(s', r, x) <==> if x == sockfd then InRoom(s, r, c.sockfd) else InRoom(s, r, x) && x != c.sockfd
      {
        RoomNoDuplicates(s, r);
        RenamedMembers(s.rooms[r], c.sockfd, sockfd);
        FreeDescriptor(s, sockfd, newToken, oldToken, r);
      }
    }
  }

  // The packets replayed: all that are not older than that time.
  lemma {:induction false} RecentAre(buffer: seq<Packet>, since: int)
    ensures forall p :: p in Recent(buffer, since) <==> p in buffer && p.timestamp >= since
  {
    if buffer != [] {
      var k := |buffer| - 1;
      RecentAre(buffer[..k], since);
      assert forall p :: p in buffer <==> p in buffer[..k] || p == buffer[k];
    }
  }

  lemma Replayed(s: State, s': State, fd: int, packets: seq<Packet>, x: int)
    requires s'.sent == s.sent + Replay(fd, packets)
    ensures Hears(s, s', x, if x == fd then AsData(packets) else [])
  {
    ToConcat(s.sent, Replay(fd, packets), x);
    ToReplay(fd, packets, x);
  }

  // The descriptor of an allowed take-over is in no room yet.
  lemma FreeDescriptor(s: State, sockfd: int, newToken: int, oldToken: int, r: nat)
    requires Consistent(s) && Shaped(s) && r < NO_PRODUCTORES && TakeOverOk(s, sockfd, oldToken, newToken)
    requires TokenIndex(s.connections, newToken) >= 0 && TokenIndex(Rest(s, newToken), oldToken) >= 0
    ensures sockfd !in s.rooms[r]
  {
    hide Consistent;
    var n := TokenIndex(s.connections, newToken);
    DropConsistent(s, n);
    NotInRooms(WithoutSession(s, n), sockfd, r);
  }

  // ---------- over a run ----------

  // An event that leaves a descriptor's rooms alone: no command for its session, no cleanup that drops it,
  // no take-over to it or from it, and no new client on it.
  ghost predicate Spares(s: State, e: Event, fd: int)
    requires Shaped(s)
  {
    match e
    case Accept(fd', _, _) => fd' != fd
    case Ack(_, _) => true
    case Auth(sockfd, oldToken, newToken, _) =>
      sockfd != fd && (TokenIndex(s.connections, newToken) < 0 ||
        var i := TokenIndex(Rest(s, newToken), oldToken); i >= 0 ==> Rest(s, newToken)[i].sockfd != fd)
    case Order(cmd, token, _, _) =>
      cmd == CmdOther || var i := TokenIndex(s.connections, token); i >= 0 ==> s.connections[i].sockfd != fd
    case Produce(_, _, _) => true
    case Collect(tc, _) => fd !in Dropped(s, tc)
  }

  ghost predicate AllSpare(s: State, events: seq<Event>, fd: int)
    decreases |events|
  {
    events == [] || (Shaped(s) && EventOk(s, events[0]) && Spares(s, events[0], fd) && AllSpare(Step(s, events[0]), events[1..], fd))
  }

  // The packets of these producers, in order.
  function PacketsOf(events: seq<Event>, producers: set<nat>): seq<Message> {
    if events == [] then []
    else
      (if events[0].Produce? && events[0].id in producers then [Data(events[0].packet)] else [])
      + PacketsOf(events[1..], producers)
  }

  // The producers whose rooms hold a descriptor.
  ghost function RoomsOf(s: State, fd: int): (rs: set<nat>)
    requires Shaped(s)
    ensures forall r: nat :: r in rs <==> r < NO_PRODUCTORES && InRoom(s, r, fd)
  {
    set r: nat | r < NO_PRODUCTORES && InRoom(s, r, fd)
  }

  // One event that spares the descriptor.
  lemma SparedStep(s: State, e: Event, fd: int)
    requires Consistent(s) && Shaped(s) && EventOk(s, e) && Spares(s, e, fd)
    ensures RoomsOf(Step(s, e), fd) == RoomsOf(s, fd)
    ensures Hears(s, Step(s, e), fd, if e.Produce? && e.id in RoomsOf(s, fd) then [Data(e.packet)] else [])
  {
    hide Consistent, Hears, Step, Dropped, TokenIndex, TakeOverOk;
    match e {
      case Accept(fd', token, now) => SparedAccept(s, fd', token, now, fd);
      case Ack(token, now) => SparedAck(s, token, now, fd);
      case Auth(sockfd, oldToken, newToken, now) => AuthMoves(s, sockfd, oldToken, newToken, now, fd);
      case Order(cmd, token, productor, now) => SparedOrder(s, cmd, token, productor, now, fd);
      case Produce(id, packet, now) => SparedProduce(s, id, packet, now, fd);
      case Collect(tc, tp) => SparedCollect(s, tc, tp, fd);
    }
  }

  lemma SparedAccept(s: State, fd': int, token: int, now: int, fd: int)
    requires Consistent(s) && Shaped(s) && EventOk(s, Accept(fd', token, now)) && fd' != fd
    ensures RoomsOf(Step(s, Accept(fd', token, now)), fd) == RoomsOf(s, fd) && Hears(s, Step(s, Accept(fd', token, now)), fd, [])
  {
    hide Consistent, Hears, Step;
    AcceptGreets(s, fd', token, now, fd);
  }

  lemma SparedAck(s: State, token: int, now: int, fd: int)
    requires Shaped(s)
    ensures RoomsOf(Step(s, Ack(token, now)), fd) == RoomsOf(s, fd) && Hears(s, Step(s, Ack(token, now)), fd, [])
  {
    hide TokenIndex, Hears;
    HearsNothing(s, Step(s, Ack(token, now)), fd);
  }

  lemma SparedProduce(s: State, id: nat, packet: Packet, now: int, fd: int)
    requires Consistent(s) && Shaped(s) && id < NO_PRODUCTORES
    ensures var s' := Step(s, Produce(id, packet, now));
      RoomsOf(s', fd) == RoomsOf(s, fd) && Hears(s, s', fd, if id in RoomsOf(s, fd) then [Data(packet)] else [])
  {
    hide Consistent, Hears, Step;
    ProduceDelivers(s, id, packet, now, fd);
  }

  lemma SparedOrder(s: State, cmd: Command, token: int, productor: int, now: int, fd: int)
    requires Consistent(s) && Shaped(s) && Spares(s, Order(cmd, token, productor, now), fd)
    ensures var s' := Step(s, Order(cmd, token, productor, now)); RoomsOf(s', fd) == RoomsOf(s, fd) && Hears(s, s', fd, [])
  {
    hide Consistent, Hears, TokenIndex, Step, OnlySession, Touched;
    var s' := Step(s, Order(cmd, token, productor, now));
    match cmd {
      case CmdAdd =>
        AddSubscribes(s, token, productor, now, fd);
        if s' == s { HearsNothing(s, s', fd); }
      case CmdDel =>
        DelUnsubscribes(s, token, productor, now, fd);
        HearsNothing(s, s', fd);
      case CmdOther =>
        OtherCommand(s, token, productor, now);
        HearsNothing(s, s', fd);
    }
  }

  // Any other command only moves its session's time.
  lemma OtherCommand(s: State, token: int, productor: int, now: int)
    requires Shaped(s)
    ensures var s', i := Step(s, Order(CmdOther, token, productor, now)), TokenIndex(s.connections, token);
      && s' == s.(connections := s'.connections)
      && if i < 0 then s' == s else OnlySession(s, s', i) && Touched(s, s', i, now)
  {}

  lemma SparedCollect(s: State, tc: int, tp: int, fd: int)
    requires Consistent(s) && Shaped(s) && fd !in Dropped(s, tc)
    ensures var s' := Step(s, Collect(tc, tp)); RoomsOf(s', fd) == RoomsOf(s, fd) && Hears(s, s', fd, [])
  {
    hide Consistent, Dropped, ConnectionsCollected, Fresh;
    CollectDrops(s, tc, fd);
  }

  // A subscriber is sent exactly the packets of the producers whose rooms it is in, once each and in order,
  // for as long as nothing takes it out of them, puts it in others, or drops it.
  lemma {:induction false} SubscriberHears(s: State, events: seq<Event>, s': State, fd: int)
    requires Consistent(s) && Shaped(s) && Reaches(s, events, s') && AllSpare(s, events, fd)
    ensures Shaped(s') && RoomsOf(s', fd) == RoomsOf(s, fd)
    ensures Hears(s, s', fd, PacketsOf(events, RoomsOf(s, fd)))
    decreases |events|
  {
    hide Consistent, Step, Spares, TakeOverOk, To;
    if events != [] {
      var e, rs := events[0], RoomsOf(s, fd);
      SparedStep(s, e, fd);
      StepConsistent(s, e);
      SubscriberHears(Step(s, e), events[1..], s', fd);
      var m := if e.Produce? && e.id in rs then [Data(e.packet)] else [];
      assert To(s.sent, fd) + m + PacketsOf(events[1..], rs) == To(s.sent, fd) + (m + PacketsOf(events[1..], rs));
    }
  }

  // From the first event on: a client that adds itself to a producer's room is told so once, and from then on
  // is sent that producer's packets.
  lemma AddedHears(now: int, before: seq<Event>, s: State, token: int, productor: nat, t: int, events: seq<Event>, s': State)
    requires Reaches(Start(now), before, s) && productor < NO_PRODUCTORES && Shaped(s) && !AddInvalid(s, token, productor)
    requires var s1, fd := Step(s, Order(CmdAdd, token, productor, t)), s.connections[TokenIndex(s.connections, token)].sockfd;
      Reaches(s1, events, s') && AllSpare(s1, events, fd)
    ensures var fd := s.connections[TokenIndex(s.connections, token)].sockfd;
      Hears(s, s', fd, [CliAccepted] + PacketsOf(events, RoomsOf(s, fd) + {productor}))
  {
    hide Consistent, Step, AllSpare, Reaches, PacketsOf, To;
    var s1, fd := Step(s, Order(CmdAdd, token, productor, t)), s.connections[TokenIndex(s.connections, token)].sockfd;
    AlwaysConsistentFromStart(now, before, s);
    AddSubscribes(s, token, productor, t, fd);
    CommandStays(s, token, productor, t);
    assert RoomsOf(s1, fd) == RoomsOf(s, fd) + {productor};
    SubscriberHears(s1, events, s', fd);
    var ps := PacketsOf(events, RoomsOf(s1, fd));
    assert To(s.sent, fd) + [CliAccepted] + ps == To(s.sent, fd) + ([CliAccepted] + ps);
  }

  lemma CommandStays(s: State, token: int, productor: int, t: int)
    requires Consistent(s) && Shaped(s)
    ensures Consistent(Step(s, Order(CmdAdd, token, productor, t)))
  {
    CommandConsistent(s, CmdAdd, token, productor, t);
  }
}
