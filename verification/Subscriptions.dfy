/** The rooms and the sessions agree: every descriptor in a room belongs to exactly one session, once,
    and a session counts the rooms it is in. Most events keep this; for accepting a client and for
    taking up an old session the exact conditions are given. */
module Subscriptions {
  import opened LinkedList
  import opened Sessions

  function Holds(room: seq<int>, fd: int): (n: nat)
    ensures n <= 1
  {
    if fd in room then 1 else 0
  }

  // How many rooms hold a descriptor.
  function RoomsHolding(rooms: seq<seq<int>>, fd: int): (n: nat)
    requires |rooms| == NO_PRODUCTORES
  {
    Holds(rooms[0], fd) + Holds(rooms[1], fd) + Holds(rooms[2], fd)
  }

  ghost predicate NoDuplicates(room: seq<int>) {
    forall i, j :: 0 <= i < j < |room| ==> room[i] != room[j]
  }

  // Some session has the descriptor.
  ghost predicate Owned(conns: seq<Session>, fd: int) {
    exists i :: 0 <= i < |conns| && conns[i].sockfd == fd
  }

  ghost predicate Distinct(conns: seq<Session>) {
    forall i, j :: 0 <= i < j < |conns| ==> conns[i].sockfd != conns[j].sockfd
  }

  ghost predicate RoomOk(room: seq<int>, conns: seq<Session>) {
    NoDuplicates(room) && forall i :: 0 <= i < |room| ==> Owned(conns, room[i])
  }

  ghost predicate Counted(c: Session, rooms: seq<seq<int>>)
    requires |rooms| == NO_PRODUCTORES
  {
    c.suscCounter == RoomsHolding(rooms, c.sockfd)
  }

  ghost predicate Consistent(s: State) {
    && Shaped(s)
    && Distinct(s.connections)
    && (forall i :: 0 <= i < |s.connections| ==>
      s.connections[i].sockfd >= 0 && s.connections[i].sockfd in s.open && Counted(s.connections[i], s.rooms))
    && forall r :: 0 <= r < NO_PRODUCTORES ==> RoomOk(s.rooms[r], s.connections)
  }

  lemma StartConsistent(now: int)
    ensures Consistent(Start(now))
  {}

  // The kernel hands out a descriptor that is not open, or -1 when accept fails; the server registers
  // a session either way.
  lemma AcceptConsistent(s: State, fd: int, token: int, now: int)
    requires Consistent(s) && fd >= -1 && fd !in s.open
    ensures Consistent(Accepted(s, fd, token, now)) <==> fd != -1
  {
    var s' := Accepted(s, fd, token, now);
    var n := |s.connections|;
    if fd != -1 {
      forall r | 0 <= r < NO_PRODUCTORES ensures RoomOk(s'.rooms[r], s'.connections) && fd !in s.rooms[r] {
        RoomFds(s, r);
        forall i | 0 <= i < |s.rooms[r]| ensures Owned(s'.connections, s.rooms[r][i]) {
          var k :| 0 <= k < n && s.connections[k].sockfd == s.rooms[r][i];
          assert s'.connections[k] == s.connections[k];
        }
      }
    } else {
      assert s'.connections[n].sockfd == -1;
    }
  }

  // Room descriptors are open.
  lemma RoomFds(s: State, r: nat)
    requires Consistent(s) && r < NO_PRODUCTORES
    ensures forall fd :: fd in s.rooms[r] ==> fd in s.open && fd >= 0
  {
    forall fd | fd in s.rooms[r] ensures fd in s.open && fd >= 0 {
      var i :| 0 <= i < |s.rooms[r]| && s.rooms[r][i] == fd;
      assert Owned(s.connections, s.rooms[r][i]);
    }
  }

  // Sessions that keep their descriptors and counters keep the agreement.
  lemma UpdateConsistent(s: State, s': State)
    requires Consistent(s) && |s'.connections| == |s.connections| && s'.rooms == s.rooms && s'.open == s.open
    requires forall i :: 0 <= i < |s.connections| ==> SameSubscriptions(s.connections[i], s'.connections[i])
    ensures Consistent(s')
  {
    forall r | 0 <= r < NO_PRODUCTORES ensures RoomOk(s'.rooms[r], s'.connections) {
      SameOwners(s.rooms[r], s.connections, s'.connections);
    }
    forall i | 0 <= i < |s'.connections|
      ensures s'.connections[i].sockfd >= 0 && s'.connections[i].sockfd in s'.open && Counted(s'.connections[i], s'.rooms)
    {
      assert SameSubscriptions(s.connections[i], s'.connections[i]) && Counted(s.connections[i], s.rooms);
    }
  }

  ghost predicate SameSubscriptions(c: Session, c': Session) {
    c'.sockfd == c.sockfd && c'.suscCounter == c.suscCounter
  }

  lemma SameOwners(room: seq<int>, conns: seq<Session>, conns': seq<Session>)
    requires RoomOk(room, conns) && |conns| == |conns'|
    requires forall i :: 0 <= i < |conns| ==> conns'[i].sockfd == conns[i].sockfd
    ensures RoomOk(room, conns')
  {
    forall i | 0 <= i < |room| ensures Owned(conns', room[i]) {
      assert Owned(conns, room[i]);
      var k :| 0 <= k < |conns| && conns[k].sockfd == room[i];
      assert conns'[k].sockfd == room[i];
    }
  }

  lemma WithoutFdMembers(room: seq<int>, fd: int)
    requires NoDuplicates(room)
    ensures NoDuplicates(WithoutFd(room, fd))
    ensures forall x :: x in WithoutFd(room, fd) <==> x in room && x != fd
  {
    var r, i := WithoutFd(room, fd), FdIndex(room, fd);
    if i >= 0 {
      forall x ensures x in r <==> x in room && x != fd {
        if x in room && x != fd {
          var k :| 0 <= k < |room| && room[k] == x;
          assert r[if k < i then k else k - 1] == x;
        }
      }
    }
  }

  lemma {:induction false} WithoutFdsMembers(room: seq<int>, fds: seq<int>)
    requires NoDuplicates(room)
    ensures NoDuplicates(WithoutFds(room, fds))
    ensures forall x :: x in WithoutFds(room, fds) <==> x in room && x !in fds
  {
    if fds != [] {
      var k := |fds| - 1;
      WithoutFdsMembers(room, fds[..k]);
      WithoutFdMembers(WithoutFds(room, fds[..k]), fds[k]);
      assert forall x :: x in fds <==> x in fds[..k] || x == fds[k];
    }
  }

  // Adding or deleting a subscription changes one room, one counter, and nothing else.
  lemma RoomChanged(s: State, s': State, i: nat, productor: nat, fd: int)
    requires Consistent(s) && Shaped(s') && i < |s.connections| && productor < NO_PRODUCTORES && s.connections[i].sockfd == fd
    requires s'.open == s.open && |s'.connections| == |s.connections|
    requires forall k :: 0 <= k < |s.connections| ==> s'.connections[k].sockfd == s.connections[k].sockfd
    requires forall k :: 0 <= k < |s.connections| && k != i ==> s'.connections[k] == s.connections[k]
    requires s'.connections[i].suscCounter
      == s.connections[i].suscCounter - Holds(s.rooms[productor], fd) + Holds(s'.rooms[productor], fd)
    requires forall r :: 0 <= r < NO_PRODUCTORES && r != productor ==> s'.rooms[r] == s.rooms[r]
    requires NoDuplicates(s'.rooms[productor])
    requires forall x :: x != fd ==> (x in s'.rooms[productor] <==> x in s.rooms[productor])
    ensures Consistent(s')
  {
    forall r | 0 <= r < NO_PRODUCTORES ensures RoomOk(s'.rooms[r], s'.connections) {
      if r != productor {
        SameOwners(s.rooms[r], s.connections, s'.connections);
      } else {
        forall k | 0 <= k < |s'.rooms[r]| ensures Owned(s'.connections, s'.rooms[r][k]) {
          ChangedOwner(s, s', i, productor, fd, s'.rooms[r][k]);
        }
      }
    }
    forall k | 0 <= k < |s'.connections| ensures Counted(s'.connections[k], s'.rooms) {
      assert Counted(s.connections[k], s.rooms);
      if k != i {
        assert s.connections[k].sockfd != fd;
      }
    }
  }

  lemma ChangedOwner(s: State, s': State, i: nat, productor: nat, fd: int, x: int)
    requires Consistent(s) && Shaped(s') && i < |s.connections| && productor < NO_PRODUCTORES && s.connections[i].sockfd == fd
    requires |s'.connections| == |s.connections|
    requires forall k :: 0 <= k < |s.connections| ==> s'.connections[k].sockfd == s.connections[k].sockfd
    requires x == fd || x in s.rooms[productor]
    ensures Owned(s'.connections, x)
  {
    if x == fd {
      assert s'.connections[i].sockfd == fd;
    } else {
      var j :| 0 <= j < |s.rooms[productor]| && s.rooms[productor][j] == x;
      assert Owned(s.connections, s.rooms[productor][j]);
      var k :| 0 <= k < |s.connections| && s.connections[k].sockfd == x;
      assert s'.connections[k].sockfd == x;
    }
  }

  // Commands keep the agreement, valid or not.
  lemma CommandConsistent(s: State, cmd: Command, token: int, productor: int, now: int)
    requires Consistent(s) && Shaped(s)
    ensures Consistent(Commanded(s, cmd, token, productor, now))
  {
    hide Consistent, RoomsHolding;
    var s', i := Commanded(s, cmd, token, productor, now), TokenIndex(s.connections, token);
    if i >= 0 && s' != s {
      var fd := s.connections[i].sockfd;
      match cmd {
        case CmdAdd =>
          RoomNoDuplicates(s, productor);
          assert FdIndex(s.rooms[productor], fd) == -1;
          RoomChanged(s, s', i, productor, fd);
        case CmdDel =>
          RoomNoDuplicates(s, productor);
          WithoutFdMembers(s.rooms[productor], fd);
          RoomChanged(s, s', i, productor, fd);
        case CmdOther => UpdateConsistent(s, s');
      }
    }
  }

  lemma RoomNoDuplicates(s: State, r: nat)
    requires Consistent(s) && r < NO_PRODUCTORES
    ensures NoDuplicates(s.rooms[r])
  {
    assert RoomOk(s.rooms[r], s.connections);
  }

  lemma AckConsistent(s: State, token: int, now: int)
    requires Consistent(s)
    ensures Consistent(Acked(s, token, now))
  {
    hide Consistent;
    var i := TokenIndex(s.connections, token);
    UpdateConsistent(s, Acked(s, token, now));
  }

  // ---------- cleaning up sessions ----------

  lemma {:induction false} ExpiredFdsAre(conns: seq<Session>, now: int)
    ensures forall fd :: fd in ExpiredFds(conns, now) <==> exists i :: 0 <= i < |conns| && conns[i].sockfd == fd && Expired(conns[i], now)
  {
    if conns != [] {
      var k := |conns| - 1;
      ExpiredFdsAre(conns[..k], now);
      var fds, fds' := ExpiredFds(conns[..k], now), ExpiredFds(conns, now);
      forall i | 0 <= i < |conns| && Expired(conns[i], now) ensures conns[i].sockfd in fds' {
        assert i < k ==> conns[..k][i] == conns[i];
      }
      forall fd | fd in fds' ensures exists i :: 0 <= i < |conns| && conns[i].sockfd == fd && Expired(conns[i], now) {
        if fd in fds {
          var i :| 0 <= i < k && conns[..k][i].sockfd == fd && Expired(conns[..k][i], now);
          assert conns[i].sockfd == fd && Expired(conns[i], now);
        } else {
          assert conns[k].sockfd == fd && Expired(conns[k], now);
        }
      }
    }
  }

  lemma {:induction false} SurvivorsDistinct(conns: seq<Session>, now: int)
    requires Distinct(conns)
    ensures Distinct(Survivors(conns, now))
  {
    if conns != [] {
      var k := |conns| - 1;
      SurvivorsDistinct(conns[..k], now);
      var r := Survivors(conns[..k], now);
      forall i | 0 <= i < |r| ensures r[i].sockfd != conns[k].sockfd {
        assert r[i] in r && r[i] in conns[..k];
      }
    }
  }

  lemma CollectConsistent(s: State, now: int)
    requires Consistent(s)
    ensures Consistent(ConnectionsCollected(s, now))
  {
    var s' := ConnectionsCollected(s, now);
    if s' != s {
      hide Survivors, WithoutFds, ExpiredFds, RoomsHolding, NoDuplicates, RoomOk, Counted, Fins;
      var fds := ExpiredFds(s.connections, now);
      SurvivorsDistinct(s.connections, now);
      forall i | 0 <= i < |s'.connections|
        ensures s'.connections[i].sockfd >= 0 && s'.connections[i].sockfd in s'.open && Counted(s'.connections[i], s'.rooms)
      {
        assert s'.connections[i] in s'.connections;
        SurvivorCounted(s, now, s'.connections[i]);
      }
      forall r | 0 <= r < NO_PRODUCTORES ensures RoomOk(s'.rooms[r], s'.connections) {
        CollectedRoomOk(s, now, r);
      }
    }
  }

  // The rooms of a session that stays are untouched.
  lemma SurvivorCounted(s: State, now: int, c: Session)
    requires Consistent(s) && c in s.connections && !Expired(c, now)
    ensures c.sockfd >= 0 && c.sockfd in s.open && c.sockfd !in ExpiredFds(s.connections, now)
    ensures Counted(c, seq(NO_PRODUCTORES, r requires 0 <= r < NO_PRODUCTORES => WithoutFds(s.rooms[r], ExpiredFds(s.connections, now))))
  {
    var fds := ExpiredFds(s.connections, now);
    var i :| 0 <= i < |s.connections| && s.connections[i] == c;
    ExpiredFdsAre(s.connections, now);
    assert c.sockfd !in fds;
    forall r | 0 <= r < NO_PRODUCTORES ensures Holds(WithoutFds(s.rooms[r], fds), c.sockfd) == Holds(s.rooms[r], c.sockfd) {
      RoomNoDuplicates(s, r);
      WithoutFdsMembers(s.rooms[r], fds);
    }
    assert Counted(s.connections[i], s.rooms);
  }

  lemma CollectedRoomOk(s: State, now: int, r: nat)
    requires Consistent(s) && r < NO_PRODUCTORES
    ensures RoomOk(WithoutFds(s.rooms[r], ExpiredFds(s.connections, now)), Survivors(s.connections, now))
  {
    var fds, cs := ExpiredFds(s.connections, now), Survivors(s.connections, now);
    var room := WithoutFds(s.rooms[r], fds);
    RoomNoDuplicates(s, r);
    WithoutFdsMembers(s.rooms[r], fds);
    ExpiredFdsAre(s.connections, now);
    forall k | 0 <= k < |room| ensures Owned(cs, room[k]) {
      assert room[k] in room && room[k] in s.rooms[r];
      var j :| 0 <= j < |s.rooms[r]| && s.rooms[r][j] == room[k];
      assert Owned(s.connections, s.rooms[r][j]);
      var i :| 0 <= i < |s.connections| && s.connections[i].sockfd == room[k];
      assert s.connections[i] in cs;
      var m :| 0 <= m < |cs| && cs[m] == s.connections[i];
    }
  }

  // ---------- taking up an old session ----------

  // The sessions once the one just accepted is dropped, and the place of the old one among them.
  function Rest(s: State, newToken: int): seq<Session>
    requires TokenIndex(s.connections, newToken) >= 0
  {
    Removed(s.connections, TokenIndex(s.connections, newToken))
  }

  // What keeps the agreement: the session to be replaced is in no room, and the descriptor the request
  // came on is no other session's.
  predicate TakeOverOk(s: State, sockfd: int, oldToken: int, newToken: int) {
    var n := TokenIndex(s.connections, newToken);
    n < 0 ||
    (s.connections[n].suscCounter == 0 &&
      (TokenIndex(Rest(s, newToken), oldToken) < 0 || forall c :: c in Rest(s, newToken) ==> c.sockfd != sockfd))
  }

  function WithoutSession(s: State, n: nat): State
    requires n < |s.connections|
  {
    s.(connections := Removed(s.connections, n))
  }

  lemma RestElements(conns: seq<Session>, n: nat)
    requires n < |conns|
    ensures forall i :: 0 <= i < |conns| - 1 ==> Removed(conns, n)[i] == conns[if i < n then i else i + 1]
    ensures forall i :: 0 <= i < n ==> conns[i] == Removed(conns, n)[i]
    ensures forall i :: n < i < |conns| ==> conns[i] == Removed(conns, n)[i - 1]
  {
    var r := Removed(conns, n);
    forall i | 0 <= i < |conns| - 1 ensures r[i] == conns[if i < n then i else i + 1] {}
    forall i | n < i < |conns| ensures conns[i] == r[i - 1] {}
  }

  // Dropping a session that is in no room.
  lemma DropConsistent(s: State, n: nat)
    requires Consistent(s) && n < |s.connections| && s.connections[n].suscCounter == 0
    ensures Consistent(WithoutSession(s, n))
  {
    hide RoomOk, RoomsHolding;
    var s' := WithoutSession(s, n);
    RestElements(s.connections, n);
    forall r | 0 <= r < NO_PRODUCTORES ensures RoomOk(s'.rooms[r], s'.connections) {
      assert RoomOk(s.rooms[r], s.connections);
      InNoRoom(s, n, r);
      RoomWithout(s.rooms[r], s.connections, n);
    }
  }

  lemma InNoRoom(s: State, n: nat, r: nat)
    requires Consistent(s) && n < |s.connections| && s.connections[n].suscCounter == 0 && r < NO_PRODUCTORES
    ensures s.connections[n].sockfd !in s.rooms[r]
  {
    hide RoomOk;
    assert Counted(s.connections[n], s.rooms);
  }

  lemma RoomWithout(room: seq<int>, conns: seq<Session>, n: nat)
    requires RoomOk(room, conns) && n < |conns| && conns[n].sockfd !in room
    ensures RoomOk(room, Removed(conns, n))
  {
    RestElements(conns, n);
    forall k | 0 <= k < |room| ensures Owned(Removed(conns, n), room[k]) {
      var i :| 0 <= i < |conns| && conns[i].sockfd == room[k];
      assert Removed(conns, n)[if i < n then i else i - 1].sockfd == room[k];
    }
  }

  lemma RenamedMembers(room: seq<int>, f: int, g: int)
    requires NoDuplicates(room) && f != g
    ensures forall x :: x in Renamed(room, f, g) <==> (x in room && x != f) || (x == g && f in room)
    ensures g !in room || f !in room ==> NoDuplicates(Renamed(room, f, g))
    ensures g in room && f in room ==> !NoDuplicates(Renamed(room, f, g))
  {
    var r, i := Renamed(room, f, g), FdIndex(room, f);
    if i >= 0 {
      assert r[i] == g;
      forall x ensures x in r <==> (x in room && x != f) || x == g {
        if x in room && x != f {
          var k :| 0 <= k < |room| && room[k] == x;
          assert r[k] == x;
        }
      }
      if g in room {
        var k :| 0 <= k < |room| && room[k] == g;
        assert r[k] == g && k != i;
      }
    }
  }

  // The state after session i has moved to another descriptor.
  function Moved(s: State, i: nat, g: int): State
    requires Shaped(s) && i < |s.connections|
  {
    var c := s.connections[i];
    s.(connections := s.connections[i := c.(sockfd := g)],
       rooms := seq(NO_PRODUCTORES, r requires 0 <= r < NO_PRODUCTORES => Renamed(s.rooms[r], c.sockfd, g)),
       open := s.open - {c.sockfd})
  }

  lemma MoveConsistent(s: State, i: nat, g: int)
    requires Consistent(s) && Shaped(s) && i < |s.connections| && g >= 0 && g in s.open
    requires forall c :: c in s.connections ==> c.sockfd != g
    ensures Consistent(Moved(s, i, g))
  {
    var f, s' := s.connections[i].sockfd, Moved(s, i, g);
    hide RoomsHolding, NoDuplicates, Renamed;
    forall r | 0 <= r < NO_PRODUCTORES ensures RoomOk(s'.rooms[r], s'.connections) {
      MovedRoomOk(s, i, g, r);
    }
    forall k | 0 <= k < |s'.connections|
      ensures s'.connections[k].sockfd >= 0 && s'.connections[k].sockfd in s'.open && Counted(s'.connections[k], s'.rooms)
    {
      assert Counted(s.connections[k], s.rooms);
      MovedCounts(s, i, g, s.connections[k].sockfd);
      assert k != i ==> s.connections[k].sockfd != f;
    }
  }

  lemma NotInRooms(s: State, g: int, r: nat)
    requires Consistent(s) && r < NO_PRODUCTORES && forall c :: c in s.connections ==> c.sockfd != g
    ensures g !in s.rooms[r]
  {
    assert RoomOk(s.rooms[r], s.connections);
    forall j | 0 <= j < |s.rooms[r]| ensures s.rooms[r][j] != g {
      assert Owned(s.connections, s.rooms[r][j]);
      var k :| 0 <= k < |s.connections| && s.connections[k].sockfd == s.rooms[r][j];
      assert s.connections[k] in s.connections;
    }
  }

  lemma MovedRoomOk(s: State, i: nat, g: int, r: nat)
    requires Consistent(s) && Shaped(s) && i < |s.connections| && r < NO_PRODUCTORES
    requires forall c :: c in s.connections ==> c.sockfd != g
    ensures RoomOk(Renamed(s.rooms[r], s.connections[i].sockfd, g), Moved(s, i, g).connections)
  {
    hide RoomsHolding, Renamed;
    var f, room, cs := s.connections[i].sockfd, s.rooms[r], Moved(s, i, g).connections;
    var room' := Renamed(room, f, g);
    assert s.connections[i] in s.connections;
    RoomNoDuplicates(s, r);
    NotInRooms(s, g, r);
    RenamedMembers(room, f, g);
    forall k | 0 <= k < |room'| ensures Owned(cs, room'[k]) {
      var x := room'[k];
      assert x in room';
      if x == g {
        assert cs[i].sockfd == g;
      } else {
        var j :| 0 <= j < |room| && room[j] == x;
        assert RoomOk(room, s.connections) && Owned(s.connections, room[j]);
        var m :| 0 <= m < |s.connections| && s.connections[m].sockfd == x;
        assert cs[m].sockfd == x;
      }
    }
  }

  lemma MovedCounts(s: State, i: nat, g: int, x: int)
    requires Consistent(s) && Shaped(s) && i < |s.connections|
    requires forall c :: c in s.connections ==> c.sockfd != g
    ensures var f := s.connections[i].sockfd;
      RoomsHolding(Moved(s, i, g).rooms, if x == f then g else x) == RoomsHolding(s.rooms, x) || x == g
  {
    hide Renamed, NoDuplicates;
    var f, s' := s.connections[i].sockfd, Moved(s, i, g);
    assert s.connections[i] in s.connections;
    forall r | 0 <= r < NO_PRODUCTORES && x != g
      ensures Holds(s'.rooms[r], if x == f then g else x) == Holds(s.rooms[r], x)
    {
      RoomNoDuplicates(s, r);
      NotInRooms(s, g, r);
      RenamedMembers(s.rooms[r], f, g);
    }
  }

  // A room that holds the replaced session's descriptor.
  lemma SomeRoom(s: State, n: nat) returns (r: nat)
    requires Consistent(s) && n < |s.connections| && s.connections[n].suscCounter != 0
    ensures r < NO_PRODUCTORES && s.connections[n].sockfd in s.rooms[r]
  {
    var h := s.connections[n].sockfd;
    assert Counted(s.connections[n], s.rooms);
    r := if h in s.rooms[0] then 0 else if h in s.rooms[1] then 1 else 2;
  }

  // Dropping a session that is in a room leaves its descriptor there with no session.
  lemma DropSubscribed(s: State, n: nat)
    requires Consistent(s) && n < |s.connections| && s.connections[n].suscCounter != 0
    ensures !Consistent(WithoutSession(s, n))
  {
    var h, s' := s.connections[n].sockfd, WithoutSession(s, n);
    var r := SomeRoom(s, n);
    var j :| 0 <= j < |s.rooms[r]| && s.rooms[r][j] == h;
    RestElements(s.connections, n);
    assert !Owned(s'.connections, s'.rooms[r][j]);
    assert !RoomOk(s'.rooms[r], s'.connections);
  }

  // Moving another session onto the dropped one's descriptor does not repair it.
  lemma MoveAfterDrop(s: State, n: nat, i: nat, g: int)
    requires Consistent(s) && Shaped(s) && n < |s.connections| && s.connections[n].suscCounter != 0 && i < |s.connections| - 1
    ensures !Consistent(Moved(WithoutSession(s, n), i, g))
  {
    var h, t := s.connections[n].sockfd, WithoutSession(s, n);
    var f, s' := t.connections[i].sockfd, Moved(t, i, g);
    var r := SomeRoom(s, n);
    RestElements(s.connections, n);
    var m := if i < n then i else i + 1;
    assert t.connections[i] == s.connections[m] && f != h;
    if h == g {
      MergedRooms(s, m, f, g, r);
      assert s'.connections[i].suscCounter == s.connections[m].suscCounter && s'.connections[i].sockfd == g;
      WhatConsistentMeans(s', i, r);
    } else {
      StrandedFd(s, t, n, i, g, r);
    }
  }

  lemma WhatConsistentMeans(s: State, i: nat, r: nat)
    requires Shaped(s) && i < |s.connections| && r < NO_PRODUCTORES
    ensures Consistent(s) ==> Counted(s.connections[i], s.rooms) && NoDuplicates(s.rooms[r])
  {
    assert Consistent(s) ==> RoomOk(s.rooms[r], s.connections);
  }

  lemma StrandedFd(s: State, t: State, n: nat, i: nat, g: int, r: nat)
    requires Consistent(s) && Shaped(s) && n < |s.connections| && i < |s.connections| - 1 && r < NO_PRODUCTORES
    requires t == WithoutSession(s, n) && s.connections[n].sockfd in s.rooms[r] && s.connections[n].sockfd != g
    ensures !Consistent(Moved(t, i, g))
  {
    hide Renamed, RoomsHolding;
    var h, f, s' := s.connections[n].sockfd, t.connections[i].sockfd, Moved(t, i, g);
    RestElements(s.connections, n);
    assert t.connections[i] == s.connections[if i < n then i else i + 1];
    RoomNoDuplicates(s, r);
    if f != g {
      RenamedMembers(s.rooms[r], f, g);
    } else {
      RenamedSame(s.rooms[r], f);
    }
    var room := s'.rooms[r];
    assert h in room;
    var j :| 0 <= j < |room| && room[j] == h;
    forall k | 0 <= k < |s'.connections| ensures s'.connections[k].sockfd != h {
      assert k != i ==> s'.connections[k] == s.connections[if k < n then k else k + 1];
    }
    assert !Owned(s'.connections, room[j]);
    assert !RoomOk(s'.rooms[r], s'.connections);
  }

  lemma RenamedSame(room: seq<int>, f: int)
    ensures Renamed(room, f, f) == room
  {}

  // Two subscribed sessions merged on one descriptor: some room holds it twice, or it is in more rooms
  // than the session counts.
  lemma MergedRooms(s: State, m: nat, f: int, g: int, r: nat)
    requires Consistent(s) && Shaped(s) && m < |s.connections| && s.connections[m].sockfd == f != g
    requires r < NO_PRODUCTORES && g in s.rooms[r]
    ensures var rooms := seq(NO_PRODUCTORES, k requires 0 <= k < NO_PRODUCTORES => Renamed(s.rooms[k], f, g));
      !NoDuplicates(rooms[r]) || RoomsHolding(rooms, g) > s.connections[m].suscCounter
  {
    hide Renamed, NoDuplicates;
    assert Counted(s.connections[m], s.rooms);
    forall k | 0 <= k < NO_PRODUCTORES
      ensures Holds(Renamed(s.rooms[k], f, g), g) >= Holds(s.rooms[k], f)
      ensures k == r && f !in s.rooms[r] ==> Holds(Renamed(s.rooms[k], f, g), g) > Holds(s.rooms[k], f)
      ensures k == r && f in s.rooms[r] ==> !NoDuplicates(Renamed(s.rooms[k], f, g))
    {
      RoomNoDuplicates(s, k);
      RenamedMembers(s.rooms[k], f, g);
    }
  }

  // Moving onto a descriptor that some session already has.
  lemma MoveOntoTaken(s: State, i: nat, g: int)
    requires Consistent(s) && Shaped(s) && i < |s.connections| && exists c :: c in s.connections && c.sockfd == g
    ensures !Consistent(Moved(s, i, g))
  {
    var c :| c in s.connections && c.sockfd == g;
    var j :| 0 <= j < |s.connections| && s.connections[j] == c;
    var s' := Moved(s, i, g);
    assert s'.connections[i].sockfd == g;
    if i != j {
      assert s'.connections[j].sockfd == g;
    }
  }

  // Taking up an old session keeps the agreement exactly when the session given up is in no room and
  // the request's descriptor is not some other session's.
  lemma AuthConsistent(s: State, sockfd: int, oldToken: int, newToken: int)
    requires Consistent(s) && Shaped(s) && sockfd >= 0 && sockfd in s.open
    ensures Consistent(Authed(s, sockfd, oldToken, newToken)) <==> TakeOverOk(s, sockfd, oldToken, newToken)
  {
    var n := TokenIndex(s.connections, newToken);
    if n < 0 {
      SentOnly(s, Authed(s, sockfd, oldToken, newToken));
    } else {
      var t, i := WithoutSession(s, n), TokenIndex(Rest(s, newToken), oldToken);
      if i < 0 {
        SentOnly(t, Authed(s, sockfd, oldToken, newToken));
        if s.connections[n].suscCounter == 0 {
          DropConsistent(s, n);
        } else {
          DropSubscribed(s, n);
        }
      } else {
        SentOnly(Moved(t, i, sockfd), Authed(s, sockfd, oldToken, newToken));
        if s.connections[n].suscCounter == 0 {
          DropConsistent(s, n);
          if forall c :: c in t.connections ==> c.sockfd != sockfd {
            MoveConsistent(t, i, sockfd);
          } else {
            MoveOntoTaken(t, i, sockfd);
          }
        } else {
          MoveAfterDrop(s, n, i, sockfd);
        }
      }
    }
  }

  lemma SentOnly(s: State, s': State)
    requires s' == s.(sent := s'.sent)
    ensures Consistent(s) <==> Consistent(s')
  {}

  // The client asks on the connection that was just accepted, before it is in any room.
  lemma FreshClientOk(s: State, n: nat, oldToken: int)
    requires Consistent(s) && n < |s.connections| && s.connections[n].suscCounter == 0
    requires TokenIndex(s.connections, s.connections[n].token) == n
    ensures TakeOverOk(s, s.connections[n].sockfd, oldToken, s.connections[n].token)
  {
    RestElements(s.connections, n);
  }

  // ---------- runs ----------

  // What each event may assume: a new descriptor is not open, and a take-over is by a fresh client.
  ghost predicate EventOk(s: State, e: Event) {
    match e
    case Accept(fd, _, _) => fd >= 0 && fd !in s.open
    case Auth(sockfd, oldToken, newToken, _) => sockfd >= 0 && sockfd in s.open && TakeOverOk(s, sockfd, oldToken, newToken)
    case Produce(id, _, _) => id < NO_PRODUCTORES
    case _ => true
  }

  lemma StepConsistent(s: State, e: Event)
    requires Consistent(s) && Shaped(s) && EventOk(s, e)
    ensures Consistent(Step(s, e))
  {
    hide Consistent;
    match e {
      case Accept(fd, token, now) => AcceptConsistent(s, fd, token, now);
      case Ack(token, now) => AckConsistent(s, token, now);
      case Auth(sockfd, oldToken, newToken, _) => AuthConsistent(s, sockfd, oldToken, newToken);
      case Order(cmd, token, productor, now) => CommandConsistent(s, cmd, token, productor, now);
      case Produce(id, p, _) => SameButBuffer(s, Produced(s, id, p));
      case Collect(tc, tp) =>
        CollectConsistent(s, tc);
        SameButBuffer(ConnectionsCollected(s, tc), Step(s, e));
    }
  }

  lemma SameButBuffer(s: State, s': State)
    requires Consistent(s) && s' == s.(buffer := s'.buffer, sent := s'.sent, lastGc := s'.lastGc)
    ensures Consistent(s')
  {}

  // The state after some events, each allowed where it happens.
  ghost predicate Reaches(s: State, events: seq<Event>, s': State)
    decreases |events|
  {
    if events == [] then s' == s
    else Shaped(s) && EventOk(s, events[0]) && Reaches(Step(s, events[0]), events[1..], s')
  }

  // In every reachable state the rooms and the sessions agree.
  lemma {:induction false} AlwaysConsistent(s: State, events: seq<Event>, s': State)
    requires Consistent(s) && Reaches(s, events, s')
    ensures Consistent(s')
    decreases |events|
  {
    hide Consistent, Step;
    if events != [] {
      StepConsistent(s, events[0]);
      AlwaysConsistent(Step(s, events[0]), events[1..], s');
    }
  }

  lemma AlwaysConsistentFromStart(now: int, events: seq<Event>, s: State)
    requires Reaches(Start(now), events, s)
    ensures Consistent(s)
  {
    hide Consistent;
    StartConsistent(now);
    AlwaysConsistent(Start(now), events, s);
  }

  // So a broadcast reaches every subscriber once.
  lemma BroadcastOnce(s: State, id: nat, packet: Packet, i: nat)
    requires Consistent(s) && Shaped(s) && id < NO_PRODUCTORES && i < |s.connections|
    ensures var fd, b := s.connections[i].sockfd, Broadcast(s.rooms[id], packet);
      && (fd in s.rooms[id] <==> exists k :: 0 <= k < |b| && b[k].0 == fd)
      && forall j, k :: 0 <= j < k < |b| ==> b[j].0 != b[k].0
  {
    RoomNoDuplicates(s, id);
    var fd, b := s.connections[i].sockfd, Broadcast(s.rooms[id], packet);
    if fd in s.rooms[id] {
      var k :| 0 <= k < |s.rooms[id]| && s.rooms[id][k] == fd;
      assert b[k].0 == fd;
    }
  }
}
