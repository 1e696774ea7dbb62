/** No replay is lost: as long as each cleanup round reads the clock once, a subscribed session that is
    still registered finds in the buffer every packet ever put there from its time on. Two readings
    that differ are enough to lose one. */
module ReplayBuffer {
  import opened LinkedList
  import opened Sessions

  // Every packet ever buffered, newest first.
  function Ever(events: seq<Event>): seq<Packet> {
    if events == [] then []
    else
      var k := |events| - 1;
      (if events[k].Produce? then [events[k].packet] else []) + Ever(events[..k])
  }

  ghost predicate Valid(events: seq<Event>) {
    forall i :: 0 <= i < |events| && events[i].Produce? ==> events[i].id < NO_PRODUCTORES
  }

  function Run(start: int, events: seq<Event>): (s: State)
    requires Valid(events)
    ensures Shaped(s)
  {
    if events == [] then Start(start) else Step(Run(start, events[..|events| - 1]), events[|events| - 1])
  }

  // The last clock reading of an event.
  function Clock(e: Event): int {
    if e.Collect? then e.tp else e.now
  }

  function Now(start: int, events: seq<Event>): int {
    if events == [] then start else Clock(events[|events| - 1])
  }

  // The clock never goes back, and a cleanup's readings are in order.
  ghost predicate Clocked(start: int, events: seq<Event>) {
    forall i :: 0 <= i < |events| ==>
      && Now(start, events[..i]) <= (if events[i].Collect? then events[i].tc else Clock(events[i])) <= Clock(events[i])
  }

  ghost predicate ReadOnce(events: seq<Event>) {
    forall i :: 0 <= i < |events| && events[i].Collect? ==> events[i].tc == events[i].tp
  }

  // The buffer still has every packet from this time on.
  ghost predicate Complete(buffer: seq<Packet>, ever: seq<Packet>, floor: int) {
    forall since :: since >= floor ==> Recent(buffer, since) == Recent(ever, since)
  }

  // Subscribed sessions are no older than what the buffer is complete for.
  ghost predicate Safe(s: State, ever: seq<Packet>, floor: int, now: int) {
    && Complete(s.buffer, ever, floor)
    && floor <= now - CONN_TIMEOUT && s.startTime <= now
    && AllSafe(s.connections, s.startTime, floor, now)
  }

  ghost predicate SafeSession(c: Session, start: int, floor: int, now: int) {
    start <= c.timestamp <= now && (c.suscCounter > 0 ==> c.timestamp >= floor)
  }

  lemma {:induction false} RecentFront(p: Packet, buffer: seq<Packet>, since: int)
    ensures Recent([p] + buffer, since) == (if since > p.timestamp then [] else [p]) + Recent(buffer, since)
    decreases |buffer|
  {
    var b := [p] + buffer;
    if buffer == [] {
      assert b[..0] == [];
    } else {
      var k := |buffer| - 1;
      RecentFront(p, buffer[..k], since);
      assert b[..|b| - 1] == [p] + buffer[..k];
    }
  }

  // Cleaning up leaves every packet no older than the timeout.
  lemma {:induction false} FreshKeepsRecent(buffer: seq<Packet>, now: int, since: int)
    requires since >= now - CONN_TIMEOUT
    ensures Recent(Fresh(buffer, now), since) == Recent(buffer, since)
    decreases |buffer|
  {
    if buffer != [] {
      var k := |buffer| - 1;
      var f := Fresh(buffer[..k], now);
      FreshKeepsRecent(buffer[..k], now, since);
      RecentSnoc(f, buffer[k], since);
      assert f + [] == f && Recent(f, since) + [] == Recent(f, since);
    }
  }

  lemma RecentSnoc(buffer: seq<Packet>, p: Packet, since: int)
    ensures Recent(buffer + [p], since) == Recent(buffer, since) + if since > p.timestamp then [] else [p]
    ensures Recent([], since) == []
  {
    assert (buffer + [p])[..|buffer|] == buffer;
  }

  lemma StartSafe(start: int)
    ensures Safe(Start(start), [], start - CONN_TIMEOUT, start)
  {}

  // Later moments, and a session whose time moves to now, stay safe.
  lemma UpdateSafe(s: State, s': State, ever: seq<Packet>, floor: int, now: int, now': int)
    requires Safe(s, ever, floor, now) && now <= now' && s'.buffer == s.buffer && s'.startTime == s.startTime
    requires forall i :: 0 <= i < |s'.connections| ==>
      s'.connections[i] in s.connections || SafeSession(s'.connections[i], s.startTime, floor, now')
    ensures Safe(s', ever, floor, now')
  {}

  lemma AuthSafe(s: State, ever: seq<Packet>, floor: int, now: int, now': int, sockfd: int, oldToken: int, newToken: int)
    requires Shaped(s) && Safe(s, ever, floor, now) && now <= now'
    ensures Safe(Authed(s, sockfd, oldToken, newToken), ever, floor, now')
  {
    hide Complete, SafeSession, Recent, Renamed;
    var s' := Authed(s, sockfd, oldToken, newToken);
    AllLater(s.connections, s.startTime, floor, now, now');
    var n := TokenIndex(s.connections, newToken);
    if n >= 0 {
      var conns := Removed(s.connections, n);
      RestSafe(s.connections, n, s.startTime, floor, now');
      var i := TokenIndex(conns, oldToken);
      if i >= 0 {
        MovedSafe(conns, i, sockfd, s.startTime, floor, now');
      }
    }
  }

  ghost predicate AllSafe(conns: seq<Session>, start: int, floor: int, now: int) {
    forall i :: 0 <= i < |conns| ==> SafeSession(conns[i], start, floor, now)
  }

  lemma AllLater(conns: seq<Session>, start: int, floor: int, now: int, now': int)
    requires AllSafe(conns, start, floor, now) && now <= now'
    ensures AllSafe(conns, start, floor, now')
  {}

  lemma RestSafe(conns: seq<Session>, n: nat, start: int, floor: int, now: int)
    requires AllSafe(conns, start, floor, now) && n < |conns|
    ensures AllSafe(Removed(conns, n), start, floor, now)
  {
    hide SafeSession;
    var rest := Removed(conns, n);
    forall i | 0 <= i < |rest| ensures SafeSession(rest[i], start, floor, now) {
      assert rest[i] == conns[if i < n then i else i + 1];
    }
  }

  lemma MovedSafe(conns: seq<Session>, i: nat, fd: int, start: int, floor: int, now: int)
    requires AllSafe(conns, start, floor, now) && i < |conns|
    ensures AllSafe(conns[i := conns[i].(sockfd := fd)], start, floor, now)
  {}

  lemma CollectSafe(s: State, ever: seq<Packet>, floor: int, now: int, t: int) returns (floor': int)
    requires Shaped(s) && Safe(s, ever, floor, now) && now <= t
    ensures Safe(PacketsCollected(ConnectionsCollected(s, t), t), ever, floor', t)
  {
    hide Complete, Recent, Fresh, ExpiredFds, WithoutFds;
    var s1 := ConnectionsCollected(s, t);
    SurvivorsRecent(s, floor, now, t);
    if t - s1.lastGc < BUFFER_CLEANUP_PERIOD {
      floor' := floor;
    } else {
      floor' := t - CONN_TIMEOUT;
      CompleteFresh(s.buffer, ever, floor, t);
    }
  }

  // Sessions left by the cleanup are within the timeout if subscribed.
  lemma SurvivorsRecent(s: State, floor: int, now: int, t: int)
    requires Shaped(s) && now <= t
    requires s.startTime <= now
    requires forall i :: 0 <= i < |s.connections| ==> SafeSession(s.connections[i], s.startTime, floor, now)
    ensures var cs := ConnectionsCollected(s, t).connections;
      forall i :: 0 <= i < |cs| ==> SafeSession(cs[i], s.startTime, floor, t) && SafeSession(cs[i], s.startTime, t - CONN_TIMEOUT, t)
  {
    hide Survivors, ExpiredFds, WithoutFds;
    var cs := ConnectionsCollected(s, t).connections;
    forall i | 0 <= i < |cs|
      ensures SafeSession(cs[i], s.startTime, floor, t) && SafeSession(cs[i], s.startTime, t - CONN_TIMEOUT, t)
    {
      assert cs[i] in cs && cs[i] in s.connections;
    }
  }

  lemma CompleteFresh(buffer: seq<Packet>, ever: seq<Packet>, floor: int, t: int)
    requires Complete(buffer, ever, floor) && floor <= t - CONN_TIMEOUT
    ensures Complete(Fresh(buffer, t), ever, t - CONN_TIMEOUT)
  {
    forall since | since >= t - CONN_TIMEOUT ensures Recent(Fresh(buffer, t), since) == Recent(ever, since) {
      FreshKeepsRecent(buffer, t, since);
    }
  }

  lemma ProduceSafe(s: State, ever: seq<Packet>, floor: int, now: int, now': int, id: nat, p: Packet)
    requires Shaped(s) && id < NO_PRODUCTORES && Safe(s, ever, floor, now) && now <= now'
    ensures Safe(Produced(s, id, p), [p] + ever, floor, now')
  {
    forall since | since >= floor ensures Recent([p] + s.buffer, since) == Recent([p] + ever, since) {
      RecentFront(p, s.buffer, since);
      RecentFront(p, ever, since);
    }
  }

  lemma StepSafe(s: State, ever: seq<Packet>, floor: int, now: int, e: Event) returns (floor': int)
    requires Shaped(s) && Safe(s, ever, floor, now) && (e.Produce? ==> e.id < NO_PRODUCTORES)
    requires now <= Clock(e) && (e.Collect? ==> e.tc == e.tp)
    ensures Safe(Step(s, e), (if e.Produce? then [e.packet] else []) + ever, floor', Clock(e))
  {
    hide Complete, Recent;
    floor' := floor;
    assert [] + ever == ever;
    match e {
      case Accept(fd, token, t) => UpdateSafe(s, Step(s, e), ever, floor, now, t);
      case Ack(token, t) => UpdateSafe(s, Step(s, e), ever, floor, now, t);
      case Auth(fd, oldToken, newToken, t) => AuthSafe(s, ever, floor, now, t, fd, oldToken, newToken);
      case Order(cmd, token, productor, t) => UpdateSafe(s, Step(s, e), ever, floor, now, t);
      case Produce(id, p, t) => ProduceSafe(s, ever, floor, now, t, id, p);
      case Collect(tc, tp) => floor' := CollectSafe(s, ever, floor, now, tc);
    }
  }

  lemma {:induction false} RunSafe(start: int, events: seq<Event>) returns (floor: int)
    requires Valid(events) && Clocked(start, events) && ReadOnce(events)
    ensures Safe(Run(start, events), Ever(events), floor, Now(start, events))
    decreases |events|
  {
    hide Safe, Step, Recent;
    if events == [] {
      StartSafe(start);
      floor := start - CONN_TIMEOUT;
    } else {
      var k := |events| - 1;
      ClockedPrefix(start, events, k);
      var f := RunSafe(start, events[..k]);
      floor := StepSafe(Run(start, events[..k]), Ever(events[..k]), f, Now(start, events[..k]), events[k]);
    }
  }

  lemma ClockedPrefix(start: int, events: seq<Event>, k: nat)
    requires Clocked(start, events) && k <= |events|
    ensures Clocked(start, events[..k])
  {
    forall i | 0 <= i < k ensures
      Now(start, events[..k][..i]) <= (if events[i].Collect? then events[i].tc else Clock(events[i])) <= Clock(events[i])
    {
      assert events[..k][..i] == events[..i];
    }
  }

  // Every subscribed session that is registered has all its packets in the buffer.
  ghost predicate Lossless(start: int, events: seq<Event>)
    requires Valid(events)
  {
    var s := Run(start, events);
    forall c :: c in s.connections && c.suscCounter > 0 ==> Recent(s.buffer, c.timestamp) == Recent(Ever(events), c.timestamp)
  }

  // Over any run: every subscribed session that is registered has all its packets in the buffer.
  lemma NoReplayLoss(start: int, events: seq<Event>)
    requires Valid(events) && Clocked(start, events) && ReadOnce(events)
    ensures Lossless(start, events)
  {
    hide Recent;
    var s := Run(start, events);
    var floor := RunSafe(start, events);
    forall c | c in s.connections && c.suscCounter > 0
      ensures Recent(s.buffer, c.timestamp) == Recent(Ever(events), c.timestamp)
    {
      var i :| 0 <= i < |s.connections| && s.connections[i] == c;
      assert SafeSession(s.connections[i], s.startTime, floor, Now(start, events));
    }
  }

  // A client that takes up a subscribed session is sent, newest first and once each, exactly the
  // packets ever buffered from that session's time on.
  lemma AuthReplaysAll(start: int, events: seq<Event>, sockfd: int, oldToken: int, newToken: int)
    requires Valid(events) && Clocked(start, events) && ReadOnce(events)
    requires TokenIndex(Run(start, events).connections, newToken) >= 0
    requires var s := Run(start, events);
      var rest := Removed(s.connections, TokenIndex(s.connections, newToken));
      TokenIndex(rest, oldToken) >= 0 && rest[TokenIndex(rest, oldToken)].suscCounter > 0
    ensures var s := Run(start, events);
      var rest := Removed(s.connections, TokenIndex(s.connections, newToken));
      var c := rest[TokenIndex(rest, oldToken)];
      Authed(s, sockfd, oldToken, newToken).sent == s.sent + Replay(sockfd, Recent(Ever(events), c.timestamp))
  {
    hide Recent, Replay;
    NoReplayLoss(start, events);
    var s := Run(start, events);
    var n := TokenIndex(s.connections, newToken);
    var rest := Removed(s.connections, n);
    var i := TokenIndex(rest, oldToken);
    assert rest[i] == s.connections[if i < n then i else i + 1];
  }

  // A cleanup that reads the clock twice, with a tick between, can lose a packet that a registered
  // subscribed session has yet to be sent.
  lemma TickLosesPacket(tc: int, tp: int) returns (start: int, events: seq<Event>)
    requires tc < tp
    ensures Valid(events) && Clocked(start, events) && |events| > 0 && events[|events| - 1] == Collect(tc, tp)
    ensures ReadOnce(events[..|events| - 1])
    ensures !Lossless(start, events)
  {
    start := tc - 100;
    var t, p := tc - CONN_TIMEOUT, Packet(tc - CONN_TIMEOUT, "");
    var a, b, c, d := Accept(4, 7, t), Order(CmdAdd, 7, 0, t), Produce(0, p, t), Collect(tc, tp);
    events := [a, b, c, d];
    assert events[..3] == [a, b, c] && ReadOnce([a, b, c]);
    LossyRun(start, t, p, tc, tp, a, b, c, d);
    assert Session(t, 1, 4, 7) in Run(start, events).connections;
  }

  // A run that ends with a cleanup round reading tc and then tp.
  ghost predicate EndsWith(start: int, events: seq<Event>, tc: int, tp: int) {
    && Valid(events) && events != [] && Clocked(start, events)
    && ReadOnce(events[..|events| - 1]) && events[|events| - 1] == Collect(tc, tp)
  }

  // Whatever came before, such a round loses nothing.
  ghost predicate NeverLoses(tc: int, tp: int) {
    forall start, events :: EndsWith(start, events, tc, tp) ==> Lossless(start, events)
  }

  lemma NeverLosesIffReadOnce(tc: int, tp: int)
    requires tc <= tp
    ensures NeverLoses(tc, tp) <==> tc == tp
  {
    hide Lossless, Clocked;
    if tc < tp {
      var start, events := TickLosesPacket(tc, tp);
      assert EndsWith(start, events, tc, tp);
    } else {
      forall start, events | EndsWith(start, events, tc, tp) ensures Lossless(start, events) {
        NoReplayLoss(start, events);
      }
    }
  }

  lemma RunOneMore(start: int, events: seq<Event>, e: Event)
    requires Valid(events) && (e.Produce? ==> e.id < NO_PRODUCTORES)
    ensures Valid(events + [e]) && Run(start, events + [e]) == Step(Run(start, events), e)
    ensures Ever(events + [e]) == (if e.Produce? then [e.packet] else []) + Ever(events)
  {
    assert (events + [e])[..|events|] == events;
  }

  // A session subscribed at the very edge of the timeout, and a packet of the same moment.
  lemma LossyRun(start: int, t: int, p: Packet, tc: int, tp: int, a: Event, b: Event, c: Event, d: Event)
    requires tc < tp && start == tc - 100 && t == tc - CONN_TIMEOUT && p == Packet(t, "")
    requires a == Accept(4, 7, t) && b == Order(CmdAdd, 7, 0, t) && c == Produce(0, p, t) && d == Collect(tc, tp)
    ensures var events := [a, b, c, d];
      && Clocked(start, events) && Valid(events)
      && var s := Run(start, events);
        && s.connections == [Session(t, 1, 4, 7)] && Recent(s.buffer, t) == [] && Recent(Ever(events), t) == [p]
  {
    hide Recent, Ever, Run, Clocked, PacketsCollected, ConnectionsCollected, Commanded;
    FourSteps(start, a, b, c, d);
    var s1 := Accepted(Start(start), 4, 7, t);
    AcceptedCase(start, t);
    AddedCase(s1, t);
    CollectedCase(Produced(Commanded(s1, CmdAdd, 7, 0, t), 0, p), t, p, tc, tp);
    ClockedCase(start, [a, b, c, d], t, tc, tp);
    RecentSnoc([], p, t);
    assert [] + [p] == [p];
  }

  lemma FourSteps(start: int, a: Event, b: Event, c: Event, d: Event)
    requires !a.Produce? && !b.Produce? && c.Produce? && c.id < NO_PRODUCTORES && !d.Produce?
    ensures Valid([a, b, c, d]) && Run(start, [a, b, c, d]) == Step(Step(Step(Step(Start(start), a), b), c), d)
    ensures Ever([a, b, c, d]) == [c.packet]
  {
    hide Step;
    var e: seq<Event> := [];
    RunOneMore(start, e, a);
    RunOneMore(start, [a], b);
    RunOneMore(start, [a, b], c);
    RunOneMore(start, [a, b, c], d);
    assert e + [a] == [a] && [a] + [b] == [a, b] && [a, b] + [c] == [a, b, c] && [a, b, c] + [d] == [a, b, c, d];
  }

  lemma AcceptedCase(start: int, t: int)
    ensures var s := Accepted(Start(start), 4, 7, t); s.connections == [Session(t, 0, 4, 7)] && s.rooms == [[], [], []] && s.buffer == []
  {}

  lemma AddedCase(s: State, t: int)
    requires s.connections == [Session(t, 0, 4, 7)] && s.rooms == [[], [], []]
    ensures var r := Commanded(s, CmdAdd, 7, 0, t);
      r.connections == [Session(t, 1, 4, 7)] && r.buffer == s.buffer && r.lastGc == s.lastGc && r.startTime == s.startTime
  {}

  lemma CollectedCase(s: State, t: int, p: Packet, tc: int, tp: int)
    requires Shaped(s) && s.connections == [Session(t, 1, 4, 7)] && s.buffer == [p] && s.lastGc == s.startTime == tc - 100
    requires tc < tp && t == tc - CONN_TIMEOUT && p.timestamp == t
    ensures var r := PacketsCollected(ConnectionsCollected(s, tc), tp); r.connections == s.connections && r.buffer == []
  {
    assert s.connections[..0] == [] && s.buffer[..0] == [];
    assert Survivors(s.connections, tc) == s.connections;
    assert Fresh(s.buffer, tp) == [];
  }

  lemma ClockedCase(start: int, events: seq<Event>, t: int, tc: int, tp: int)
    requires |events| == 4 && events[3] == Collect(tc, tp) && start <= t <= tc < tp
    requires forall i :: 0 <= i < 3 ==> !events[i].Collect? && events[i].now == t
    ensures Clocked(start, events)
  {}
}
