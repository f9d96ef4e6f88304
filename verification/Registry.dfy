/** The registry of subscriptions over whole runs of the server.

    Each channel lists the numbers of its subscribers, each connection has its own array of slots;
    the two are changed by connecting, by subscription commands (each takes all earlier
    subscriptions back first), by disconnecting and by publications, which erase dead subscribers.
    In every reachable state a number occurs in a channel exactly as often as the channel's name
    stands in the inserted slots of the connection with that number.  An event has no next state when
    it makes the scan of a list, or the taking back, leave the text of its connection.
 */
module Registry {
  import opened Sequences
  import opened Subscription
  import opened FastList
  import opened Publish

  // ----- counting -----

  lemma {:induction false} CountWithoutFirst(xs: seq<int>, x: int, y: int)
    ensures Count(WithoutFirst(xs, x), y) == if x == y && Count(xs, y) > 0 then Count(xs, y) - 1 else Count(xs, y)
  {
    if xs != [] && xs[0] != x {
      var rest := WithoutFirst(xs[1..], x);
      assert ([xs[0]] + rest)[1..] == rest;
      CountWithoutFirst(xs[1..], x, y);
    }
  }

  lemma {:induction false} CountOnlyLive(xs: seq<int>, dev: int, live: Live, y: int)
    ensures Count(OnlyLive(xs, dev, live), y) == if live(y, dev) then Count(xs, y) else 0
  {
    if xs != [] {
      var rest := OnlyLive(xs[1..], dev, live);
      assert live(xs[0], dev) ==> ([xs[0]] + rest)[1..] == rest;
      CountOnlyLive(xs[1..], dev, live, y);
    }
  }

  // How often `x` is subscribed to the channel `k`.
  function Occurs(pipes: Pipes, k: Key, x: int): nat {
    Count(Subscribers(pipes, k), x)
  }

  lemma OccursErase(pipes: Pipes, k: Key, fd: int, k': Key, x: int)
    ensures Occurs(Erase(pipes, k, fd), k', x)
            == if k == k' && x == fd && Occurs(pipes, k', x) > 0 then Occurs(pipes, k', x) - 1 else Occurs(pipes, k', x)
  {
    if k in pipes {
      CountWithoutFirst(pipes[k], fd, x);
    }
  }

  lemma OccursPublished(pipes: Pipes, k: Key, live: Live, k': Key, x: int)
    ensures Occurs(Published(pipes, k, live), k', x)
            == if k == k' && !live(x, k.dev) then 0 else Occurs(pipes, k', x)
  {
    if k in pipes {
      CountOnlyLive(pipes[k], k.dev, live, x);
    }
  }

  lemma OccursInsert(pipes: Pipes, k: Key, fd: int, k': Key, x: int)
    ensures Occurs(Insert(pipes, k, fd), k', x) == Occurs(pipes, k', x) + (if k == k' && x == fd then 1 else 0)
  {
    var xs := Subscribers(pipes, k);
    assert ([fd] + xs)[1..] == xs;
  }

  // ----- what the two halves of a subscription command do to the counts -----

  function Minus(a: nat, b: nat): nat {
    if a < b then 0 else a - b
  }

  lemma {:induction false} EraseAllCounts(pipes: Pipes, dev: int, fd: int, live: Live, names: seq<string>, k: Key,
                                          x: int)
    ensures var before, after := Occurs(pipes, k, x), Occurs(EraseAll(pipes, dev, fd, live, names), k, x);
            && after <= before
            && (x == fd && k.dev == dev ==> after <= Minus(before, Count(names, k.name)))
            && (k.dev != dev || (x != fd && live(x, k.dev)) ==> after == before)
    decreases |names|
  {
    if names != [] {
      var k0 := Key(dev, names[0]);
      var pipes1 := Erase(pipes, k0, fd);
      var pipes2 := if IsTrack(names[0]) then Published(pipes1, k0, live) else pipes1;
      OccursErase(pipes, k0, fd, k, x);
      OccursPublished(pipes1, k0, live, k, x);
      EraseAllCounts(pipes2, dev, fd, live, names[1..], k, x);
    }
  }

  lemma {:induction false} InsertAllCounts(pipes: Pipes, dev: int, fd: int, live: Live, names: seq<string>, k: Key,
                                           x: int)
    requires live(x, k.dev) || Occurs(pipes, k, x) == 0
    requires live(fd, dev)
    ensures Occurs(InsertAll(pipes, dev, fd, live, names), k, x)
            == Occurs(pipes, k, x) + (if x == fd && k.dev == dev then Count(names, k.name) else 0)
    decreases |names|
  {
    if names != [] {
      var k0 := Key(dev, names[0]);
      var pipes1 := if IsTrack(names[0]) then Published(pipes, k0, live) else pipes;
      OccursPublished(pipes, k0, live, k, x);
      OccursInsert(pipes1, k0, fd, k, x);
      InsertAllCounts(InsertOne(pipes, dev, fd, live, names[0]), dev, fd, live, names[1..], k, x);
    }
  }

  // ----- the server -----

  // `inserted` is how many slots, from the first, were filled together with an insertion, `stored`
  // how long the list was that was copied into the text last.
  datatype Conn = Conn(dev: int, anonymous: bool, slots: Slots, data: Text, inserted: nat, stored: nat)

  datatype State = State(pipes: Pipes, conns: map<int, Conn>)

  const START := State(map[], map[])

  function LiveIn(conns: map<int, Conn>): Live {
    (x: int, dev: int) => x in conns && conns[x].dev == dev
  }

  datatype Event =
    | Connect(fd: int, dev: int, anonymous: bool)
    | Command(fd: int, event: string)     // a subscription command
    | Offline(fd: int)
    | Publication(k: Key)

  datatype Next = To(state: State) | Undefined

  function GoOffline(st: State, fd: int): Next
    requires fd in st.conns
  {
    var c := st.conns[fd];
    var conns := st.conns - {fd};
    var taken := TakeBack(c.slots, c.data, 0);
    if taken.BeyondText? then Undefined
    else To(State(EraseAll(st.pipes, c.dev, fd, LiveIn(conns), taken.names), conns))
  }

  // The connection after a list was read.
  function Subscribed(c: Conn, event: string, r: Result): Conn
    requires r.Done?
  {
    var stored := if |event| > DATA_LEN then c.stored else |event|;
    c.(slots := r.slots, data := r.data, inserted := |r.names|, stored := stored)
  }

  // The state after the list of a command was read, with the channels as taking back left them.
  function AfterList(st: State, fd: int, event: string, pipes: Pipes, r: Result): State
    requires fd in st.conns && r.Done?
  {
    var c := st.conns[fd];
    State(InsertAll(pipes, c.dev, fd, LiveIn(st.conns), r.names), st.conns[fd := Subscribed(c, event, r)])
  }

  // A command that is answered with -1 closes its connection.
  function RunCommand(st: State, fd: int, event: string): Next
    requires fd in st.conns
  {
    var c := st.conns[fd];
    var taken := TakeBack(c.slots, c.data, 0);
    var r := Subscribe(event, c.anonymous, Cleared(c.slots), c.data);
    if taken.BeyondText? || r.OutOfBounds? then Undefined
    else
      var pipes := EraseAll(st.pipes, c.dev, fd, LiveIn(st.conns), taken.names);
      var st' := AfterList(st, fd, event, pipes, r);
      if r.code == -1 then GoOffline(st', fd) else To(st')
  }

  function NewConn(dev: int, anonymous: bool): Conn {
    Conn(dev, anonymous, seq(MAX_PIPES, _ => Empty), seq(DATA_LEN, _ => NUL), 0, 0)
  }

  function Step(st: State, e: Event): Next {
    match e
    case Connect(fd, dev, anonymous) =>
      if fd in st.conns then To(st)
      else To(st.(conns := st.conns[fd := NewConn(dev, anonymous)]))
    case Command(fd, event) => if fd in st.conns then RunCommand(st, fd, event) else To(st)
    case Offline(fd) => if fd in st.conns then GoOffline(st, fd) else To(st)
    case Publication(k) => To(st.(pipes := Published(st.pipes, k, LiveIn(st.conns))))
  }

  // ----- the invariant -----

  // The names in the slots that were filled together with an insertion.
  function Names(c: Conn): seq<string>
    requires c.inserted <= MAX_PIPES
  {
    var visited := Visited(c.slots, c.data, 0);
    if c.inserted <= |visited| then visited[..c.inserted] else visited
  }

  ghost predicate ConnOk(c: Conn) {
    && c.inserted <= MAX_PIPES && c.inserted <= |Visited(c.slots, c.data, 0)| && Allowed(Names(c), c.anonymous)
    && TextOk(c)
  }

  // Where taking back can leave the text.
  ghost predicate TextOk(c: Conn) {
    && PointInside(c.slots) && Closed(c.slots, c.data, c.inserted)
    && c.stored <= DATA_LEN && (c.stored < DATA_LEN ==> c.data[DATA_LEN - 1] == NUL)
  }

  // How often `x` should be subscribed to `k`.
  ghost function Expected(conns: map<int, Conn>, k: Key, x: int): nat {
    if x in conns && conns[x].dev == k.dev && conns[x].inserted <= MAX_PIPES then Count(Names(conns[x]), k.name) else 0
  }

  ghost predicate Inv(st: State) {
    && (forall x | x in st.conns :: ConnOk(st.conns[x]))
    && (forall k, x :: Occurs(st.pipes, k, x) == Expected(st.conns, k, x))
  }

  // The first half of a command leaves the connection's number in no channel at all, whatever its
  // slots beyond the fourth point to, and takes nobody else out of any channel.
  lemma UnSubscribedIsNowhere(st: State, fd: int, k: Key, x: int)
    requires Inv(st) && fd in st.conns
    ensures var c := st.conns[fd];
            var taken := TakeBack(c.slots, c.data, 0);
            taken.Taken? ==>
              Occurs(EraseAll(st.pipes, c.dev, fd, LiveIn(st.conns), taken.names), k, x)
              == if x == fd then 0 else Occurs(st.pipes, k, x)
  {
    var c := st.conns[fd];
    var visited := Visited(c.slots, c.data, 0);
    TakeBackLeavesIff(c.slots, c.data, 0);
    EraseAllCounts(st.pipes, c.dev, fd, LiveIn(st.conns), visited, k, x);
    CountPrefix(Names(c), visited, k.name);
    assert Occurs(st.pipes, k, x) == Expected(st.conns, k, x);
  }

  lemma OfflineKeepsInv(st: State, fd: int)
    requires Inv(st) && fd in st.conns && GoOffline(st, fd).To?
    ensures Inv(GoOffline(st, fd).state)
  {
    hide ConnOk, TakeBack;
    var c := st.conns[fd];
    var st' := GoOffline(st, fd).state;
    var visited := Visited(c.slots, c.data, 0);
    TakeBackLeavesIff(c.slots, c.data, 0);
    forall k, x
      ensures Occurs(st'.pipes, k, x) == Expected(st'.conns, k, x)
    {
      EraseAllCounts(st.pipes, c.dev, fd, LiveIn(st'.conns), visited, k, x);
      NamesVisited(c, k.name);
      assert Occurs(st.pipes, k, x) == Expected(st.conns, k, x);
    }
  }

  lemma NamesVisited(c: Conn, name: string)
    requires ConnOk(c)
    ensures c.inserted <= MAX_PIPES && Count(Names(c), name) <= Count(Visited(c.slots, c.data, 0), name)
  {
    CountPrefix(Names(c), Visited(c.slots, c.data, 0), name);
  }

  // A connection is in order after any list.
  lemma SubscribedOk(c: Conn, event: string)
    requires ConnOk(c)
    ensures var r := Subscribe(event, c.anonymous, Cleared(c.slots), c.data);
            r.Done? ==> ConnOk(Subscribed(c, event, r)) && Names(Subscribed(c, event, r)) == r.names
  {
    hide Scan, EndsInside, Holds;
    var r := Subscribe(event, c.anonymous, Cleared(c.slots), c.data);
    SubscribeHolds(event, c.anonymous, Cleared(c.slots), c.data);
    SubscribeAllowed(event, c.anonymous, Cleared(c.slots), c.data);
    if r.Done? {
      NamesHeld(Subscribed(c, event, r), r.names);
      if |event| <= DATA_LEN {
        SubscribeCloses(event, c.anonymous, c.slots, c.data);
      }
    }
  }

  lemma NamesHeld(c: Conn, names: seq<string>)
    requires Holds(c.slots, c.data, names, DATA_LEN + 1) && c.inserted == |names|
    ensures c.inserted <= MAX_PIPES && c.inserted <= |Visited(c.slots, c.data, 0)| && Names(c) == names
  {
    VisitedFrom(c.slots, c.data, names, 0);
    assert names[0..] == names;
  }

  lemma ListKeepsInv(st: State, fd: int, event: string, pipes: Pipes, r: Result)
    requires Inv(st) && fd in st.conns
    requires var c := st.conns[fd]; r == Subscribe(event, c.anonymous, Cleared(c.slots), c.data) && r.Done?
    requires forall k, x :: Occurs(pipes, k, x) == if x == fd then 0 else Occurs(st.pipes, k, x)
    ensures Inv(AfterList(st, fd, event, pipes, r))
  {
    hide ConnOk, Subscribe;
    var c := st.conns[fd];
    var st' := AfterList(st, fd, event, pipes, r);
    SubscribedOk(c, event);
    assert ConnOk(st'.conns[fd]) && st'.conns[fd].inserted <= MAX_PIPES by {
      SubscribedInserts(c, event, r);
    }
    forall k, x
      ensures Occurs(st'.pipes, k, x) == Expected(st'.conns, k, x)
    {
      assert Occurs(st.pipes, k, x) == Expected(st.conns, k, x);
      InsertAllCounts(pipes, c.dev, fd, LiveIn(st.conns), r.names, k, x);
    }
  }

  lemma SubscribedInserts(c: Conn, event: string, r: Result)
    requires r.Done? && ConnOk(Subscribed(c, event, r))
    ensures Subscribed(c, event, r).inserted <= MAX_PIPES
  {
  }

  lemma CommandKeepsInv(st: State, fd: int, event: string)
    requires Inv(st) && fd in st.conns && RunCommand(st, fd, event).To?
    ensures Inv(RunCommand(st, fd, event).state)
  {
    hide Inv, Subscribe, TakeBack;
    var c := st.conns[fd];
    var pipes := EraseAll(st.pipes, c.dev, fd, LiveIn(st.conns), TakeBack(c.slots, c.data, 0).names);
    var r := Subscribe(event, c.anonymous, Cleared(c.slots), c.data);
    forall k, x
      ensures Occurs(pipes, k, x) == if x == fd then 0 else Occurs(st.pipes, k, x)
    {
      UnSubscribedIsNowhere(st, fd, k, x);
    }
    ListKeepsInv(st, fd, event, pipes, r);
    if r.code == -1 {
      OfflineKeepsInv(AfterList(st, fd, event, pipes, r), fd);
    }
  }

  lemma StepKeepsInv(st: State, e: Event)
    requires Inv(st) && Step(st, e).To?
    ensures Inv(Step(st, e).state)
  {
    match e
    case Connect(fd, dev, anonymous) =>
      var st' := Step(st, e).state;
      forall k, x
        ensures Occurs(st'.pipes, k, x) == Expected(st'.conns, k, x)
      {
        assert Occurs(st.pipes, k, x) == Expected(st.conns, k, x);
      }
    case Command(fd, event) =>
      if fd in st.conns {
        CommandKeepsInv(st, fd, event);
      }
    case Offline(fd) =>
      if fd in st.conns {
        OfflineKeepsInv(st, fd);
      }
    case Publication(k0) =>
      var st' := Step(st, e).state;
      forall k, x
        ensures Occurs(st'.pipes, k, x) == Expected(st'.conns, k, x)
      {
        assert Occurs(st.pipes, k, x) == Expected(st.conns, k, x);
        OccursPublished(st.pipes, k0, LiveIn(st.conns), k, x);
      }
  }

  // The events up to the first one without a next state.
  function Run(st: State, events: seq<Event>): State
    decreases |events|
  {
    if events == [] || Step(st, events[0]).Undefined? then st else Run(Step(st, events[0]).state, events[1..])
  }

  predicate Completes(st: State, events: seq<Event>)
    decreases |events|
  {
    events == [] || (Step(st, events[0]).To? && Completes(Step(st, events[0]).state, events[1..]))
  }

  lemma {:induction false} RunKeepsInv(st: State, events: seq<Event>)
    requires Inv(st)
    ensures Inv(Run(st, events))
    decreases |events|
  {
    if events != [] && Step(st, events[0]).To? {
      StepKeepsInv(st, events[0]);
      RunKeepsInv(Step(st, events[0]).state, events[1..]);
    }
  }

  // In every reachable state the channels agree with the slots of the connections.
  lemma ReachableAgrees(events: seq<Event>, k: Key, x: int)
    ensures var st := Run(START, events);
            Occurs(st.pipes, k, x) == Expected(st.conns, k, x)
  {
    assert Inv(START);
    RunKeepsInv(START, events);
  }

  // In no reachable state is an anonymous connection subscribed to a `private_` channel.
  lemma AnonymousNeverPrivate(events: seq<Event>, k: Key, x: int)
    requires IsPrivate(k.name)
    ensures var st := Run(START, events);
            Occurs(st.pipes, k, x) > 0 ==> x in st.conns && !st.conns[x].anonymous
  {
    var st := Run(START, events);
    assert Inv(START);
    RunKeepsInv(START, events);
    ReachableAgrees(events, k, x);
    if Occurs(st.pipes, k, x) > 0 {
      assert ConnOk(st.conns[x]);
      CountIn(Names(st.conns[x]), k.name);
    }
  }

  // ----- who is connected -----

  // A new connection has the developer and the user of its `Connect` and holds no slot; a
  // disconnection removes exactly its own; a command changes at most its own, and not the user.
  lemma StepConns(st: State, e: Event, x: int)
    requires Step(st, e).To?
    ensures var conns := Step(st, e).state.conns;
            match e
            case Connect(fd, dev, anonymous) =>
              && (x in conns <==> x in st.conns || x == fd)
              && (x in st.conns ==> conns[x] == st.conns[x])
              && (x == fd && x !in st.conns ==>
                    && conns[x].dev == dev && conns[x].anonymous == anonymous
                    && conns[x].inserted == 0 && (forall j :: 0 <= j < MAX_PIPES ==> conns[x].slots[j].Empty?))
            case Command(fd, _) =>
              && (x in conns ==> x in st.conns && conns[x].dev == st.conns[x].dev
                                 && conns[x].anonymous == st.conns[x].anonymous)
              && (x != fd && x in st.conns ==> x in conns && conns[x] == st.conns[x])
              && (x == fd && x in st.conns ==>
                    var r := Subscribe(e.event, st.conns[x].anonymous, Cleared(st.conns[x].slots), st.conns[x].data);
                    r.Done? && (x in conns <==> r.code != -1))
            case Offline(fd) =>
              (x in conns <==> x in st.conns && x != fd) && (x in conns ==> conns[x] == st.conns[x])
            case Publication(_) => conns == st.conns
  {
    hide Subscribe, TakeBack, EraseAll, InsertAll;
  }

  // `x` was connected by event number `i`, as the connection `c` says, and not disconnected later.
  ghost predicate ConnectedAt(events: seq<Event>, x: int, c: Conn, i: nat) {
    && i < |events| && events[i] == Connect(x, c.dev, c.anonymous)
    && forall j | i < j < |events| :: events[j] != Offline(x)
  }

  ghost predicate AllConnected(events: seq<Event>, conns: map<int, Conn>) {
    forall x | x in conns :: exists i: nat :: ConnectedAt(events, x, conns[x], i)
  }

  lemma StillConnected(done: seq<Event>, e: Event, x: int, c: Conn, c': Conn, i: nat)
    requires ConnectedAt(done, x, c, i) && e != Offline(x) && c'.dev == c.dev && c'.anonymous == c.anonymous
    ensures ConnectedAt(done + [e], x, c', i)
  {
  }

  lemma StepConnected(st: State, done: seq<Event>, e: Event)
    requires AllConnected(done, st.conns) && Step(st, e).To?
    ensures AllConnected(done + [e], Step(st, e).state.conns)
  {
    var conns := Step(st, e).state.conns;
    hide Step;
    forall x | x in conns
      ensures exists i: nat :: ConnectedAt(done + [e], x, conns[x], i)
    {
      StepConns(st, e, x);
      if x in st.conns {
        var i: nat :| ConnectedAt(done, x, st.conns[x], i);
        StillConnected(done, e, x, st.conns[x], conns[x], i);
      } else {
        assert ConnectedAt(done + [e], x, conns[x], |done|);
      }
    }
  }

  lemma {:induction false} RunConnected(st: State, done: seq<Event>, events: seq<Event>)
    requires AllConnected(done, st.conns) && Completes(st, events)
    ensures AllConnected(done + events, Run(st, events).conns)
    decreases |events|
  {
    hide Step, AllConnected;
    if events == [] {
      assert done + [] == done;
    } else {
      StepConnected(st, done, events[0]);
      RunConnected(Step(st, events[0]).state, done + [events[0]], events[1..]);
      assert done + [events[0]] + events[1..] == done + events;
    }
  }

  // In a reachable state every connection belongs to the developer and the user that connected with
  // its number last; so it is they of whom `AnonymousNeverPrivate` speaks.
  lemma ReachableConnected(events: seq<Event>, x: int)
    requires Completes(START, events) && x in Run(START, events).conns
    ensures exists i: nat :: ConnectedAt(events, x, Run(START, events).conns[x], i)
  {
    RunConnected(START, [], events);
    assert [] + events == events;
  }

  // A run that stops is the run of the events before.
  lemma {:induction false} StoppedRun(st: State, events: seq<Event>) returns (n: nat)
    ensures n <= |events| && Completes(st, events[..n]) && Run(st, events[..n]) == Run(st, events)
    ensures n < |events| ==> Step(Run(st, events), events[n]).Undefined?
    decreases |events|
  {
    hide Step;
    if events == [] || Step(st, events[0]).Undefined? {
      n := 0;
      assert events[..0] == [];
    } else {
      var m := StoppedRun(Step(st, events[0]).state, events[1..]);
      n := m + 1;
      assert events[..n][0] == events[0] && events[..n][1..] == events[1..][..m];
    }
  }

  lemma {:induction false} NobodyDead(xs: seq<int>, dev: int, live: Live)
    requires forall x | Count(xs, x) > 0 :: live(x, dev)
    ensures OnlyLive(xs, dev, live) == xs
  {
    if xs != [] {
      assert Count(xs, xs[0]) > 0;
      forall x | Count(xs[1..], x) > 0
        ensures live(x, dev)
      {
        assert Count(xs, x) > 0;
      }
      NobodyDead(xs[1..], dev, live);
    }
  }

  // Hence a publication in a reachable state finds every subscriber alive and erases nobody.
  lemma ReachablePublication(events: seq<Event>, k: Key)
    ensures var st := Run(START, events);
            OnlyLive(Subscribers(st.pipes, k), k.dev, LiveIn(st.conns)) == Subscribers(st.pipes, k)
  {
    var st := Run(START, events);
    forall x | Count(Subscribers(st.pipes, k), x) > 0
      ensures LiveIn(st.conns)(x, k.dev)
    {
      ReachableAgrees(events, k, x);
      assert Occurs(st.pipes, k, x) > 0;
    }
    NobodyDead(Subscribers(st.pipes, k), k.dev, LiveIn(st.conns));
  }

  // A connection that sent a list of valid names is subscribed to exactly those, each as often as
  // it was named.
  lemma CommandSubscribes(st: State, fd: int, names: seq<string>, k: Key)
    requires Inv(st) && fd in st.conns
    requires names != [] && |names| <= MAX_PIPES && ValidNames(names, st.conns[fd].anonymous)
    ensures var next := Step(st, Command(fd, Join(names)));
            && (next.To? <==> !TakesBeyond(st.conns[fd]))
            && (next.To? ==>
                  && fd in next.state.conns
                  && Occurs(next.state.pipes, k, fd) == if k.dev == st.conns[fd].dev then Count(names, k.name) else 0)
  {
    hide Inv, Scan, Visited, Join, ValidNames, TakeBack;
    var c := st.conns[fd];
    SubscribeRoundTrip(names, c.anonymous, Cleared(c.slots), c.data);
    TakeBackLeavesIff(c.slots, c.data, 0);
    var next := Step(st, Command(fd, Join(names)));
    if next.To? {
      CommandKeepsInv(st, fd, Join(names));
      NamesOf(next.state.conns[fd], names);
      AgreesAt(next.state, k, fd);
    }
  }

  // ----- which events have no next state -----

  // Some slot that taking back visits has no NUL behind its name.
  ghost predicate TakesBeyond(c: Conn) {
    exists k :: OpenEnd(c.slots, c.data, 0, k)
  }

  // The list is answered with -1, and taking back what the connection then holds leaves its text.
  ghost predicate RefusalTakesBeyond(c: Conn, event: string) {
    var r := Subscribe(event, c.anonymous, Cleared(c.slots), c.data);
    r.Done? && r.code == -1 && TakesBeyond(Subscribed(c, event, r))
  }

  // The events without a next state: a command or a disconnection that first has to take back what
  // is beyond the text, a command of an anonymous connection whose scan leaves the text, and one
  // that is refused and takes back such slots when its connection closes.
  lemma EventRunsIff(st: State, e: Event)
    ensures Step(st, e).Undefined? <==>
            && (e.Command? || e.Offline?) && e.fd in st.conns
            && (|| TakesBeyond(st.conns[e.fd])
                || (e.Command? && LeavesText(e.event, st.conns[e.fd].anonymous))
                || (e.Command? && RefusalTakesBeyond(st.conns[e.fd], e.event)))
  {
    hide Subscribe, LeavesText, TakeBack, OpenEnd;
    if (e.Command? || e.Offline?) && e.fd in st.conns {
      var c := st.conns[e.fd];
      TakeBackLeavesIff(c.slots, c.data, 0);
      if e.Command? {
        SubscribeLeavesTextIff(e.event, c.anonymous, Cleared(c.slots), c.data);
        var r := Subscribe(e.event, c.anonymous, Cleared(c.slots), c.data);
        if r.Done? {
          TakeBackLeavesIff(r.slots, r.data, 0);
        }
      }
    }
  }

  // A slot behind whose name no NUL stands was not filled together with an insertion, is none of
  // the four that are cleared, and the last list that was stored fills the whole text.
  lemma BeyondIsStale(c: Conn, k: nat)
    requires TextOk(c) && OpenEnd(c.slots, c.data, 0, k)
    ensures c.inserted <= k && CLEARED_SLOTS <= k && c.stored == DATA_LEN
  {
    hide EndsInside, OpenEnd;
    OpenEndIsStale(c.slots, c.data, c.inserted, k);
  }

  lemma ReachableBeyond(events: seq<Event>, fd: int, k: nat)
    requires fd in Run(START, events).conns
    ensures var c := Run(START, events).conns[fd];
            OpenEnd(c.slots, c.data, 0, k) ==> c.inserted <= k && CLEARED_SLOTS <= k && c.stored == DATA_LEN
  {
    hide TextOk, OpenEnd;
    RunKeepsInv(START, events);
    var c := Run(START, events).conns[fd];
    assert ConnOk(c);
    if OpenEnd(c.slots, c.data, 0, k) {
      BeyondIsStale(c, k);
    }
  }

  // A refused list that makes its own taking back leave the text fills the text.
  lemma RefusalFillsText(c: Conn, event: string)
    requires ConnOk(c) && RefusalTakesBeyond(c, event)
    ensures |event| == DATA_LEN
  {
    hide Subscribe, TextOk, OpenEnd;
    var r := Subscribe(event, c.anonymous, Cleared(c.slots), c.data);
    SubscribedOk(c, event);
    var k :| OpenEnd(r.slots, r.data, 0, k);
    BeyondIsStale(Subscribed(c, event, r), k);
    if |event| > DATA_LEN {
      TooLongEmpty(c, event);
    }
  }

  lemma TooLongEmpty(c: Conn, event: string)
    requires |event| > DATA_LEN
    ensures !TakesBeyond(Subscribed(c, event, Subscribe(event, c.anonymous, Cleared(c.slots), c.data)))
  {
    var slots := Cleared(c.slots);
    assert forall k :: !OpenEnd(slots, c.data, 0, k) by {
      assert slots[0].Empty?;
    }
  }

  // No list of 2176 characters, and none whose scan leaves the text for an anonymous user.
  predicate Harmless(e: Event) {
    e.Command? ==> |e.event| != DATA_LEN && !LeavesText(e.event, true)
  }

  ghost predicate NoneFull(conns: map<int, Conn>) {
    forall x | x in conns :: conns[x].stored != DATA_LEN
  }

  lemma HarmlessStep(st: State, e: Event)
    requires Inv(st) && NoneFull(st.conns) && Harmless(e)
    ensures Step(st, e).To? && NoneFull(Step(st, e).state.conns)
  {
    hide Subscribe, LeavesText, TakeBack, OpenEnd, EraseAll, InsertAll;
    EventRunsIff(st, e);
    if (e.Command? || e.Offline?) && e.fd in st.conns {
      var c := st.conns[e.fd];
      assert ConnOk(c);
      if k :| OpenEnd(c.slots, c.data, 0, k) {
        BeyondIsStale(c, k);
      }
      if e.Command? {
        LoggedInStays(e.event, Cleared(c.slots), c.data);
        SubscribeLeavesTextIff(e.event, c.anonymous, Cleared(c.slots), c.data);
        if RefusalTakesBeyond(c, e.event) {
          RefusalFillsText(c, e.event);
        }
      }
    }
  }

  // Runs in which no list has exactly 2176 characters and no scan can leave its text complete all
  // their events.
  lemma {:induction false} HarmlessRunsComplete(st: State, events: seq<Event>)
    requires Inv(st) && NoneFull(st.conns) && (forall i | 0 <= i < |events| :: Harmless(events[i]))
    ensures Completes(st, events)
    decreases |events|
  {
    hide Inv, Step, Harmless, NoneFull;
    if events != [] {
      HarmlessStep(st, events[0]);
      StepKeepsInv(st, events[0]);
      HarmlessRunsComplete(Step(st, events[0]).state, events[1..]);
    }
  }

  lemma {:induction false} OneMore(st: State, events: seq<Event>, e: Event)
    requires Completes(st, events)
    ensures var st' := Run(st, events);
            && (Completes(st, events + [e]) <==> Step(st', e).To?)
            && Run(st, events + [e]) == if Step(st', e).To? then Step(st', e).state else st'
    decreases |events|
  {
    hide Step;
    if events == [] {
      assert [] + [e] == [e] && [e][1..] == [];
    } else {
      assert (events + [e])[1..] == events[1..] + [e];
      OneMore(Step(st, events[0]).state, events[1..], e);
    }
  }

  const SIX: seq<Event> := [Connect(1, 0, false)] + [Command(1, SIX_NAMES)]

  lemma AfterSixNames()
    ensures Completes(START, SIX)
    ensures var st := Run(START, SIX);
            && 1 in st.conns && !st.conns[1].anonymous && st.conns[1].stored == 17
            && forall j | 0 <= j < 6 :: st.conns[1].slots[j] == Name(3 * j)
  {
    hide Subscribe;
    var st := START.(conns := map[1 := NewConn(0, false)]);
    var first := [Connect(1, 0, false)];
    assert first[1..] == [];
    var c := st.conns[1];
    SixNames(Cleared(c.slots), c.data);
    OneMore(START, first, Command(1, SIX_NAMES));
  }

  // A user who has logged in subscribes to six names and then sends a list of 2176 characters: it
  // is refused, and its connection, which still holds the slot of the fifth name, takes back beyond
  // the text when it closes.
  lemma RefusedListTakesBeyond()
    ensures Completes(START, SIX)
    ensures var st := Run(START, SIX);
            && 1 in st.conns && !TakesBeyond(st.conns[1]) && RefusalTakesBeyond(st.conns[1], FULL_REFUSED)
            && Step(st, Command(1, FULL_REFUSED)).Undefined?
  {
    hide Subscribe, TakeBack, OpenEnd, Run, Completes;
    AfterSixNames();
    var st := Run(START, SIX);
    FullRefused(Cleared(st.conns[1].slots), st.conns[1].data);
    if k :| OpenEnd(st.conns[1].slots, st.conns[1].data, 0, k) {
      ReachableBeyond(SIX, 1, k);
    }
    EventRunsIff(st, Command(1, FULL_REFUSED));
  }

  // Another such list is accepted, and what comes next, a command or the disconnection, takes back
  // beyond the text.
  lemma AcceptedListTakesBeyond(e: Event)
    requires (e.Offline? || e.Command?) && e.fd == 1
    ensures Completes(START, SIX + [Command(1, FULL_ACCEPTED)])
    ensures var st := Run(START, SIX + [Command(1, FULL_ACCEPTED)]);
            1 in st.conns && TakesBeyond(st.conns[1]) && Step(st, e).Undefined?
  {
    hide Subscribe, TakeBack, OpenEnd, Run, Completes;
    AfterSixNames();
    var st := Run(START, SIX);
    var c := st.conns[1];
    FullAccepted(Cleared(c.slots), c.data);
    if k :| OpenEnd(c.slots, c.data, 0, k) {
      ReachableBeyond(SIX, 1, k);
    }
    TakeBackLeavesIff(c.slots, c.data, 0);
    OneMore(START, SIX, Command(1, FULL_ACCEPTED));
    EventRunsIff(Run(START, SIX + [Command(1, FULL_ACCEPTED)]), e);
  }

  lemma NamesOf(c: Conn, names: seq<string>)
    requires |names| <= MAX_PIPES && c.inserted == |names| && names <= Visited(c.slots, c.data, 0)
    ensures Names(c) == names
  {
  }

  lemma AgreesAt(st: State, k: Key, x: int)
    requires Inv(st)
    ensures Occurs(st.pipes, k, x) == Expected(st.conns, k, x)
  {
  }

  // ----- the lists behind the channels -----

  lemma WithoutShift(a: int, s: seq<int>, k: nat)
    requires k < |s|
    ensures Without([a] + s, k + 1) == [a] + Without(s, k)
  {
    assert ([a] + s)[k + 2..] == s[k + 1..];
    assert ([a] + s)[..k + 1] == [a] + s[..k];
  }

  // The sequences of this module are the contents of the linked lists: erasing is the list's
  // `remove`, and what a publication leaves is what its walk over the list leaves.
  lemma {:induction false} EraseIsRemove(xs: seq<int>, x: int)
    ensures WithoutFirst(xs, x) == if x in xs then Without(xs, FirstIndex(xs, x)) else xs
  {
    if xs != [] && xs[0] != x {
      EraseIsRemove(xs[1..], x);
      if x in xs {
        WithoutShift(xs[0], xs[1..], FirstIndex(xs[1..], x));
        assert [xs[0]] + xs[1..] == xs;
      }
    }
  }

  // Inserting into a channel is the list's `append`: what `FastList.Append` leaves of the contents.
  lemma InsertIsAppend(pipes: Pipes, k: Key, fd: int, data: map<nat, int>, ns: seq<nat>, p: nat)
    requires HasData(data, ns) && p !in ns && Subscribers(pipes, k) == Values(data, ns)
    ensures HasData(data[p := fd], [p] + ns)
    ensures Subscribers(Insert(pipes, k, fd), k) == Values(data[p := fd], [p] + ns)
    ensures forall k' | k' != k :: Subscribers(Insert(pipes, k, fd), k') == Subscribers(pipes, k')
  {
    ValuesFront(data, ns, p, fd);
  }

  lemma {:induction false} OnlyLiveConcat(xs: seq<int>, ys: seq<int>, dev: int, live: Live)
    ensures OnlyLive(xs + ys, dev, live) == OnlyLive(xs, dev, live) + OnlyLive(ys, dev, live)
  {
    if xs == [] {
      assert xs + ys == ys;
    } else {
      assert (xs + ys)[1..] == xs[1..] + ys;
      OnlyLiveConcat(xs[1..], ys, dev, live);
    }
  }

  lemma {:induction false} PublishedIsWalked(xs: seq<int>, dev: int, live: Live, alive: int -> bool)
    requires forall x :: alive(x) == live(x, dev)
    ensures OnlyLive(xs, dev, live) == Alive(alive, xs)
  {
    if xs != [] {
      var k := |xs| - 1;
      PublishedIsWalked(xs[..k], dev, live, alive);
      OnlyLiveConcat(xs[..k], [xs[k]], dev, live);
      assert xs[..k] + [xs[k]] == xs;
      assert [xs[k]][1..] == [];
    }
  }

  // A publication leaves its channel as the walk does, with the subscribers that are connected as the
  // channel's developer, and no other channel changes.
  lemma PublicationWalks(st: State, k: Key, k': Key)
    ensures var next := Step(st, Publication(k));
            && next.To? && next.state.conns == st.conns
            && Subscribers(next.state.pipes, k)
               == Alive(x => x in st.conns && st.conns[x].dev == k.dev, Subscribers(st.pipes, k))
            && (k' != k ==> Subscribers(next.state.pipes, k') == Subscribers(st.pipes, k'))
  {
    PublishedIsWalked(Subscribers(st.pipes, k), k.dev, LiveIn(st.conns),
                      x => x in st.conns && st.conns[x].dev == k.dev);
  }
}
