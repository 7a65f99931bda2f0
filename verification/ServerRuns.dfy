/** The server over time: any bytes received, messages dispatched, queueing switched on and off. */
module ServerRuns {
  import opened Bytes
  import opened Timetags
  import opened OscArgs
  import opened Validators
  import opened Trees
  import opened Scheduling
  import opened Dispatching
  import opened Traces
  import opened Arrivals
  import opened Harvests
  import opened Overtaking
  import opened LinkedLists
  import opened Servers

  /** A packet is received, a call dispatches from the queue, or queueing is switched. */
  datatype Call =
    | Receive(data: seq<byte>, sock: int)
    | Timeout(all: bool)
    | Enable(enable: bool, remaining: bool)

  /** The server with its queueing flag, and the messages it has received so far. */
  datatype History = History(server: State, enqueue: bool, received: seq<Entry>)

  const START := History(State([], [], 0), true, [])

  function Received(clock: nat -> Timetag, h: History, data: seq<byte>, sock: int): History {
    var c := Setting(h.enqueue, clock, sock);
    History(DispatchData(c, h.server, data, |data|).state, h.enqueue,
            h.received + EntriesOf(HarvestData(c, h.server.readings, data, |data|).leaves))
  }

  function Perform(clock: nat -> Timetag, h: History, call: Call): History {
    match call
    case Receive(data, sock) => Received(clock, h, data, sock)
    case Timeout(all) => h.(server := DispatchedState(h.server, all))
    case Enable(enable, remaining) =>
      if !enable && remaining && h.server.queue != [] then
        History(DispatchedState(h.server, true), enable, h.received)
      else h.(enqueue := enable)
  }

  function PerformAll(clock: nat -> Timetag, h: History, calls: seq<Call>): History
    decreases |calls|
  {
    if calls == [] then h else PerformAll(clock, Perform(clock, h, calls[0]), calls[1..])
  }

  // What a run does to the messages

  function ViewOf(h: History): Schedule { Schedule(h.server.queue, Delivered(h.server.events), h.received) }

  /** The arrivals and dispatches that a call amounts to. */
  function Happenings(clock: nat -> Timetag, h: History, call: Call): seq<Happening> {
    match call
    case Receive(data, sock) =>
      AllArrive(HarvestData(Setting(h.enqueue, clock, sock), h.server.readings, data, |data|).leaves)
    case Timeout(all) => [Serve(all)]
    case Enable(enable, remaining) => if !enable && remaining then [Serve(true)] else []
  }

  function AllHappenings(clock: nat -> Timetag, h: History, calls: seq<Call>): seq<Happening>
    decreases |calls|
  {
    if calls == [] then []
    else Happenings(clock, h, calls[0]) + AllHappenings(clock, Perform(clock, h, calls[0]), calls[1..])
  }

  lemma {:induction false} DeliveredDeliveries(events: seq<Event>, q: seq<Entry>)
    ensures Delivered(events + Deliveries(q)) == Delivered(events) + q
  {
    if q == [] {
      assert events + Deliveries(q) == events;
    } else {
      var n := |q| - 1;
      DeliveredDeliveries(events, q[..n]);
      assert (events + Deliveries(q))[..|events| + n] == events + Deliveries(q[..n]);
      assert q == q[..n] + [q[n]];
    }
  }

  lemma ServeOne(s: Schedule, all: bool)
    ensures AfterAll(s, [Serve(all)]) == Next(s, Dispatch(all))
  {
    var hs := [Serve(all)];
    assert hs[1..] == [];
  }

  lemma DispatchServes(s: State, received: seq<Entry>, all: bool)
    ensures var d := DispatchedState(s, all);
            Schedule(d.queue, Delivered(d.events), received) ==
            AfterAll(Schedule(s.queue, Delivered(s.events), received), [Serve(all)])
  {
    ServeOne(Schedule(s.queue, Delivered(s.events), received), all);
    if s.queue == [] {
      DeliveredLog(s, Throw(LO_INT_ERR));
      assert Delivered(s.events) + [] == Delivered(s.events);
    } else {
      DeliveredDeliveries(s.events, s.queue[..Dispatched(s.queue, all)]);
    }
    hide Delivered, Deliveries, Dispatched;
  }

  lemma PerformHappens(clock: nat -> Timetag, h: History, call: Call)
    ensures ViewOf(Perform(clock, h, call)) == AfterAll(ViewOf(h), Happenings(clock, h, call))
  {
    hide Delivered, DispatchData, HarvestData, Dispatched, Deliveries, Select, EntriesOf, InsertAll;
    match call
    case Receive(data, sock) =>
      assert data[..|data|] == data;
      var c := Setting(h.enqueue, clock, sock);
      BytesArrive(c, h.server, data, |data|);
      ArrivalsAre(ViewOf(h), HarvestData(c, h.server.readings, data, |data|).leaves);
    case Timeout(all) => DispatchServes(h.server, h.received, all);
    case Enable(enable, remaining) =>
      DispatchServes(h.server, h.received, true);
      if h.server.queue == [] {
        ServeOne(ViewOf(h), true);
        NothingServed(ViewOf(h), true);
      }
  }

  lemma NothingServed(s: Schedule, all: bool)
    requires s.queue == []
    ensures Next(s, Dispatch(all)) == s
  {
    assert s.done + [] == s.done;
  }

  lemma {:induction false} RunHappens(clock: nat -> Timetag, h: History, calls: seq<Call>)
    ensures ViewOf(PerformAll(clock, h, calls)) == AfterAll(ViewOf(h), AllHappenings(clock, h, calls))
    decreases |calls|
  {
    hide Perform, Happenings, ViewOf, After;
    if calls != [] {
      var n := Perform(clock, h, calls[0]);
      PerformHappens(clock, h, calls[0]);
      RunHappens(clock, n, calls[1..]);
      AfterAppend(ViewOf(h), Happenings(clock, h, calls[0]), AllHappenings(clock, n, calls[1..]));
    }
  }

  /**
   * In every run of calls on whatever bytes: the queue is in order, and no message is lost or
   * delivered twice; messages of one time keep their order of arrival unless one that is due
   * overtakes a queued one, and, where no two are the same, only then.
   */
  lemma ServerConserves(clock: nat -> Timetag, calls: seq<Call>)
    ensures var after, hs := ViewOf(PerformAll(clock, START, calls)), AllHappenings(clock, START, calls);
            Conserved(after) &&
            (NeverOvertakes(EMPTY, hs) ==> InOrderOfArrival(after)) &&
            (AllDifferent(after.enqueued) ==> (InOrderOfArrival(after) <==> NeverOvertakes(EMPTY, hs)))
  {
    RunHappens(clock, START, calls);
    KeepsOrderExactly(AllHappenings(clock, START, calls));
    hide PerformAll, AllHappenings, AfterAll, InOrderOfArrival, NeverOvertakes, Conserved, AllDifferent;
  }

  /** The run in memory: the server ends up in the state the functions say. */
  method Execute(s: Server, calls: seq<Call>, ghost h: History)
    requires s.Valid() && s.Now() == h.server && s.enqueue == h.enqueue
    modifies s`enqueue, s`queued, s`spine, s`events, s`readings, s.Nodes()
    ensures var z := PerformAll(s.clock, h, calls);
            s.Valid() && s.Now() == z.server && s.enqueue == z.enqueue
  {
    hide Dispatching.DispatchData, HarvestData, Server.Valid, EntriesOf;
    var i := 0;
    ghost var k := h;
    assert calls[0..] == calls;
    while i < |calls|
      invariant i <= |calls| && s.Valid() && fresh(s.Nodes() - old(s.Nodes()))
      invariant s.Now() == k.server && s.enqueue == k.enqueue
      invariant PerformAll(s.clock, h, calls) == PerformAll(s.clock, k, calls[i..])
    {
      assert calls[i..][1..] == calls[i + 1..] && calls[i..][0] == calls[i];
      k := Perform(s.clock, k, calls[i]);
      ExecuteOne(s, calls[i]);
      i := i + 1;
    }
  }

  method ExecuteOne(s: Server, call: Call)
    requires s.Valid()
    modifies s`enqueue, s`queued, s`spine, s`events, s`readings, s.Nodes()
    ensures s.Valid() && fresh(s.Nodes() - old(s.Nodes()))
    ensures var h := Perform(s.clock, History(old(s.Now()), old(s.enqueue), []), call);
            s.Now() == h.server && s.enqueue == h.enqueue
  {
    hide Dispatching.DispatchData, HarvestData, Server.Valid, EntriesOf, Linked, DispatchedState, Deliveries;
    AllDispatched(s.Now());
    match call
    case Receive(data, sock) =>
      assert data[0..] == data;
      var _ := s.DispatchData(data, 0, |data|, sock);
    case Timeout(all) => var _ := s.DispatchQueued(all);
    case Enable(enable, remaining) => var _ := s.EnableQueue(enable, remaining);
  }

  lemma AllDispatched(s: State)
    ensures (if s.queue == [] then s else DispatchedState(s, true)) ==
            State([], s.events + Deliveries(s.queue), s.readings)
  {
    DispatchAllEmpties(s.queue);
    assert s.queue[..|s.queue|] == s.queue;
    if s.queue == [] {
      assert s.events + Deliveries([]) == s.events;
    }
  }

  /** A bundle of one message. */
  function Single(ts: Timetag, path: CString, args: seq<Arg>): Tree { BundleTree(ts, [MessageTree(path, args)]) }

  /**
   * A message is queued; another of the same time comes after that time, but before the queue is
   * dispatched, and is delivered first.
   */
  lemma Overtaken(clock: nat -> Timetag, ts: Timetag, p: CString, xs: seq<Arg>, q: CString, ys: seq<Arg>, sock: int)
    requires ts != IMMEDIATE && Diff(ts, clock(0)) > 0.0 && Diff(ts, clock(1)) <= 0.0
    requires WellFormed(Single(ts, p, xs)) && |TreeWire(Single(ts, p, xs))| < LIMIT
    requires WellFormed(Single(ts, q, ys)) && |TreeWire(Single(ts, q, ys))| < LIMIT
    ensures var calls := [Receive(TreeWire(Single(ts, p, xs)), sock), Receive(TreeWire(Single(ts, q, ys)), sock),
                          Timeout(false)];
            Delivered(PerformAll(clock, START, calls).server.events) ==
            [Entry(ts, q, ImageOf(ys), sock), Entry(ts, p, ImageOf(xs), sock)]
  {
    hide DispatchData, DispatchedState, TreeWire, Trace, ImageOf, Delivered, HarvestData, EntriesOf, WellFormed,
         Diff, Single;
    var c, e, f := Setting(true, clock, sock), Entry(ts, p, ImageOf(xs), sock), Entry(ts, q, ImageOf(ys), sock);
    var s1 := State([e], [BundleStart(ts), BundleEnd], 1);
    var s2 := State([e], [BundleStart(ts), BundleEnd, BundleStart(ts), Deliver(f), BundleEnd], 2);
    QueuedFirst(c, ts, p, xs);
    DeliveredNext(c, s1, ts, q, ys);
    assert s1.events + [BundleStart(ts), Deliver(f), BundleEnd] == s2.events;
    OneDispatched(s2, e);
    DeliveredTwo(ts, e, f);
    var calls := [Receive(TreeWire(Single(ts, p, xs)), sock), Receive(TreeWire(Single(ts, q, ys)), sock),
                  Timeout(false)];
    ThreeCalls(clock, calls);
    assert Perform(clock, START, calls[0]).server == s1;
    assert Perform(clock, Perform(clock, START, calls[0]), calls[1]).server == s2;
  }

  lemma QueuedFirst(c: Setting, ts: Timetag, p: CString, xs: seq<Arg>)
    requires c.enqueue && ts != IMMEDIATE && Diff(ts, c.clock(0)) > 0.0
    requires WellFormed(Single(ts, p, xs)) && |TreeWire(Single(ts, p, xs))| < LIMIT
    ensures var b := TreeWire(Single(ts, p, xs));
            b[..|b|] == b && DispatchData(c, START.server, b, |b|).state ==
            State([Entry(ts, p, ImageOf(xs), c.sock)], [BundleStart(ts), BundleEnd], 1)
  {
    EndsBeforeDelivery(c, START.server, ts, p, xs);
    OneInserted(Entry(ts, p, ImageOf(xs), c.sock));
    ReceivesTree(c, START.server, Single(ts, p, xs));
    hide DispatchData, TreeWire, Trace, ImageOf, WellFormed, Diff;
  }

  lemma DeliveredNext(c: Setting, s: State, ts: Timetag, q: CString, ys: seq<Arg>)
    requires Diff(ts, c.clock(s.readings)) <= 0.0
    requires WellFormed(Single(ts, q, ys)) && |TreeWire(Single(ts, q, ys))| < LIMIT
    ensures var b := TreeWire(Single(ts, q, ys));
            b[..|b|] == b && DispatchData(c, s, b, |b|).state ==
            State(s.queue, s.events + [BundleStart(ts), Deliver(Entry(ts, q, ImageOf(ys), c.sock)), BundleEnd],
                  s.readings + 1)
  {
    DeliveredBeforeEnd(c, s, ts, q, ys);
    ReceivesTree(c, s, Single(ts, q, ys));
    hide DispatchData, TreeWire, Trace, ImageOf, WellFormed, Diff;
  }

  lemma ThreeCalls(clock: nat -> Timetag, calls: seq<Call>)
    requires |calls| == 3
    ensures PerformAll(clock, START, calls) ==
            Perform(clock, Perform(clock, Perform(clock, START, calls[0]), calls[1]), calls[2])
  {
    hide Perform;
    assert calls[1..][1..] == calls[2..] && calls[2..][1..] == [];
    var h := Perform(clock, START, calls[0]);
    var k := Perform(clock, h, calls[1]);
    assert PerformAll(clock, START, calls) == PerformAll(clock, h, calls[1..]);
    assert PerformAll(clock, h, calls[1..]) == PerformAll(clock, k, calls[2..]);
    assert PerformAll(clock, k, calls[2..]) == PerformAll(clock, Perform(clock, k, calls[2]), []);
  }

  lemma ReceivesTree(c: Setting, s: State, t: Tree)
    requires WellFormed(t) && |TreeWire(t)| < LIMIT
    ensures TreeWire(t)[..|TreeWire(t)|] == TreeWire(t) && DispatchData(c, s, TreeWire(t), |TreeWire(t)|).state ==
            Trace(c, s, t)
  {
    DispatchIsTrace(c, s, t, []);
    hide DispatchData, TreeWire, Trace, WellFormed;
    assert TreeWire(t) + [] == TreeWire(t);
  }

  lemma OneInserted(e: Entry)
    ensures Insert([], e) == [e]
  {
  }

  lemma OneDispatched(s: State, e: Entry)
    requires s.queue == [e]
    ensures DispatchedState(s, false) == State([], s.events + [Deliver(e)], s.readings)
  {
    assert s.queue[1..] == [] && Dispatched(s.queue, false) == 1;
    assert Deliveries(s.queue[..1]) == [Deliver(e)];
  }

  lemma DeliveredTwo(ts: Timetag, e: Entry, f: Entry)
    ensures Delivered([BundleStart(ts), BundleEnd, BundleStart(ts), Deliver(f), BundleEnd] + [Deliver(e)]) == [f, e]
  {
    var s := State([], [], 0);
    DeliveredLog(s, BundleStart(ts));
    var s1 := Log(s, BundleStart(ts));
    DeliveredLog(s1, BundleEnd);
    var s2 := Log(s1, BundleEnd);
    DeliveredLog(s2, BundleStart(ts));
    var s3 := Log(s2, BundleStart(ts));
    DeliveredLog(s3, Deliver(f));
    var s4 := Log(s3, Deliver(f));
    DeliveredLog(s4, BundleEnd);
    var s5 := Log(s4, BundleEnd);
    DeliveredLog(s5, Deliver(e));
    hide Delivered;
    assert Log(s5, Deliver(e)).events ==
           [BundleStart(ts), BundleEnd, BundleStart(ts), Deliver(f), BundleEnd] + [Deliver(e)];
  }
}
