/** Which messages are queued: what the time of a bundle and the queueing flag decide. */
module Queueing {
  import opened Bytes
  import opened Timetags
  import opened OscArgs
  import opened Validators
  import opened Packets
  import opened Trees
  import opened Scheduling
  import opened Dispatching
  import opened Traces
  import opened Arrivals
  import opened Harvests
  import opened ServerRuns

  /**
   * A message among the elements of a bundle, whatever follows it: it is queued if queueing is enabled and
   * the time of the bundle is neither "immediately" nor reached, and delivered at once otherwise.
   */
  lemma QueuedExactly(c: Setting, s: State, ts: Timetag, now: Timetag, path: CString, args: seq<Arg>,
                      others: seq<byte>, k: nat)
    requires path != BUNDLE && AllSendable(args) && |Wire(path, args)| < LIMIT
    requires k <= |others| && ElementsFit(others[..k])
    ensures var b, n := Framed(Wire(path, args)) + others, 4 + |Wire(path, args)|;
            var e := Entry(ts, path, ImageOf(args), c.sock);
            var waits := c.enqueue && ts != Timetag(0, 1) && Diff(ts, now) > 0.0;
            var next := if waits then s.(queue := Insert(s.queue, e)) else s.(events := s.events + [Deliver(e)]);
            ElementsFit(b[..n + k]) &&
            DispatchElements(c, s, ts, now, b, n + k) == DispatchElements(c, next, ts, now, others, k)
  {
    hide Wire, Framed, ElementsFit, DispatchElements, DispatchData, Parse, IsBundle, Arrive;
    ElementStep(c, s, ts, now, Wire(path, args), others, k);
    MessageOrBundle(path, args, others);
    ParseWire(path, args);
    ArrivesExactly(c, s, ts, now, Message(path, args));
  }

  lemma ArrivesExactly(c: Setting, s: State, ts: Timetag, now: Timetag, m: Message)
    ensures var e := Entry(ts, m.path, ImageOf(m.args), c.sock);
            Arrive(c, s, ts, now, m) ==
            if c.enqueue && ts != Timetag(0, 1) && Diff(ts, now) > 0.0 then s.(queue := Insert(s.queue, e))
            else s.(events := s.events + [Deliver(e)])
  {
    hide ImageOf, Diff, Insert;
  }

  // Queueing disabled

  /** For all bytes: nothing is queued, and every message come upon is delivered, in order. */
  lemma NothingQueued(c: Setting, s: State, rest: seq<byte>, size: nat)
    requires size <= |rest| && !c.enqueue
    ensures var after := DispatchData(c, s, rest, size).state;
            after.queue == s.queue &&
            Delivered(after.events) == Delivered(s.events) + EntriesOf(HarvestData(c, s.readings, rest, size).leaves)
  {
    hide DispatchData, HarvestData, Delivered, EntriesOf, Select, InsertAll;
    BytesArrive(c, s, rest, size);
    NoneWaits(c, s.readings, rest, size);
    SelectAll(HarvestData(c, s.readings, rest, size).leaves);
    NothingInserted(s.queue);
  }

  lemma {:induction false} NoneWaits(c: Setting, readings: nat, rest: seq<byte>, size: nat)
    requires size <= |rest| && !c.enqueue
    ensures Select(HarvestData(c, readings, rest, size).leaves, false) == []
    decreases size
  {
    hide Parse, IsBundle, ValidateString, ValidateBundle, ElementsFit, TimetagIn, ImageOf, HarvestElements;
    var b := rest[..size];
    if ValidateString(b) >= 0 && IsBundle(rest) {
      if ValidateBundle(b) >= 0 {
        ValidBundle(c, START.server, rest, size);
        NoElementWaitsIn(c, readings + 1, TimetagIn(rest[8..]), c.clock(readings), rest[16..], size - 16);
      }
    }
  }

  lemma {:induction false} NoElementWaitsIn(c: Setting, readings: nat, ts: Timetag, now: Timetag, rest: seq<byte>,
                                            remain: nat)
    requires remain <= |rest| && ElementsFit(rest[..remain]) && !c.enqueue
    ensures Select(HarvestElements(c, readings, ts, now, rest, remain).leaves, false) == []
    decreases remain
  {
    hide Parse, IsBundle, ElementsFit, ElementSize, ImageOf, HarvestData, HarvestElements, Diff;
    HarvestStep(c, readings, ts, now, rest, remain);
    if remain >= 4 {
      var n, e := ElementSize(rest, remain), rest[4..];
      if IsBundle(e) {
        var h := HarvestData(c, readings, e, n);
        NoneWaits(c, readings, e, n);
        NoElementWaitsIn(c, readings + h.taken, ts, now, e[n..], remain - 4 - n);
        SelectAppend(h.leaves, HarvestElements(c, readings + h.taken, ts, now, e[n..], remain - 4 - n).leaves, false);
      } else {
        match Parse(e[..n])
        case Failure(_) =>
        case Success(m) =>
          NoElementWaitsIn(c, readings, ts, now, e[n..], remain - 4 - n);
      }
    }
  }

  /** No call enables queueing. */
  predicate NeverEnables(calls: seq<Call>) {
    forall i | 0 <= i < |calls| && calls[i].Enable? :: !calls[i].enable
  }

  lemma {:induction false} StaysEmpty(clock: nat -> Timetag, h: History, calls: seq<Call>)
    requires h.server.queue == [] && !h.enqueue && NeverEnables(calls)
    ensures var z := PerformAll(clock, h, calls); z.server.queue == [] && !z.enqueue
    decreases |calls|
  {
    if calls != [] {
      OneCallKeepsEmpty(clock, h, calls[0]);
      StaysEmpty(clock, Perform(clock, h, calls[0]), calls[1..]);
    }
  }

  lemma OneCallKeepsEmpty(clock: nat -> Timetag, h: History, call: Call)
    requires h.server.queue == [] && !h.enqueue && (call.Enable? ==> !call.enable)
    ensures var z := Perform(clock, h, call); z.server.queue == [] && !z.enqueue
  {
    hide DispatchData, HarvestData;
    match call
    case Receive(data, sock) => NothingQueued(Setting(h.enqueue, clock, sock), h.server, data, |data|);
    case Timeout(all) =>
    case Enable(enable, remaining) =>
  }

  /**
   * Whatever has been received: once queueing is disabled and the remaining messages are dispatched, the
   * queue is empty, and stays so in every run until queueing is enabled again.
   */
  lemma DisabledStaysEmpty(clock: nat -> Timetag, h: History, calls: seq<Call>)
    requires NeverEnables(calls)
    ensures PerformAll(clock, h, [Enable(false, true)] + calls).server.queue == []
  {
    var all, z := [Enable(false, true)] + calls, Perform(clock, h, Enable(false, true));
    assert all[1..] == calls && all[0] == Enable(false, true);
    AllDispatched(h.server);
    hide DispatchedState, Perform;
    StaysEmpty(clock, z, calls);
  }

  /** Switching without dispatch leaves queue and events alone; dispatch of an empty queue is error 9906. */
  lemma OtherCalls(clock: nat -> Timetag, h: History, enable: bool, remaining: bool, all: bool)
    ensures enable || !remaining ==>
              Perform(clock, h, Enable(enable, remaining)) == h.(enqueue := enable)
    ensures Perform(clock, h, Enable(false, true)).server ==
            State([], h.server.events + Deliveries(h.server.queue), h.server.readings)
    ensures h.server.queue == [] ==>
              Perform(clock, h, Timeout(all)).server == h.server.(events := h.server.events + [Throw(9906)])
  {
    AllDispatched(h.server);
  }
}
