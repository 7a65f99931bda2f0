/** The server: its queue as a linked list, and the dispatch of packets and of queued messages. */
module Servers {
  import opened Bytes
  import opened Timetags
  import opened OscArgs
  import opened Validators
  import opened Packets
  import opened Messages
  import opened Scheduling
  import opened Dispatching
  import opened LinkedLists

  lemma NotBefore(spine: seq<Node<Entry>>, e: Entry, k: nat)
    requires k <= |spine| && forall i | 0 <= i < k :: Diff(spine[i].value.ts, e.ts) <= 0.0
    requires k < |spine| ==> Diff(spine[k].value.ts, e.ts) > 0.0
    ensures Insert(Values(spine), e) == Values(spine)[..k] + [e] + Values(spine)[k..]
  {
    InsertAt(Values(spine), e, k);
  }

  lemma DeliveriesUpTo(q: seq<Entry>, n: nat)
    requires n < |q|
    ensures Deliveries(q[..n + 1]) == Deliveries(q[..n]) + [Deliver(q[n])]
  {
  }

  /** `n` entries have been dispatched, and `more` says whether another is. */
  ghost predicate LeftToDispatch(q: seq<Entry>, n: nat, time: Timetag, all: bool, more: bool) {
    && n <= |q| && (more ==> n < |q|)
    && Dispatched(q, all) == n + if more then 1 + Due(q[n + 1..], time, all) else 0
  }

  lemma AllLeft(q: seq<Entry>, all: bool)
    requires q != []
    ensures LeftToDispatch(q, 0, q[0].ts, all, true) && q[0..] == q && Deliveries(q[..0]) == []
  {
  }

  lemma OneLess(q: seq<Entry>, n: nat, time: Timetag, all: bool)
    requires LeftToDispatch(q, n, time, all, true)
    ensures q[n..][0] == q[n] && q[n..][1..] == q[n + 1..]
    ensures LeftToDispatch(q, n + 1, time, all, n + 1 < |q| && (Diff(q[n + 1].ts, time) < FLT_EPSILON || all))
  {
    if n + 1 < |q| {
      assert q[n + 1..][1..] == q[n + 2..];
    }
  }

  class Server {
    const clock: nat -> Timetag
    var enqueue: bool
    var queued: Node?<Entry>
    var events: seq<Event>
    var readings: nat
    ghost var spine: seq<Node<Entry>>

    ghost predicate Valid()
      reads this, spine
    {
      Linked(queued, spine)
    }

    ghost function Nodes(): set<Node<Entry>>
      reads this
    {
      Members(spine)
    }

    ghost function Now(): State
      reads this
    {
      State(Values(spine), events, readings)
    }

    ghost function Settings(sock: int): Setting
      reads this
    {
      Setting(enqueue, clock, sock)
    }

    constructor (clock: nat -> Timetag)
      ensures Valid() && Now() == State([], [], 0) && enqueue
    {
      this.clock := clock;
      enqueue, queued, events, readings := true, null, [], 0;
      spine := [];
    }

    /** The first node that is later than `e`, and the node in front of it. */
    method FindPlace(e: Entry) returns (prev: Node?<Entry>, it: Node?<Entry>, ghost k: nat)
      requires Valid()
      ensures k <= |spine| && it == NodeAt(spine, k)
      ensures prev == if k == 0 then null else spine[k - 1]
      ensures prev != null ==> prev in Nodes()
      ensures Insert(Values(spine), e) == Values(spine)[..k] + [e] + Values(spine)[k..]
      ensures it != null ==> Diff(it.value.ts, e.ts) > 0.0
      ensures prev != null ==> Diff(prev.value.ts, e.ts) <= 0.0
    {
      prev, it, k := null, queued, 0;
      while it != null
        invariant k <= |spine| && it == NodeAt(spine, k)
        invariant prev == if k == 0 then null else spine[k - 1]
        invariant forall i | 0 <= i < k :: Diff(spine[i].value.ts, e.ts) <= 0.0
        decreases |spine| - k
      {
        if Diff(it.value.ts, e.ts) > 0.0 {
          break;
        }
        prev := it;
        it := it.next;
        k := k + 1;
      }
      NotBefore(spine, e, k);
    }

    /** Puts an entry in its place in the queue. */
    method QueueData(e: Entry)
      requires Valid()
      modifies this`queued, this`spine, Nodes()
      ensures Valid() && Now() == old(Now()).(queue := Insert(old(Values(spine)), e))
      ensures fresh(Nodes() - old(Nodes()))
    {
      hide Insert, Values, Diff, Members;
      var ins := new Node<Entry>(e);
      var prev, it;
      ghost var k;
      prev, it, k := FindPlace(e);
      if prev != null {
        prev.next := ins;
      } else {
        queued := ins;
      }
      ins.next := it;
      LinkedIn(queued, spine, k, ins);
      spine := spine[..k] + [ins] + spine[k..];
    }

    method DispatchMethod(e: Entry)
      modifies this`events
      ensures events == old(events) + [Deliver(e)]
    {
      events := events + [Deliver(e)];
    }

    method LoThrow(code: int)
      modifies this`events
      ensures events == old(events) + [Throw(code)]
    {
      events := events + [Throw(code)];
    }

    /** Delivers the head of the queue and whatever follows it closely, or the whole queue. */
    method DispatchQueued(all: bool) returns (r: int)
      requires Valid()
      modifies this`queued, this`spine, this`events
      ensures Valid()
      ensures r == if old(queued) == null then 1 else 0
      ensures Now() == DispatchedState(old(Now()), all)
      ensures Nodes() <= old(Nodes())
    {
      var head := queued;
      hide Diff, Due, Dispatched, Deliveries, Values, Linked, Members;
      HeadIs(queued, spine, Values(spine), 0);
      if head == null {
        LoThrow(LO_INT_ERR);
        return 1;
      }
      var time := head.value.ts;
      ghost var q, n := Values(spine), 0;
      LinkedRest(queued, spine);
      AllLeft(q, all);
      var more := true;
      while more
        invariant Valid() && head == queued && (more ==> head != null)
        invariant Nodes() <= old(Nodes())
        invariant n <= |q| && Values(spine) == q[n..]
        invariant events == old(events) + Deliveries(q[..n])
        invariant LeftToDispatch(q, n, time, all, more)
        decreases |q| - n, more
      {
        LinkedRest(queued, spine);
        DeliveriesUpTo(q, n);
        OneLess(q, n, time, all);
        var tailhead := head.next;
        DispatchMethod(queued.value);
        queued := tailhead;
        head := tailhead;
        spine := spine[1..];
        n := n + 1;
        HeadIs(queued, spine, q, n);
        more := head != null && (Diff(head.value.ts, time) < FLT_EPSILON || all);
      }
      return 0;
    }

    /** Turns queueing on or off; what is queued may be delivered when it is turned off. */
    method EnableQueue(enable: bool, dispatchRemaining: bool) returns (prev: bool)
      requires Valid()
      modifies this`enqueue, this`queued, this`spine, this`events
      ensures Valid() && prev == old(enqueue) && enqueue == enable
      ensures var q := old(Values(spine));
              if !enable && dispatchRemaining then
                Now() == State([], old(events) + Deliveries(q), old(readings))
              else
                Now() == old(Now())
      ensures Nodes() <= old(Nodes())
    {
      prev := enqueue;
      enqueue := enable;
      DispatchAllEmpties(Values(spine));
      if !enable && dispatchRemaining && queued != null {
        var _ := DispatchQueued(true);
      }
    }

    /** One message of a bundle, or its error. */
    method DispatchElement(b: seq<byte>, ts: Timetag, now: Timetag, sock: int) returns (error: int)
      requires Valid()
      modifies this`queued, this`spine, this`events, Nodes()
      ensures Valid() && fresh(Nodes() - old(Nodes()))
      ensures match Parse(b)
              case Failure(e) => error == e > 0 && Now() == Log(old(Now()), Throw(e))
              case Success(m) => error == 0 && Now() == Arrive(Settings(sock), old(Now()), ts, now, m)
    {
      hide Parse, Values, Insert, Diff, TypeString, HostData;
      var m;
      ParsedPath(b);
      m, error := Deserialise(b);
      if m == null {
        LoThrow(error);
        return error;
      }
      var e := Entry(ts, b[..StrLen(b)], Image(m.types[..m.typelen], m.data[..m.datalen]), sock);
      assert e.msg == ImageOf(m.args);
      if ts == IMMEDIATE || Diff(ts, now) <= 0.0 || !enqueue {
        DispatchMethod(e);
      } else {
        QueueData(e);
      }
    }

    /** The elements of a validated bundle. */
    method DispatchElements(data: seq<byte>, at: nat, size: nat, ts: Timetag, now: Timetag, sock: int)
      returns (result: int)
      requires Valid() && at + size <= |data| && ElementsFit(data[at..][..size])
      modifies this`queued, this`spine, this`events, this`readings, Nodes()
      ensures Valid() && fresh(Nodes() - old(Nodes()))
      ensures Outcome(Now(), result) ==
              Dispatching.DispatchElements(Settings(sock), old(Now()), ts, now, data[at..], size)
      decreases size, 0
    {
      hide Dispatching.DispatchData, Dispatching.DispatchElements, Parse, Arrive, ElementsFit, ElementSize, IsBundle,
           Values, Linked;
      var pos: nat, remain: nat := at, size;
      ElementsStep(Settings(sock), Now(), ts, now, data[pos..], remain);
      while remain >= 4
        invariant pos + remain == at + size <= |data| && remain <= size && Valid()
        invariant fresh(Nodes() - old(Nodes()))
        invariant ElementsFit(data[pos..][..remain])
        invariant Dispatching.DispatchElements(Settings(sock), old(Now()), ts, now, data[at..], size) ==
                  Dispatching.DispatchElements(Settings(sock), Now(), ts, now, data[pos..], remain)
      {
        ElementsStep(Settings(sock), Now(), ts, now, data[pos..], remain);
        var elemLen := ElementSize(data[pos..], remain);
        Drops(data, pos, 4);
        Drops(data, pos + 4, elemLen);
        pos, remain := pos + 4, remain - 4;
        if IsBundle(data[pos..]) {
          var _ := DispatchData(data, pos, elemLen, sock);
        } else {
          var error := DispatchElement(data[pos..][..elemLen], ts, now, sock);
          if error != 0 {
            return -error;
          }
        }
        pos, remain := pos + elemLen, remain - elemLen;
      }
      ElementsStep(Settings(sock), Now(), ts, now, data[pos..], remain);
      result := 0;
    }

    /** A bundle that has been validated. */
    method DispatchBundle(data: seq<byte>, pos: nat, size: nat, len: nat, sock: int) returns (result: int)
      requires Valid() && pos + size <= |data| && IsBundle(data[pos..])
      requires ValidateBundle(data[pos..][..size]) >= 0 && len == ValidateString(data[pos..][..size])
      modifies this`queued, this`spine, this`events, this`readings, Nodes()
      ensures Valid() && fresh(Nodes() - old(Nodes()))
      ensures Outcome(Now(), result) == Dispatching.DispatchData(Settings(sock), old(Now()), data[pos..], size)
      decreases size, 1
    {
      hide ValidateBundle, ValidateString, IsBundle, TimetagIn, Dispatching.DispatchData,
           Dispatching.DispatchElements, ElementsFit, Values, Linked;
      ValidBundle(Settings(sock), Now(), data[pos..], size);
      Drops(data, pos, 8);
      Drops(data, pos, 16);
      var at, remain := pos + len, size - len;
      var now := clock(readings);
      readings := readings + 1;
      var ts := TimetagIn(data[at..]);
      at, remain := at + 8, remain - 8;
      events := events + [BundleStart(ts)];
      result := DispatchElements(data, at, remain, ts, now, sock);
      if result == 0 {
        events := events + [BundleEnd];
        result := size;
      }
    }

    /** The packet, or the bundle within a packet, of `size` bytes at `pos`. */
    method DispatchData(data: seq<byte>, pos: nat, size: nat, sock: int) returns (result: int)
      requires Valid() && pos + size <= |data|
      modifies this`queued, this`spine, this`events, this`readings, Nodes()
      ensures Valid() && fresh(Nodes() - old(Nodes()))
      ensures Outcome(Now(), result) == Dispatching.DispatchData(Settings(sock), old(Now()), data[pos..], size)
      decreases size, 2
    {
      hide Parse, ValidateString, ValidateBundle, IsBundle, Dispatching.DispatchElements, ElementsFit, ImageOf,
           Values, Linked;
      var b := data[pos..][..size];
      var len := LoValidateString(b);
      if len < 0 {
        LoThrow(-len);
        return len;
      }
      if IsBundle(data[pos..]) {
        var valid := LoValidateBundle(b);
        if valid < 0 {
          LoThrow(-valid);
          return valid;
        }
        result := DispatchBundle(data, pos, size, len, sock);
      } else {
        var error := DispatchMessage(b, sock);
        result := if error != 0 then -error else size;
      }
    }

    /** A packet that is a message is delivered at once, or its error thrown. */
    method DispatchMessage(b: seq<byte>, sock: int) returns (error: int)
      modifies this`events
      ensures match Parse(b)
              case Failure(e) => error == e > 0 && Now() == Log(old(Now()), Throw(e))
              case Success(m) =>
                error == 0 && Now() == Log(old(Now()), Deliver(Entry(IMMEDIATE, m.path, ImageOf(m.args), sock)))
    {
      hide Parse, Values, TypeString, HostData;
      ParsedPath(b);
      var m;
      m, error := Deserialise(b);
      if m == null {
        LoThrow(error);
      } else {
        var msg := Image(m.types[..m.typelen], m.data[..m.datalen]);
        assert msg == ImageOf(m.args);
        DispatchMethod(Entry(IMMEDIATE, b[..StrLen(b)], msg, sock));
      }
    }
  }

  lemma Drops(data: seq<byte>, pos: nat, n: nat)
    requires pos + n <= |data|
    ensures data[pos..][n..] == data[pos + n..]
  {
  }
}
