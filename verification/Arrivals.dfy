/** Where the messages of a packet end up: delivered or queued, each once and in order. */
module Arrivals {
  import opened Bytes
  import opened Timetags
  import opened OscArgs
  import opened Packets
  import opened Trees
  import opened Scheduling
  import opened Dispatching
  import opened Traces

  /** A message with the timetag of its innermost bundle, and whether it is due on arrival. */
  datatype Leaf = Leaf(e: Entry, due: bool)

  /** The messages of a packet in order; every bundle takes one reading of the clock. */
  function Leaves(c: Setting, readings: nat, t: Tree): seq<Leaf>
    decreases t, 1
  {
    match t
    case MessageTree(path, args) => [Leaf(Entry(IMMEDIATE, path, ImageOf(args), c.sock), true)]
    case BundleTree(ts, elems) => ElementLeaves(c, readings + 1, ts, c.clock(readings), elems)
  }

  function ElementLeaves(c: Setting, readings: nat, ts: Timetag, now: Timetag, elems: seq<Tree>): seq<Leaf>
    decreases elems, 0
  {
    if elems == [] then []
    else
      var first := match elems[0]
        case MessageTree(path, args) => [Leaf(Entry(ts, path, ImageOf(args), c.sock), IsDue(c, ts, now))]
        case BundleTree(_, _) => Leaves(c, readings, elems[0]);
      first + ElementLeaves(c, readings + Bundles(elems[0]), ts, now, elems[1..])
  }

  /** Number of bundles in a packet. */
  function Bundles(t: Tree): nat
    decreases t, 1
  {
    match t
    case MessageTree(_, _) => 0
    case BundleTree(_, elems) => 1 + BundlesIn(elems)
  }

  function BundlesIn(elems: seq<Tree>): nat
    decreases elems, 0
  {
    if elems == [] then 0 else Bundles(elems[0]) + BundlesIn(elems[1..])
  }

  /** The entries that are due, or those that are not. */
  function Select(ls: seq<Leaf>, due: bool): seq<Entry> {
    if ls == [] then [] else (if ls[0].due == due then [ls[0].e] else []) + Select(ls[1..], due)
  }

  function InsertAll(q: seq<Entry>, es: seq<Entry>): (r: seq<Entry>)
    ensures |r| == |q| + |es|
    decreases |es|
  {
    if es == [] then q else InsertAll(Insert(q, es[0]), es[1..])
  }

  /** The entries delivered, in order. */
  function Delivered(events: seq<Event>): seq<Entry> {
    if events == [] then []
    else
      Delivered(events[..|events| - 1]) +
      match events[|events| - 1]
      case Deliver(e) => [e]
      case _ => []
  }

  lemma DeliveredLog(s: State, e: Event)
    ensures Delivered(Log(s, e).events) == Delivered(s.events) + if e.Deliver? then [e.e] else []
  {
    assert Log(s, e).events[..|s.events|] == s.events;
  }

  lemma {:induction false} SelectAppend(ls: seq<Leaf>, ms: seq<Leaf>, due: bool)
    ensures Select(ls + ms, due) == Select(ls, due) + Select(ms, due)
  {
    if ls == [] {
      assert ls + ms == ms;
    } else {
      assert (ls + ms)[1..] == ls[1..] + ms && (ls + ms)[0] == ls[0];
      SelectAppend(ls[1..], ms, due);
      var first := if ls[0].due == due then [ls[0].e] else [];
      assert first + (Select(ls[1..], due) + Select(ms, due)) == first + Select(ls[1..], due) + Select(ms, due);
    }
  }

  lemma {:induction false} InsertAllAppend(q: seq<Entry>, es: seq<Entry>, fs: seq<Entry>)
    ensures InsertAll(q, es + fs) == InsertAll(InsertAll(q, es), fs)
    decreases |es|
  {
    if es == [] {
      assert es + fs == fs;
    } else {
      assert (es + fs)[1..] == es[1..] + fs;
      InsertAllAppend(Insert(q, es[0]), es[1..], fs);
    }
  }

  /** The state reached when the messages `ls` arrive and `n` bundles are read. */
  ghost predicate Reaches(s: State, ls: seq<Leaf>, n: nat, r: State) {
    && Delivered(r.events) == Delivered(s.events) + Select(ls, true)
    && r.queue == InsertAll(s.queue, Select(ls, false))
    && r.readings == s.readings + n
  }

  lemma ReachesThrough(s: State, ls: seq<Leaf>, m: nat, r: State, ms: seq<Leaf>, n: nat, t: State)
    requires Reaches(s, ls, m, r) && Reaches(r, ms, n, t)
    ensures Reaches(s, ls + ms, m + n, t)
  {
    SelectAppend(ls, ms, true);
    SelectAppend(ls, ms, false);
    InsertAllAppend(s.queue, Select(ls, false), Select(ms, false));
    hide Select, Delivered, InsertAll;
    assert Delivered(s.events) + Select(ls, true) + Select(ms, true) ==
           Delivered(s.events) + (Select(ls, true) + Select(ms, true));
  }

  lemma ReachesArrive(c: Setting, s: State, ts: Timetag, now: Timetag, m: Message)
    ensures var e := Entry(ts, m.path, ImageOf(m.args), c.sock);
            Reaches(s, [Leaf(e, IsDue(c, ts, now))], 0, Arrive(c, s, ts, now, m)) &&
            Reaches(s, [Leaf(e, true)], 0, Log(s, Deliver(e)))
  {
    var e := Entry(ts, m.path, ImageOf(m.args), c.sock);
    DeliveredLog(s, Deliver(e));
    SelectOne(Leaf(e, IsDue(c, ts, now)));
    SelectOne(Leaf(e, true));
    hide Select, Delivered, ImageOf, Diff, Insert;
    assert InsertAll(s.queue, [e]) == Insert(s.queue, e);
    assert Delivered(s.events) + [] == Delivered(s.events);
  }

  lemma SelectOne(l: Leaf)
    ensures Select([l], l.due) == [l.e] && Select([l], !l.due) == []
  {
    assert [l][1..] == [];
  }

  /**
   * Conservation: the messages of a packet that are due are delivered, in order, and the others
   * join the queue, in order; none is both, none is neither.
   */
  lemma {:induction false} EveryMessageArrives(c: Setting, s: State, t: Tree)
    ensures Reaches(s, Leaves(c, s.readings, t), Bundles(t), Trace(c, s, t))
    decreases t, 1
  {
    hide Reaches;
    match t
    case MessageTree(path, args) =>
      ReachesArrive(c, s, IMMEDIATE, IMMEDIATE, Message(path, args));
    case BundleTree(ts, elems) =>
      var begun, now := Begun(s, ts), c.clock(s.readings);
      var ended := TraceElements(c, begun, ts, now, elems);
      EveryElementArrives(c, begun, ts, now, elems);
      ReachesBundle(s, ts, Leaves(c, s.readings, t), BundlesIn(elems), ended);
  }

  lemma ReachesBundle(s: State, ts: Timetag, ls: seq<Leaf>, n: nat, r: State)
    requires Reaches(Begun(s, ts), ls, n, r)
    ensures Reaches(s, ls, n + 1, Log(r, BundleEnd))
  {
    DeliveredLog(s.(readings := s.readings + 1), BundleStart(ts));
    DeliveredLog(r, BundleEnd);
    hide Delivered, Select, InsertAll;
    assert Delivered(s.events) + [] == Delivered(s.events);
    assert Delivered(r.events) + [] == Delivered(r.events);
  }

  lemma {:induction false} EveryElementArrives(c: Setting, s: State, ts: Timetag, now: Timetag, elems: seq<Tree>)
    ensures Reaches(s, ElementLeaves(c, s.readings, ts, now, elems), BundlesIn(elems),
                    TraceElements(c, s, ts, now, elems))
    decreases elems, 0
  {
    if elems != [] {
      var t := elems[0];
      var next := FirstElement(c, s, ts, now, t);
      TraceElementsStep(c, s, ts, now, elems);
      var first := if t.BundleTree? then Leaves(c, s.readings, t)
                   else [Leaf(Entry(ts, t.path, ImageOf(t.args), c.sock), IsDue(c, ts, now))];
      assert Reaches(s, first, Bundles(t), next) by {
        hide Reaches;
        match t
        case MessageTree(path, args) => ReachesArrive(c, s, ts, now, Message(path, args));
        case BundleTree(_, _) => EveryMessageArrives(c, s, t);
      }
      EveryElementArrives(c, next, ts, now, elems[1..]);
      ReachesThrough(s, first, Bundles(t), next, ElementLeaves(c, next.readings, ts, now, elems[1..]),
                     BundlesIn(elems[1..]), TraceElements(c, s, ts, now, elems));
    }
  }

  // What the leaves are

  /** The messages of a packet, in order. */
  function Flatten(t: Tree): seq<Message>
    decreases t, 1
  {
    match t
    case MessageTree(path, args) => [Message(path, args)]
    case BundleTree(_, elems) => FlattenAll(elems)
  }

  function FlattenAll(elems: seq<Tree>): seq<Message>
    decreases elems, 0
  {
    if elems == [] then [] else Flatten(elems[0]) + FlattenAll(elems[1..])
  }

  /** The times of these messages: that of the innermost bundle, and "immediately" outside of any. */
  function Times(t: Tree, outer: Timetag): seq<Timetag>
    decreases t, 1
  {
    match t
    case MessageTree(_, _) => [outer]
    case BundleTree(ts, elems) => AllTimes(elems, ts)
  }

  function AllTimes(elems: seq<Tree>, outer: Timetag): seq<Timetag>
    decreases elems, 0
  {
    if elems == [] then [] else Times(elems[0], outer) + AllTimes(elems[1..], outer)
  }

  function TimesOf(ls: seq<Leaf>): seq<Timetag> { seq(|ls|, i requires 0 <= i < |ls| => ls[i].e.ts) }

  lemma {:induction false} LeavesHaveTimes(c: Setting, readings: nat, t: Tree)
    ensures TimesOf(Leaves(c, readings, t)) == Times(t, Timetag(0, 1))
    decreases t, 1
  {
    match t
    case MessageTree(_, _) =>
    case BundleTree(ts, elems) => ElementsHaveTimes(c, readings + 1, ts, c.clock(readings), elems);
  }

  lemma {:induction false} ElementsHaveTimes(c: Setting, readings: nat, ts: Timetag, now: Timetag, elems: seq<Tree>)
    ensures TimesOf(ElementLeaves(c, readings, ts, now, elems)) == AllTimes(elems, ts)
    decreases elems, 0
  {
    hide ImageOf, IsDue, TimesOf, Leaves;
    if elems == [] {
      NoTimes();
    } else {
      var t, rest := elems[0], ElementLeaves(c, readings + Bundles(elems[0]), ts, now, elems[1..]);
      ElementsHaveTimes(c, readings + Bundles(t), ts, now, elems[1..]);
      match t {
        case MessageTree(path, args) =>
          TimesAppend([Leaf(Entry(ts, path, ImageOf(args), c.sock), IsDue(c, ts, now))], rest);
          OneTime(Leaf(Entry(ts, path, ImageOf(args), c.sock), IsDue(c, ts, now)));
        case BundleTree(_, _) =>
          LeavesHaveTimes(c, readings, t);
          TimesAppend(Leaves(c, readings, t), rest);
      }
    }
  }

  lemma NoTimes()
    ensures TimesOf([]) == []
  {
  }

  lemma OneTime(l: Leaf)
    ensures TimesOf([l]) == [l.e.ts]
  {
  }

  lemma TimesAppend(ls: seq<Leaf>, ms: seq<Leaf>)
    ensures TimesOf(ls + ms) == TimesOf(ls) + TimesOf(ms)
  {
  }

  /** The leaves `ls` hold the messages `ms`. */
  ghost predicate Hold(c: Setting, ls: seq<Leaf>, ms: seq<Message>) {
    && |ls| == |ms|
    && forall i | 0 <= i < |ls| ::
         ls[i].e.path == ms[i].path && ls[i].e.msg == ImageOf(ms[i].args) && ls[i].e.sock == c.sock
  }

  lemma {:induction false} LeavesHoldMessages(c: Setting, readings: nat, t: Tree)
    ensures Hold(c, Leaves(c, readings, t), Flatten(t))
    decreases t, 1
  {
    match t
    case MessageTree(_, _) =>
    case BundleTree(ts, elems) => ElementLeavesHold(c, readings + 1, ts, c.clock(readings), elems);
  }

  lemma {:induction false} ElementLeavesHold(c: Setting, readings: nat, ts: Timetag, now: Timetag, elems: seq<Tree>)
    ensures Hold(c, ElementLeaves(c, readings, ts, now, elems), FlattenAll(elems))
    decreases elems, 0
  {
    if elems != [] {
      if elems[0].BundleTree? {
        LeavesHoldMessages(c, readings, elems[0]);
      }
      var readings' := readings + Bundles(elems[0]);
      ElementLeavesHold(c, readings', ts, now, elems[1..]);
      HoldAppend(c, if elems[0].BundleTree? then Leaves(c, readings, elems[0])
                    else [Leaf(Entry(ts, elems[0].path, ImageOf(elems[0].args), c.sock), IsDue(c, ts, now))],
                 Flatten(elems[0]), ElementLeaves(c, readings', ts, now, elems[1..]), FlattenAll(elems[1..]));
    }
  }

  lemma HoldAppend(c: Setting, ls: seq<Leaf>, ms: seq<Message>, ls': seq<Leaf>, ms': seq<Message>)
    requires Hold(c, ls, ms) && Hold(c, ls', ms')
    ensures Hold(c, ls + ls', ms + ms')
  {
    hide ImageOf;
  }

  // When the end of a bundle comes after the delivery of all its messages

  function EntriesOf(ls: seq<Leaf>): seq<Entry> {
    if ls == [] then [] else [ls[0].e] + EntriesOf(ls[1..])
  }

  lemma {:induction false} SelectSplits(ls: seq<Leaf>)
    ensures multiset(Select(ls, true)) + multiset(Select(ls, false)) == multiset(EntriesOf(ls))
  {
    if ls != [] {
      SelectSplits(ls[1..]);
    }
  }

  lemma {:induction false} SelectAll(ls: seq<Leaf>)
    ensures |Select(ls, true)| + |Select(ls, false)| == |ls| == |EntriesOf(ls)|
    ensures Select(ls, false) == [] ==> Select(ls, true) == EntriesOf(ls)
  {
    if ls != [] {
      SelectAll(ls[1..]);
    }
  }

  predicate HasMessage(elems: seq<Tree>) { exists i | 0 <= i < |elems| :: elems[i].MessageTree? }

  /**
   * Every bundle with a message of its own is due when it begins: queueing is disabled, or its time is
   * "immediately", or not after the time of the clock.
   */
  predicate AllDue(c: Setting, readings: nat, t: Tree)
    decreases t, 1
  {
    t.BundleTree? ==>
      && (HasMessage(t.elems) && c.enqueue && t.ts != Timetag(0, 1) ==> Diff(t.ts, c.clock(readings)) <= 0.0)
      && AllDueIn(c, readings + 1, t.elems)
  }

  predicate AllDueIn(c: Setting, readings: nat, elems: seq<Tree>)
    decreases elems, 0
  {
    elems != [] ==> AllDue(c, readings, elems[0]) && AllDueIn(c, readings + Bundles(elems[0]), elems[1..])
  }

  lemma {:induction false} NothingWaits(c: Setting, readings: nat, t: Tree)
    ensures Select(Leaves(c, readings, t), false) == [] <==> AllDue(c, readings, t)
    decreases t, 1
  {
    hide Diff;
    match t
    case MessageTree(path, args) => SelectOne(Leaf(Entry(IMMEDIATE, path, ImageOf(args), c.sock), true));
    case BundleTree(ts, elems) => NoElementWaits(c, readings + 1, ts, c.clock(readings), elems);
  }

  lemma {:induction false} NoElementWaits(c: Setting, readings: nat, ts: Timetag, now: Timetag, elems: seq<Tree>)
    ensures Select(ElementLeaves(c, readings, ts, now, elems), false) == [] <==>
            (HasMessage(elems) ==> IsDue(c, ts, now)) && AllDueIn(c, readings, elems)
    decreases elems, 0
  {
    hide IsDue, ImageOf, HasMessage;
    HasMessageFirst(elems);
    if elems != [] {
      var t, rest := elems[0], ElementLeaves(c, readings + Bundles(elems[0]), ts, now, elems[1..]);
      NoElementWaits(c, readings + Bundles(t), ts, now, elems[1..]);
      match t {
        case MessageTree(path, args) =>
          var l := Leaf(Entry(ts, path, ImageOf(args), c.sock), IsDue(c, ts, now));
          SelectOne(l);
          SelectAppend([l], rest, false);
        case BundleTree(_, _) =>
          NothingWaits(c, readings, t);
          SelectAppend(Leaves(c, readings, t), rest, false);
      }
    }
  }

  lemma HasMessageFirst(elems: seq<Tree>)
    ensures HasMessage(elems) <==> elems != [] && (elems[0].MessageTree? || HasMessage(elems[1..]))
  {
    if elems != [] && HasMessage(elems[1..]) {
      var i :| 0 <= i < |elems[1..]| && elems[1..][i].MessageTree?;
      assert elems[i + 1].MessageTree?;
    }
    if i :| 0 < i < |elems| && elems[i].MessageTree? {
      assert elems[1..][i - 1].MessageTree?;
    }
  }

  /**
   * The end of a bundle comes after the delivery of every message in it, with nothing queued, if and
   * only if every bundle with a message of its own is due.
   */
  lemma DeliveredByTheEnd(c: Setting, s: State, t: Tree)
    ensures var after, ls := Trace(c, s, t), Leaves(c, s.readings, t);
            (after.queue == s.queue <==> AllDue(c, s.readings, t)) &&
            (Delivered(after.events) == Delivered(s.events) + EntriesOf(ls) <==> AllDue(c, s.readings, t))
  {
    var ls := Leaves(c, s.readings, t);
    hide Leaves, AllDue, Trace, Delivered, Select, EntriesOf, InsertAll, Bundles;
    EveryMessageArrives(c, s, t);
    NothingWaits(c, s.readings, t);
    SelectAll(ls);
    NothingInserted(s.queue);
  }

  lemma NothingInserted(q: seq<Entry>)
    ensures InsertAll(q, []) == q
  {
  }

  /** A bundle of one message for later: its end is seen, and its message is still queued. */
  lemma EndsBeforeDelivery(c: Setting, s: State, ts: Timetag, path: CString, args: seq<Arg>)
    requires c.enqueue && ts != Timetag(0, 1) && Diff(ts, c.clock(s.readings)) > 0.0
    ensures var after := Trace(c, s, BundleTree(ts, [MessageTree(path, args)]));
            after.events == s.events + [BundleStart(ts), BundleEnd] &&
            after.queue == Insert(s.queue, Entry(ts, path, ImageOf(args), c.sock)) && after.readings == s.readings + 1
  {
    var elems := [MessageTree(path, args)];
    TraceElementsStep(c, Begun(s, ts), ts, c.clock(s.readings), elems);
    assert elems[1..] == [];
  }

  /** A bundle of one message that is due: the message is delivered before the end. */
  lemma DeliveredBeforeEnd(c: Setting, s: State, ts: Timetag, path: CString, args: seq<Arg>)
    requires c.enqueue ==> ts == Timetag(0, 1) || Diff(ts, c.clock(s.readings)) <= 0.0
    ensures Trace(c, s, BundleTree(ts, [MessageTree(path, args)])) ==
            State(s.queue, s.events + [BundleStart(ts), Deliver(Entry(ts, path, ImageOf(args), c.sock)), BundleEnd],
                  s.readings + 1)
  {
    var elems := [MessageTree(path, args)];
    hide Diff;
    TraceElementsStep(c, Begun(s, ts), ts, c.clock(s.readings), elems);
    assert elems[1..] == [];
  }
}
