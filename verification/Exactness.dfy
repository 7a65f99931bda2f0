/** A packet is dispatched as its tree says exactly if it is well-formed. */
module Exactness {
  import opened Bytes
  import opened Timetags
  import opened OscArgs
  import opened Validators
  import opened Packets
  import opened Trees
  import opened Scheduling
  import opened Dispatching
  import opened Traces
  import opened Arrivals

  /** Numbers of errors thrown and of bundles begun. */
  datatype Tally = Tally(throws: nat, starts: nat)

  function Count(events: seq<Event>): Tally {
    if events == [] then Tally(0, 0)
    else
      var t := Count(events[..|events| - 1]);
      match events[|events| - 1]
      case Throw(_) => t.(throws := t.throws + 1)
      case BundleStart(_) => t.(starts := t.starts + 1)
      case _ => t
  }

  lemma CountLog(s: State, e: Event)
    ensures var t := Count(s.events);
            Count(Log(s, e).events) ==
            match e
            case Throw(_) => t.(throws := t.throws + 1)
            case BundleStart(_) => t.(starts := t.starts + 1)
            case _ => t
  {
    assert Log(s, e).events[..|s.events|] == s.events;
  }

  lemma CountArrive(c: Setting, s: State, ts: Timetag, now: Timetag, m: Message)
    ensures Count(Arrive(c, s, ts, now, m).events) == Count(s.events)
  {
    CountLog(s, Deliver(Entry(ts, m.path, ImageOf(m.args), c.sock)));
  }

  predicate Below(a: Tally, b: Tally) { a.throws <= b.throws && a.starts <= b.starts }

  /** Whatever is dispatched as a bundle throws an error or begins. */
  lemma {:induction false} BundlesShow(c: Setting, s: State, rest: seq<byte>, size: nat)
    requires size <= |rest|
    ensures var a, b := Count(s.events), Count(DispatchData(c, s, rest, size).state.events);
            Below(a, b) && (IsBundle(rest) ==> a != b)
    decreases size
  {
    var b := rest[..size];
    if ValidateString(b) < 0 {
      CountLog(s, Throw(-ValidateString(b)));
    } else if IsBundle(rest) {
      if ValidateBundle(b) < 0 {
        CountLog(s, Throw(-ValidateBundle(b)));
      } else {
        ValidBundle(c, s, rest, size);
        var ts, now := TimetagIn(rest[8..]), c.clock(s.readings);
        CountLog(s.(readings := s.readings + 1), BundleStart(ts));
        ElementsShow(c, Begun(s, ts), ts, now, rest[16..], size - 16);
        CountLog(DispatchElements(c, Begun(s, ts), ts, now, rest[16..], size - 16).state, BundleEnd);
      }
    } else {
      match Parse(b)
      case Failure(e) => CountLog(s, Throw(e));
      case Success(m) => CountLog(s, Deliver(Entry(IMMEDIATE, m.path, ImageOf(m.args), c.sock)));
    }
  }

  lemma {:induction false} ElementsShow(c: Setting, s: State, ts: Timetag, now: Timetag, rest: seq<byte>, remain: nat)
    requires remain <= |rest| && ElementsFit(rest[..remain])
    ensures Below(Count(s.events), Count(DispatchElements(c, s, ts, now, rest, remain).state.events))
    decreases remain
  {
    hide Parse, IsBundle, ElementsFit, ElementSize, DispatchData, DispatchElements, Arrive, Count, Log;
    ElementsStep(c, s, ts, now, rest, remain);
    if remain >= 4 {
      var n, e := ElementSize(rest, remain), rest[4..];
      if IsBundle(e) {
        BundlesShow(c, s, e, n);
        ElementsShow(c, DispatchData(c, s, e, n).state, ts, now, e[n..], remain - 4 - n);
      } else {
        match Parse(e[..n])
        case Failure(code) => CountLog(s, Throw(code));
        case Success(m) =>
          CountArrive(c, s, ts, now, m);
          ElementsShow(c, Arrive(c, s, ts, now, m), ts, now, e[n..], remain - 4 - n);
      }
    }
  }

  /** Number of messages named like a bundle. */
  function Misnamed(t: Tree): nat
    decreases t, 1
  {
    match t
    case MessageTree(path, _) => if path == BUNDLE then 1 else 0
    case BundleTree(_, elems) => MisnamedIn(elems)
  }

  function MisnamedIn(elems: seq<Tree>): nat
    decreases elems, 0
  {
    if elems == [] then 0 else Misnamed(elems[0]) + MisnamedIn(elems[1..])
  }

  /** Every message that is not misnamed can be received. */
  ghost predicate Receivable(t: Tree)
    decreases t, 1
  {
    match t
    case MessageTree(path, args) => path != BUNDLE ==> AllSendable(args)
    case BundleTree(_, elems) => AllReceivable(elems)
  }

  ghost predicate AllReceivable(elems: seq<Tree>)
    decreases elems, 0
  {
    elems != [] ==> Receivable(elems[0]) && AllReceivable(elems[1..])
  }

  lemma {:induction false} WellFormedIs(t: Tree)
    ensures WellFormed(t) <==> Receivable(t) && Misnamed(t) == 0
    decreases t, 1
  {
    match t
    case MessageTree(_, _) =>
    case BundleTree(_, elems) => AllWellFormedIs(elems);
  }

  lemma {:induction false} AllWellFormedIs(elems: seq<Tree>)
    ensures AllWellFormed(elems) <==> AllReceivable(elems) && MisnamedIn(elems) == 0
    decreases elems, 0
  {
    if elems != [] {
      WellFormedIs(elems[0]);
      AllWellFormedIs(elems[1..]);
    }
  }

  /**
   * From `a` to `b` an error was thrown; or none was, every message was received or taken for a
   * bundle, and every bundle and every misnamed message has begun.
   */
  predicate Tells(a: Tally, b: Tally, received: bool, begun: nat) {
    b.throws > a.throws || (b.throws == a.throws && received && b.starts >= a.starts + begun)
  }

  lemma {:induction false} DispatchShows(c: Setting, s: State, t: Tree, rest: seq<byte>)
    requires |TreeWire(t)| < LIMIT
    ensures Tells(Count(s.events),
                  Count(DispatchData(c, s, TreeWire(t) + rest, |TreeWire(t)|).state.events),
                  Receivable(t), Bundles(t) + Misnamed(t))
    decreases t, 1
  {
    hide *;
    match t
    case MessageTree(path, args) =>
      MessageShows(c, s, path, args, rest);
      MessageTallies(path, args);
    case BundleTree(ts, elems) =>
      TraceBundle(c, s, ts, elems);
      BundleTallies(ts, elems);
      ElementsShowTree(c, Begun(s, ts), ts, c.clock(s.readings), elems, rest);
      LoopShowsIs(c, Begun(s, ts), ts, c.clock(s.readings), elems, rest);
      var b := ElemsWire(elems);
      var o := DispatchElements(c, Begun(s, ts), ts, c.clock(s.readings), b + rest, |b|);
      BundleShows(c, s, ts, b, rest, o, AllReceivable(elems), BundlesIn(elems) + MisnamedIn(elems));
  }

  lemma MessageTallies(path: CString, args: seq<Arg>)
    ensures var t := MessageTree(path, args);
            TreeWire(t) == Wire(path, args) && (Receivable(t) <==> (path != BUNDLE ==> AllSendable(args))) &&
            Bundles(t) + Misnamed(t) == if path == BUNDLE then 1 else 0
  {
  }

  lemma BundleTallies(ts: Timetag, elems: seq<Tree>)
    ensures var t := BundleTree(ts, elems);
            (Receivable(t) <==> AllReceivable(elems)) &&
            Bundles(t) + Misnamed(t) == BundlesIn(elems) + MisnamedIn(elems) + 1
    ensures |ElemsWire(elems)| <= |TreeWire(BundleTree(ts, elems))|
  {
  }

  lemma LoopShowsIs(c: Setting, s: State, ts: Timetag, now: Timetag, elems: seq<Tree>, rest: seq<byte>)
    requires LoopShows(c, s, ts, now, elems, rest)
    ensures var b := ElemsWire(elems);
            (b + rest)[..|b|] == b && ElementsFit(b) &&
            var o := DispatchElements(c, s, ts, now, b + rest, |b|);
            Tells(Count(s.events), Count(o.state.events), o.result == 0 && AllReceivable(elems),
                  BundlesIn(elems) + MisnamedIn(elems))
  {
  }

  /** The start of a bundle is one more. */
  lemma BundleShows(c: Setting, s: State, ts: Timetag, elems: seq<byte>, rest: seq<byte>, o: Outcome,
                    received: bool, n: nat)
    requires ElementsFit(elems)
    requires Tells(Count(Begun(s, ts).events), Count(o.state.events), o.result == 0 && received, n)
    ensures (elems + rest)[..|elems|] == elems
    ensures o == DispatchElements(c, Begun(s, ts), ts, c.clock(s.readings), elems + rest, |elems|) ==>
            var b := BundleHeader(ts) + elems;
            Tells(Count(s.events), Count(DispatchData(c, s, b + rest, |b|).state.events), received, n + 1)
  {
    hide *;
    DispatchBundle(c, s, ts, elems, rest);
    var b := BundleHeader(ts) + elems;
    if o == DispatchElements(c, Begun(s, ts), ts, c.clock(s.readings), elems + rest, |elems|) {
      OutcomeShows(s, ts, o, DispatchData(c, s, b + rest, |b|), |b|, received, n);
    }
  }

  lemma OutcomeShows(s: State, ts: Timetag, o: Outcome, d: Outcome, size: nat, received: bool, n: nat)
    requires Tells(Count(Begun(s, ts).events), Count(o.state.events), o.result == 0 && received, n)
    requires d == if o.result == 0 then Outcome(Log(o.state, BundleEnd), size) else o
    ensures Tells(Count(s.events), Count(d.state.events), received, n + 1)
  {
    hide Count, Log, Begun;
    CountBegun(s, ts);
    CountLog(o.state, BundleEnd);
  }

  lemma CountBegun(s: State, ts: Timetag)
    ensures Count(Begun(s, ts).events).throws == Count(s.events).throws
    ensures Count(Begun(s, ts).events).starts == Count(s.events).starts + 1
  {
    CountLog(s.(readings := s.readings + 1), BundleStart(ts));
    hide Count, Log;
  }

  lemma MessageShows(c: Setting, s: State, path: CString, args: seq<Arg>, rest: seq<byte>)
    ensures Tells(Count(s.events),
                  Count(DispatchData(c, s, Wire(path, args) + rest, |Wire(path, args)|).state.events),
                  path != BUNDLE ==> AllSendable(args), if path == BUNDLE then 1 else 0)
  {
    var b := Wire(path, args);
    assert (b + rest)[..|b|] == b;
    MessageOrBundle(path, args, rest);
    BundlesShow(c, s, b + rest, |b|);
    if path != BUNDLE {
      WireParts(path, args);
      ParseWire(path, args);
      hide Wire, Parse, IsBundle, ValidateString, Count;
      if AllSendable(args) {
        CountLog(s, Deliver(Entry(IMMEDIATE, path, ImageOf(args), c.sock)));
      } else {
        CountLog(s, Throw(LO_EINVALIDARG));
      }
    }
  }

  /** The state after the first element of some others. */
  function AfterFirst(c: Setting, s: State, ts: Timetag, now: Timetag, first: seq<byte>, others: seq<byte>): State {
    if IsBundle(first + others) then DispatchData(c, s, first + others, |first|).state
    else match Parse(first)
      case Failure(code) => Log(s, Throw(code))
      case Success(m) => Arrive(c, s, ts, now, m)
  }

  lemma ElementShows(c: Setting, s: State, ts: Timetag, now: Timetag, t: Tree, others: seq<byte>)
    requires t.BundleTree? ==>
               Tells(Count(s.events), Count(DispatchData(c, s, TreeWire(t) + others, |TreeWire(t)|).state.events),
                     Receivable(t), Bundles(t) + Misnamed(t))
    ensures Tells(Count(s.events), Count(AfterFirst(c, s, ts, now, TreeWire(t), others).events),
                  Receivable(t) && (IsBundle(TreeWire(t) + others) || Parse(TreeWire(t)).Success?),
                  Bundles(t) + Misnamed(t))
  {
    match t
    case MessageTree(path, args) =>
      MessageElementShows(c, s, ts, now, path, args, others);
      hide DispatchData, Wire, AfterFirst;
    case BundleTree(tag, inner) =>
      BundleTreeIsBundle(tag, inner, others);
      hide TreeWire, Count, DispatchData, IsBundle, Receivable, Bundles, Misnamed;
  }

  lemma BundleTreeIsBundle(ts: Timetag, elems: seq<Tree>, others: seq<byte>)
    ensures IsBundle(TreeWire(BundleTree(ts, elems)) + others)
  {
    hide *;
    BundleIsBundle(ts, ElemsWire(elems) + others);
    TreeIs(ts, elems);
    Associates(BundleHeader(ts), ElemsWire(elems), others);
  }

  lemma TreeIs(ts: Timetag, elems: seq<Tree>)
    ensures TreeWire(BundleTree(ts, elems)) == BundleHeader(ts) + ElemsWire(elems)
  {
  }

  lemma MessageElementShows(c: Setting, s: State, ts: Timetag, now: Timetag, path: CString, args: seq<Arg>,
                            others: seq<byte>)
    ensures var first := Wire(path, args);
            Tells(Count(s.events), Count(AfterFirst(c, s, ts, now, first, others).events),
                  (path != BUNDLE ==> AllSendable(args)) && (IsBundle(first + others) || Parse(first).Success?),
                  if path == BUNDLE then 1 else 0)
  {
    hide Wire, Parse, IsBundle, DispatchData, Count, Log, Arrive, AllSendable;
    MessageOrBundle(path, args, others);
    ParseWire(path, args);
    BundlesShow(c, s, Wire(path, args) + others, |Wire(path, args)|);
    if path != BUNDLE && AllSendable(args) {
      CountArrive(c, s, ts, now, Message(path, args));
    } else if path != BUNDLE {
      CountLog(s, Throw(LO_EINVALIDARG));
    }
  }

  /** What the loop over the elements shows. */
  ghost predicate LoopShows(c: Setting, s: State, ts: Timetag, now: Timetag, elems: seq<Tree>, rest: seq<byte>) {
    var b := ElemsWire(elems);
    && (b + rest)[..|b|] == b && ElementsFit(b)
    && var o := DispatchElements(c, s, ts, now, b + rest, |b|);
       Tells(Count(s.events), Count(o.state.events), o.result == 0 && AllReceivable(elems),
             BundlesIn(elems) + MisnamedIn(elems))
  }

  lemma LoopShowsStep(c: Setting, s: State, ts: Timetag, now: Timetag, elems: seq<Tree>, rest: seq<byte>)
    requires elems != [] && |TreeWire(elems[0])| < LIMIT
    requires var others := ElemsWire(elems[1..]) + rest;
             var next := AfterFirst(c, s, ts, now, TreeWire(elems[0]), others);
             LoopShows(c, next, ts, now, elems[1..], rest) &&
             Tells(Count(s.events), Count(next.events),
                   Receivable(elems[0]) &&
                     (IsBundle(TreeWire(elems[0]) + others) || Parse(TreeWire(elems[0])).Success?),
                   Bundles(elems[0]) + Misnamed(elems[0]))
    ensures LoopShows(c, s, ts, now, elems, rest)
  {
    hide DispatchElements, DispatchData, Framed, ElemsWire, TreeWire, ElementsFit, Parse, IsBundle, ElementSize,
         Count, Log, Arrive, Receivable, AllReceivable, Bundles, BundlesIn, Misnamed, MisnamedIn, AfterFirst;
    ElemsWireFirst(elems);
    FirstOf(elems);
    var first, tail := TreeWire(elems[0]), ElemsWire(elems[1..]);
    WholeElements(first, tail);
    Associates(Framed(first), tail, rest);
    Cut(Framed(first) + tail, rest);
    StepAfterFirst(c, s, ts, now, first, tail + rest, |tail|);
  }

  lemma StepAfterFirst(c: Setting, s: State, ts: Timetag, now: Timetag, first: seq<byte>, others: seq<byte>, k: nat)
    requires |first| < LIMIT && k <= |others| && ElementsFit(others[..k])
    ensures ElementsFit((Framed(first) + others)[..4 + |first| + k])
    ensures var next := AfterFirst(c, s, ts, now, first, others);
            var o := DispatchElements(c, s, ts, now, Framed(first) + others, 4 + |first| + k);
            if IsBundle(first + others) || Parse(first).Success? then
              o == DispatchElements(c, next, ts, now, others, k)
            else o.state == next
  {
    hide DispatchElements, DispatchData, Framed, ElementsFit, Parse, IsBundle, ElementSize, Arrive, Log;
    ElementStep(c, s, ts, now, first, others, k);
  }

  lemma FirstOf(elems: seq<Tree>)
    requires elems != []
    ensures BundlesIn(elems) == Bundles(elems[0]) + BundlesIn(elems[1..])
    ensures MisnamedIn(elems) == Misnamed(elems[0]) + MisnamedIn(elems[1..])
    ensures AllReceivable(elems) <==> Receivable(elems[0]) && AllReceivable(elems[1..])
  {
  }

  lemma {:induction false} ElementsShowTree(c: Setting, s: State, ts: Timetag, now: Timetag,
                                            elems: seq<Tree>, rest: seq<byte>)
    requires |ElemsWire(elems)| < LIMIT
    ensures LoopShows(c, s, ts, now, elems, rest)
    decreases elems, 0
  {
    hide *;
    if elems == [] {
      NothingShows(c, s, ts, now, rest);
    } else {
      FirstIsSmaller(elems);
      var t, others := elems[0], ElemsWire(elems[1..]) + rest;
      if t.BundleTree? {
        DispatchShows(c, s, t, others);
      }
      ElementShows(c, s, ts, now, t, others);
      ElementsShowTree(c, AfterFirst(c, s, ts, now, TreeWire(t), others), ts, now, elems[1..], rest);
      LoopShowsStep(c, s, ts, now, elems, rest);
    }
  }

  lemma FirstIsSmaller(elems: seq<Tree>)
    requires elems != []
    ensures |ElemsWire(elems)| >= |TreeWire(elems[0])| && |ElemsWire(elems)| >= |ElemsWire(elems[1..])|
  {
    hide TreeWire, Framed;
  }

  lemma NothingShows(c: Setting, s: State, ts: Timetag, now: Timetag, rest: seq<byte>)
    ensures LoopShows(c, s, ts, now, [], rest)
  {
    NoElements(c, s, ts, now, [] + rest);
    hide DispatchElements, Count, ElementsFit;
  }

  /** The trace throws nothing and begins just the bundles of the tree. */
  lemma {:induction false} TraceCounts(c: Setting, s: State, t: Tree)
    ensures var a, b := Count(s.events), Count(Trace(c, s, t).events);
            b.throws == a.throws && b.starts == a.starts + Bundles(t)
    decreases t, 1
  {
    hide Count;
    match t
    case MessageTree(path, args) =>
      CountLog(s, Deliver(Entry(IMMEDIATE, path, ImageOf(args), c.sock)));
    case BundleTree(ts, elems) =>
      CountLog(s.(readings := s.readings + 1), BundleStart(ts));
      TraceElementsCount(c, Begun(s, ts), ts, c.clock(s.readings), elems);
      CountLog(TraceElements(c, Begun(s, ts), ts, c.clock(s.readings), elems), BundleEnd);
  }

  lemma {:induction false} TraceElementsCount(c: Setting, s: State, ts: Timetag, now: Timetag, elems: seq<Tree>)
    ensures var a, b := Count(s.events), Count(TraceElements(c, s, ts, now, elems).events);
            b.throws == a.throws && b.starts == a.starts + BundlesIn(elems)
    decreases elems, 0
  {
    hide Count;
    if elems != [] {
      match elems[0] {
        case MessageTree(path, args) => CountArrive(c, s, ts, now, Message(path, args));
        case BundleTree(_, _) => TraceCounts(c, s, elems[0]);
      }
      TraceElementsStep(c, s, ts, now, elems);
      TraceElementsCount(c, FirstElement(c, s, ts, now, elems[0]), ts, now, elems[1..]);
    }
  }

  /** The bytes of a tree are dispatched as its trace if and only if the tree is well-formed. */
  lemma DispatchIsTraceExactly(c: Setting, s: State, t: Tree, rest: seq<byte>)
    requires |TreeWire(t)| < LIMIT
    ensures DispatchData(c, s, TreeWire(t) + rest, |TreeWire(t)|) == Outcome(Trace(c, s, t), |TreeWire(t)|) <==>
            WellFormed(t)
  {
    hide DispatchData, TreeWire, Trace, Count;
    if WellFormed(t) {
      DispatchIsTrace(c, s, t, rest);
    } else {
      WellFormedIs(t);
      DispatchShows(c, s, t, rest);
      TraceCounts(c, s, t);
    }
  }
}
