/** What the application sees when a well-formed packet is dispatched. */
module Traces {
  import opened Bytes
  import opened Timetags
  import opened OscArgs
  import opened ArgMemory
  import opened Validators
  import opened Packets
  import opened Trees
  import opened Scheduling
  import opened Dispatching

  /** No message is named like a bundle, and no blob is too large to be received. */
  ghost predicate WellFormed(t: Tree)
    decreases t, 1
  {
    match t
    case MessageTree(path, args) => path != BUNDLE && AllSendable(args)
    case BundleTree(_, elems) => AllWellFormed(elems)
  }

  ghost predicate AllWellFormed(ts: seq<Tree>)
    decreases ts, 0
  {
    ts != [] ==> WellFormed(ts[0]) && AllWellFormed(ts[1..])
  }

  /** The tree in order: every bundle between its start and its end, every message with its bundle's time. */
  function Trace(c: Setting, s: State, t: Tree): State
    decreases t, 1
  {
    match t
    case MessageTree(path, args) => Log(s, Deliver(Entry(IMMEDIATE, path, ImageOf(args), c.sock)))
    case BundleTree(ts, elems) =>
      Log(TraceElements(c, Begun(s, ts), ts, c.clock(s.readings), elems), BundleEnd)
  }

  function TraceElements(c: Setting, s: State, ts: Timetag, now: Timetag, elems: seq<Tree>): State
    decreases elems, 0
  {
    if elems == [] then s
    else
      var next := match elems[0]
        case MessageTree(path, args) => Arrive(c, s, ts, now, Message(path, args))
        case BundleTree(_, _) => Trace(c, s, elems[0]);
      TraceElements(c, next, ts, now, elems[1..])
  }

  const LIMIT := 0x8000_0000

  // From bytes to the tree

  lemma NamedLikeBundle(path: CString, tail: seq<byte>)
    requires |Pad(path) + tail| >= 8
    ensures (Pad(path) + tail)[..8] == Pad(BUNDLE) <==> path == BUNDLE
  {
    var b := Pad(path) + tail;
    StrLenPad(path, tail);
    if b[..8] == Pad(BUNDLE) {
      assert b == Pad(BUNDLE) + b[8..];
      StrLenPad(BUNDLE, b[8..]);
    }
    hide Pad, StrLen;
  }

  /** A message is taken for a bundle just when it is named like one. */
  lemma MessageOrBundle(path: CString, args: seq<Arg>, rest: seq<byte>)
    ensures IsBundle(Wire(path, args) + rest) <==> path == BUNDLE
  {
    hide Pad, NetData, TypeString, StrSize;
    var tail := Pad(TypeString(args)) + NetData(args) + rest;
    assert Wire(path, args) + rest == Pad(path) + tail;
    assert |Pad(path)| >= 4 && |Pad(TypeString(args))| >= 4;
    NamedLikeBundle(path, tail);
  }

  lemma BundleIsBundle(ts: Timetag, rest: seq<byte>)
    ensures var b := BundleHeader(ts) + rest;
            IsBundle(b) && ValidateString(b) == 8 && TimetagIn(b[8..]) == ts && b[16..] == rest
  {
    hide WordOf;
    var b := BundleHeader(ts) + rest;
    assert b == Pad(BUNDLE) + (TimetagWire(ts) + rest);
    ValidateStringPad(BUNDLE, TimetagWire(ts) + rest);
    assert StrSize(BUNDLE) == 8;
    assert b[8..][..4] == Be32(WordOf(ts.sec)) && b[8..][4..][..4] == Be32(WordOf(ts.frac));
    FromBe32Prefix(b[8..], WordOf(ts.sec));
    FromBe32Prefix(b[8..][4..], WordOf(ts.frac));
  }

  lemma FromBe32Prefix(b: seq<byte>, w: Word)
    requires |b| >= 4 && b[..4] == Be32(w)
    ensures FromBe32(b) == w
  {
    assert forall i | 0 <= i < 4 :: b[i] == b[..4][i];
  }

  lemma FramedParts(b: seq<byte>, rest: seq<byte>)
    requires |b| < LIMIT
    ensures FromBe32(Framed(b) + rest).Value() == |b| && (Framed(b) + rest)[4..] == b + rest
  {
    hide WordOf;
    NoWrap(|b|);
    FromBe32Prefix(Framed(b) + rest, WordOf(|b|));
  }

  lemma ElemsWireFirst(ts: seq<Tree>)
    requires ts != []
    ensures ElemsWire(ts) == Framed(TreeWire(ts[0])) + ElemsWire(ts[1..])
  {
    hide TreeWire, Framed;
  }

  lemma {:induction false} ElemsFit(ts: seq<Tree>)
    requires |ElemsWire(ts)| < LIMIT
    ensures ElementsFit(ElemsWire(ts))
  {
    if ts != [] {
      ElemsWireFirst(ts);
      hide TreeWire, Framed, ElemsWire;
      ElemsFit(ts[1..]);
      FramedParts(TreeWire(ts[0]), ElemsWire(ts[1..]));
      assert ElemsWire(ts)[4 + |TreeWire(ts[0])|..] == ElemsWire(ts[1..]);
    }
  }

  /** Every serialised bundle passes the validation of bundles. */
  lemma BundleValidates(ts: Timetag, elems: seq<Tree>)
    requires |TreeWire(BundleTree(ts, elems))| < LIMIT
    ensures ValidateBundle(TreeWire(BundleTree(ts, elems))) == |TreeWire(BundleTree(ts, elems))|
  {
    BundleIsBundle(ts, ElemsWire(elems));
    ElemsFit(elems);
  }

  lemma FirstElementSize(first: seq<byte>, others: seq<byte>, k: nat)
    requires |first| < LIMIT && k <= |others| && ElementsFit(others[..k])
    ensures var b, n := Framed(first) + others, |first|;
            ElementsFit(b[..4 + n + k]) && ElementSize(b, 4 + n + k) == n &&
            b[4..] == first + others && (first + others)[..n] == first && (first + others)[n..] == others
  {
    var b, n := Framed(first) + others, |first|;
    FramedParts(first, others);
    FramedParts(first, others[..k]);
    assert b[..4 + n + k] == Framed(first) + others[..k];
    assert (Framed(first) + others[..k])[4 + n..] == others[..k];
    hide Framed;
  }

  /** One round of the loop over the elements of a bundle. */
  lemma ElementStep(c: Setting, s: State, ts: Timetag, now: Timetag, first: seq<byte>, others: seq<byte>, k: nat)
    requires |first| < LIMIT && k <= |others| && ElementsFit(others[..k])
    ensures var b := Framed(first) + others;
            ElementsFit(b[..4 + |first| + k]) &&
            DispatchElements(c, s, ts, now, b, 4 + |first| + k) ==
            if IsBundle(first + others) then
              DispatchElements(c, DispatchData(c, s, first + others, |first|).state, ts, now, others, k)
            else match Parse(first)
              case Failure(code) => Outcome(Log(s, Throw(code)), -code)
              case Success(m) => DispatchElements(c, Arrive(c, s, ts, now, m), ts, now, others, k)
  {
    FirstElementSize(first, others, k);
    hide IsBundle, Parse, Framed, Arrive, DispatchData, ElementsFit, ElementSize;
  }

  /** What a well-formed element does in the loop. */
  function FirstElement(c: Setting, s: State, ts: Timetag, now: Timetag, t: Tree): State {
    match t
    case MessageTree(path, args) => Arrive(c, s, ts, now, Message(path, args))
    case BundleTree(_, _) => Trace(c, s, t)
  }

  lemma ElementIs(c: Setting, s: State, ts: Timetag, now: Timetag, t: Tree, others: seq<byte>)
    requires WellFormed(t)
    ensures IsBundle(TreeWire(t) + others) <==> t.BundleTree?
    ensures t.MessageTree? ==> Parse(TreeWire(t)) == Success(Message(t.path, t.args))
    ensures t.MessageTree? ==> FirstElement(c, s, ts, now, t) == Arrive(c, s, ts, now, Message(t.path, t.args))
    ensures t.BundleTree? ==> FirstElement(c, s, ts, now, t) == Trace(c, s, t)
  {
    match t
    case MessageTree(path, args) =>
      MessageOrBundle(path, args, others);
      ParseWire(path, args);
    case BundleTree(tag, inner) =>
      BundleIsBundle(tag, ElemsWire(inner) + others);
      assert TreeWire(t) + others == BundleHeader(tag) + (ElemsWire(inner) + others);
      hide BundleHeader, TreeWire;
  }

  lemma TraceElementsStep(c: Setting, s: State, ts: Timetag, now: Timetag, elems: seq<Tree>)
    requires elems != []
    ensures TraceElements(c, s, ts, now, elems) ==
            TraceElements(c, FirstElement(c, s, ts, now, elems[0]), ts, now, elems[1..])
    ensures AllWellFormed(elems) ==> WellFormed(elems[0]) && AllWellFormed(elems[1..])
  {
  }

  lemma NoElements(c: Setting, s: State, ts: Timetag, now: Timetag, rest: seq<byte>)
    ensures ElemsWire([]) == [] && ElementsFit([])
    ensures DispatchElements(c, s, ts, now, rest, 0) == Outcome(s, 0)
    ensures TraceElements(c, s, ts, now, []) == s
  {
  }

  /** A message that is not named like a bundle is delivered at once. */
  lemma DispatchMessage(c: Setting, s: State, path: CString, args: seq<Arg>, rest: seq<byte>)
    requires path != BUNDLE && AllSendable(args)
    ensures var b := Wire(path, args);
            DispatchData(c, s, b + rest, |b|) ==
            Outcome(Log(s, Deliver(Entry(IMMEDIATE, path, ImageOf(args), c.sock))), |b|)
  {
    var b := Wire(path, args);
    WireParts(path, args);
    MessageOrBundle(path, args, rest);
    ParseWire(path, args);
    assert (b + rest)[..|b|] == b && ValidateString(b) >= 0;
    hide Wire, IsBundle, Parse, ValidateString, ImageOf;
  }

  /** A bundle whose elements fit is dispatched element by element, between its start and its end. */
  lemma DispatchBundle(c: Setting, s: State, ts: Timetag, elems: seq<byte>, rest: seq<byte>)
    requires ElementsFit(elems)
    ensures var b := BundleHeader(ts) + elems;
            (elems + rest)[..|elems|] == elems &&
            var o := DispatchElements(c, Begun(s, ts), ts, c.clock(s.readings), elems + rest, |elems|);
            DispatchData(c, s, b + rest, |b|) == if o.result == 0 then Outcome(Log(o.state, BundleEnd), |b|) else o
  {
    var b := BundleHeader(ts) + elems;
    BundleIsBundle(ts, elems);
    BundleIsBundle(ts, elems + rest);
    assert ValidateBundle(b) == |b|;
    hide *;
    Cut(b, rest);
    Cut(elems, rest);
    Associates(BundleHeader(ts), elems, rest);
    ValidBundle(c, s, b + rest, |b|);
  }

  lemma TraceBundle(c: Setting, s: State, ts: Timetag, elems: seq<Tree>)
    ensures TreeWire(BundleTree(ts, elems)) == BundleHeader(ts) + ElemsWire(elems)
    ensures Trace(c, s, BundleTree(ts, elems)) ==
            Log(TraceElements(c, Begun(s, ts), ts, c.clock(s.readings), elems), BundleEnd)
  {
  }

  /** The dispatch of a packet's bytes is the trace of its tree. */
  lemma {:induction false} DispatchIsTrace(c: Setting, s: State, t: Tree, rest: seq<byte>)
    requires WellFormed(t) && |TreeWire(t)| < LIMIT
    ensures DispatchData(c, s, TreeWire(t) + rest, |TreeWire(t)|) == Outcome(Trace(c, s, t), |TreeWire(t)|)
    decreases t, 1
  {
    match t
    case MessageTree(path, args) =>
      DispatchMessage(c, s, path, args, rest);
    case BundleTree(ts, elems) =>
      TraceBundle(c, s, ts, elems);
      ElementsAreTrace(c, Begun(s, ts), ts, c.clock(s.readings), elems, rest);
      DispatchBundle(c, s, ts, ElemsWire(elems), rest);
      hide BundleHeader, Log, Begun, DispatchData, DispatchElements, ElemsWire, TreeWire, Trace, TraceElements,
           ElementsFit;
  }

  /** The loop over the elements yields their trace. */
  ghost predicate YieldsTrace(c: Setting, s: State, ts: Timetag, now: Timetag, elems: seq<Tree>, rest: seq<byte>) {
    var b := ElemsWire(elems);
    && (b + rest)[..|b|] == b && ElementsFit(b)
    && DispatchElements(c, s, ts, now, b + rest, |b|) == Outcome(TraceElements(c, s, ts, now, elems), 0)
  }

  lemma YieldsTraceStep(c: Setting, s: State, ts: Timetag, now: Timetag, elems: seq<Tree>, rest: seq<byte>)
    requires elems != [] && WellFormed(elems[0]) && |TreeWire(elems[0])| < LIMIT
    requires YieldsTrace(c, FirstElement(c, s, ts, now, elems[0]), ts, now, elems[1..], rest)
    requires elems[0].BundleTree? ==>
               DispatchData(c, s, TreeWire(elems[0]) + (ElemsWire(elems[1..]) + rest), |TreeWire(elems[0])|).state ==
               Trace(c, s, elems[0])
    ensures YieldsTrace(c, s, ts, now, elems, rest)
  {
    hide DispatchElements, DispatchData, Framed, ElemsWire, TreeWire, Trace, TraceElements, FirstElement,
         ElementsFit, Parse, IsBundle, WellFormed, AllWellFormed, ElementSize, Arrive;
    var first, tail := TreeWire(elems[0]), ElemsWire(elems[1..]);
    ElemsWireFirst(elems);
    TraceElementsStep(c, s, ts, now, elems);
    ElementIs(c, s, ts, now, elems[0], tail + rest);
    WholeElements(first, tail);
    Associates(Framed(first), tail, rest);
    Cut(Framed(first) + tail, rest);
    ElementStep(c, s, ts, now, first, tail + rest, |tail|);
  }

  lemma WholeElements(first: seq<byte>, tail: seq<byte>)
    requires |first| < LIMIT && ElementsFit(tail)
    ensures ElementsFit(Framed(first) + tail)
  {
    hide Framed, ElementsFit;
    assert tail[..|tail|] == tail;
    FirstElementSize(first, tail, |tail|);
    assert (Framed(first) + tail)[..4 + |first| + |tail|] == Framed(first) + tail;
  }

  lemma Cut<T>(a: seq<T>, b: seq<T>)
    ensures (a + b)[..|a|] == a && (a + b)[|a|..] == b
  {
  }

  lemma Associates<T>(a: seq<T>, b: seq<T>, c: seq<T>)
    ensures a + b + c == a + (b + c)
  {
  }

  lemma {:induction false} ElementsAreTrace(c: Setting, s: State, ts: Timetag, now: Timetag,
                                            elems: seq<Tree>, rest: seq<byte>)
    requires AllWellFormed(elems) && |ElemsWire(elems)| < LIMIT
    ensures YieldsTrace(c, s, ts, now, elems, rest)
    decreases elems, 0
  {
    if elems == [] {
      NoElements(c, s, ts, now, [] + rest);
    } else {
      ElemsWireFirst(elems);
      TraceElementsStep(c, s, ts, now, elems);
      hide *;
      var t := elems[0];
      ElementsAreTrace(c, FirstElement(c, s, ts, now, t), ts, now, elems[1..], rest);
      if t.BundleTree? {
        DispatchIsTrace(c, s, t, ElemsWire(elems[1..]) + rest);
      }
      YieldsTraceStep(c, s, ts, now, elems, rest);
    }
  }
}
