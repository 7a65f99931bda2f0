/** The start and end handlers of bundles nest, whatever is received; when every start has its end. */
module Nesting {
  import opened Bytes
  import opened Timetags
  import opened OscArgs
  import opened Validators
  import opened Packets
  import opened Trees
  import opened Scheduling
  import opened Dispatching
  import opened Traces

  /** Number of bundles begun and not ended, or -1 once an end has come without a start. */
  function Depth(events: seq<Event>): (d: int)
    ensures d >= -1
  {
    if events == [] then 0
    else
      var d := Depth(events[..|events| - 1]);
      if d == -1 then -1
      else match events[|events| - 1]
        case BundleStart(_) => d + 1
        case BundleEnd => d - 1
        case _ => d
  }

  lemma DepthLog(s: State, e: Event)
    ensures Depth(Log(s, e).events) ==
            if Depth(s.events) == -1 then -1
            else Depth(s.events) + if e.BundleStart? then 1 else if e.BundleEnd? then -1 else 0
  {
    assert Log(s, e).events[..|s.events|] == s.events;
  }

  lemma DepthArrive(c: Setting, s: State, ts: Timetag, now: Timetag, m: Message)
    ensures Depth(Arrive(c, s, ts, now, m).events) == Depth(s.events)
  {
    DepthLog(s, Deliver(Entry(ts, m.path, ImageOf(m.args), c.sock)));
  }

  /** No message in a bundle of the packet is malformed. */
  predicate Complete(rest: seq<byte>, size: nat)
    requires size <= |rest|
    decreases size
  {
    IsBundle(rest) && ValidateBundle(rest[..size]) >= 0 ==>
      assert rest[..size][16..] == rest[16..][..size - 16];
      CompleteElements(rest[16..], size - 16)
  }

  predicate CompleteElements(rest: seq<byte>, remain: nat)
    requires remain <= |rest| && ElementsFit(rest[..remain])
    decreases remain
  {
    remain >= 4 ==>
      var n, e := ElementSize(rest, remain), rest[4..];
      && (if IsBundle(e) then Complete(e, n) else Parse(e[..n]).Success?)
      && CompleteElements(e[n..], remain - 4 - n)
  }

  /** No end comes without its start, and every start has its end just when the packet is complete. */
  lemma {:induction false} StartsAndEnds(c: Setting, s: State, rest: seq<byte>, size: nat)
    requires size <= |rest| && Depth(s.events) >= 0
    ensures var after := Depth(DispatchData(c, s, rest, size).state.events);
            after >= Depth(s.events) && (after == Depth(s.events) <==> Complete(rest, size))
    decreases size
  {
    var b := rest[..size];
    if ValidateString(b) < 0 {
      DepthLog(s, Throw(-ValidateString(b)));
    } else if IsBundle(rest) {
      if ValidateBundle(b) < 0 {
        DepthLog(s, Throw(-ValidateBundle(b)));
      } else {
        ValidBundle(c, s, rest, size);
        var ts := TimetagIn(rest[8..]);
        var o := DispatchElements(c, Begun(s, ts), ts, c.clock(s.readings), rest[16..], size - 16);
        DepthLog(s.(readings := s.readings + 1), BundleStart(ts));
        ElementsStartAndEnd(c, Begun(s, ts), ts, c.clock(s.readings), rest[16..], size - 16);
        DepthLog(o.state, BundleEnd);
      }
    } else {
      match Parse(b)
      case Failure(e) => DepthLog(s, Throw(e));
      case Success(m) => DepthLog(s, Deliver(Entry(IMMEDIATE, m.path, ImageOf(m.args), c.sock)));
    }
  }

  lemma {:induction false} ElementsStartAndEnd(c: Setting, s: State, ts: Timetag, now: Timetag,
                                               rest: seq<byte>, remain: nat)
    requires remain <= |rest| && ElementsFit(rest[..remain]) && Depth(s.events) >= 0
    ensures var o := DispatchElements(c, s, ts, now, rest, remain);
            var after := Depth(o.state.events);
            after >= Depth(s.events) &&
            (o.result == 0 && after == Depth(s.events) <==> CompleteElements(rest, remain))
    decreases remain
  {
    hide Parse, IsBundle, ElementsFit, ElementSize, DispatchData, DispatchElements, Arrive, Depth, Log, Complete;
    ElementsStep(c, s, ts, now, rest, remain);
    if remain >= 4 {
      var n, e := ElementSize(rest, remain), rest[4..];
      if IsBundle(e) {
        var inner := DispatchData(c, s, e, n).state;
        StartsAndEnds(c, s, e, n);
        ElementsStartAndEnd(c, inner, ts, now, e[n..], remain - 4 - n);
      } else {
        ParsedPath(e[..n]);
        match Parse(e[..n])
        case Failure(code) => DepthLog(s, Throw(code));
        case Success(m) =>
          DepthArrive(c, s, ts, now, m);
          ElementsStartAndEnd(c, Arrive(c, s, ts, now, m), ts, now, e[n..], remain - 4 - n);
      }
    }
  }

  /** The smallest bundle whose start has no end: its one element is empty. */
  lemma UnendedBundle(c: Setting, s: State, ts: Timetag)
    ensures var b := BundleHeader(ts) + Zeros(4);
            DispatchData(c, s, b, |b|) == Outcome(Log(Begun(s, ts), Throw(LO_ESIZE)), -LO_ESIZE)
  {
    assert -LO_ESIZE != 0;
    hide *;
    var elems, begun, now := Zeros(4), Begun(s, ts), c.clock(s.readings);
    EmptyElement(c, begun, ts, now);
    DispatchBundle(c, s, ts, elems, []);
    NothingAfter(elems);
    NothingAfter(BundleHeader(ts) + elems);
  }

  lemma NothingAfter(b: seq<byte>)
    ensures b + [] == b
  {
  }

  lemma EmptyElementFits(b: seq<byte>)
    requires |b| == 4 && forall i | 0 <= i < 4 :: b[i] == 0
    ensures b[..4] == b && ElementsFit(b) && ElementSize(b, 4) == 0
  {
    hide *;
    ZeroCount(b);
    FitEnds(b[4..]);
    FitsWithoutElement(b);
    assert b[..4] == b;
    SizeIsCount(b, 4);
  }

  lemma SizeIsCount(b: seq<byte>, remain: nat)
    requires 4 <= remain <= |b| && ElementsFit(b[..remain])
    ensures ElementSize(b, remain) == FromBe32(b).Value()
  {
    hide ElementsFit, FromBe32, Word.Value;
  }

  lemma ZeroCount(b: seq<byte>)
    requires |b| == 4 && forall i | 0 <= i < 4 :: b[i] == 0
    ensures FromBe32(b).Value() == 0
  {
  }

  lemma FitsWithoutElement(b: seq<byte>)
    requires |b| >= 4 && FromBe32(b).Value() == 0 && ElementsFit(b[4..])
    ensures ElementsFit(b)
  {
    hide FromBe32, Word.Value;
  }

  lemma NothingParses()
    ensures Parse([]) == Failure(LO_ESIZE) && !IsBundle([])
  {
  }

  lemma EmptyElement(c: Setting, s: State, ts: Timetag, now: Timetag)
    ensures var elems := Zeros(4);
            elems[..4] == elems && ElementsFit(elems) &&
            DispatchElements(c, s, ts, now, elems, 4) == Outcome(Log(s, Throw(LO_ESIZE)), -LO_ESIZE)
  {
    hide *;
    var elems := Zeros(4);
    assert elems[..4] == elems && elems[4..] == [] && elems[4..][..0] == [];
    EmptyElementFits(elems);
    NothingParses();
    ElementsStep(c, s, ts, now, elems, 4);
  }
}
