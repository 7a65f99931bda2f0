/** What a server does with the bytes of a packet, as a function of the bytes. */
module Dispatching {
  import opened Bytes
  import opened Timetags
  import opened OscArgs
  import opened Validators
  import opened Packets
  import opened Trees
  import opened Scheduling

  /** What the application sees. */
  datatype Event =
    | BundleStart(ts: Timetag)
    | BundleEnd
    | Deliver(e: Entry)
    | Throw(code: int)

  /** What stays fixed during a dispatch; `clock` yields one reading of the time after another. */
  datatype Setting = Setting(enqueue: bool, clock: nat -> Timetag, sock: int)

  datatype State = State(queue: seq<Entry>, events: seq<Event>, readings: nat)

  datatype Outcome = Outcome(state: State, result: int)

  function Log(s: State, e: Event): State { s.(events := s.events + [e]) }

  /** The state once the bundle start handler has been called. */
  function Begun(s: State, ts: Timetag): State { Log(s.(readings := s.readings + 1), BundleStart(ts)) }

  /** A timetag that is not to wait. */
  predicate IsDue(c: Setting, ts: Timetag, now: Timetag) {
    ts == IMMEDIATE || Diff(ts, now) <= 0.0 || !c.enqueue
  }

  /** A message of a bundle is delivered or queued. */
  function Arrive(c: Setting, s: State, ts: Timetag, now: Timetag, m: Message): State {
    var e := Entry(ts, m.path, ImageOf(m.args), c.sock);
    if IsDue(c, ts, now) then Log(s, Deliver(e)) else s.(queue := Insert(s.queue, e))
  }

  /** What the delivery of some entries adds to the events. */
  function Deliveries(q: seq<Entry>): (r: seq<Event>)
    ensures |r| == |q|
  {
    seq(|q|, i requires 0 <= i < |q| => Deliver(q[i]))
  }

  /** A call that dispatches from the queue. */
  function DispatchedState(s: State, all: bool): State {
    if s.queue == [] then Log(s, Throw(LO_INT_ERR))
    else
      var n := Dispatched(s.queue, all);
      State(s.queue[n..], s.events + Deliveries(s.queue[..n]), s.readings)
  }

  // Bundles in bytes

  /** The string comparison with the bundle marker; bytes after the packet never match. */
  predicate IsBundle(b: seq<byte>) {
    |b| >= 8 && b[..8] == Pad(BUNDLE)
  }

  /** Counted elements up to the very end. */
  predicate ElementsFit(b: seq<byte>)
    decreases |b|
  {
    if |b| < 4 then b == []
    else
      var n := FromBe32(b).Value();
      4 + n <= |b| && ElementsFit(b[4 + n..])
  }

  function ValidateBundle(b: seq<byte>): int {
    if ValidateString(b) < 0 then -LO_ESIZE
    else if !IsBundle(b) then -LO_EINVALIDBUND
    else if |b| < 16 then -LO_ESIZE
    else if ElementsFit(b[16..]) then |b|
    else -LO_ESIZE
  }

  method LoValidateBundle(data: seq<byte>) returns (r: int)
    ensures r == ValidateBundle(data)
  {
    var len := LoValidateString(data);
    if len < 0 {
      return -LO_ESIZE;
    }
    if !IsBundle(data) {
      return -LO_EINVALIDBUND;
    }
    BundleMarker(data);
    var pos: nat, remain := len, |data| - len;
    if remain < 8 {
      return -LO_ESIZE;
    }
    assert ValidateBundle(data) == if ElementsFit(data[16..]) then |data| else -LO_ESIZE;
    hide *;
    pos, remain := pos + 8, remain - 8;
    while remain >= 4
      invariant pos + remain == |data| && 16 <= pos <= |data|
      invariant ElementsFit(data[16..]) == ElementsFit(data[pos..])
    {
      FitStep(data, pos);
      var elemLen := FromBe32(data[pos..]).Value();
      pos, remain := pos + 4, remain - 4;
      if elemLen > remain {
        return -LO_ESIZE;
      }
      pos, remain := pos + elemLen, remain - elemLen;
    }
    FitEnds(data[pos..]);
    return if remain != 0 then -LO_ESIZE else |data|;
  }

  lemma FitEnds(b: seq<byte>)
    requires |b| < 4
    ensures ElementsFit(b) <==> b == []
  {
  }

  lemma FitStep(data: seq<byte>, pos: nat)
    requires pos + 4 <= |data|
    ensures var n := FromBe32(data[pos..]).Value();
            ElementsFit(data[pos..]) <==> pos + 4 + n <= |data| && ElementsFit(data[pos + 4 + n..])
  {
    var n := FromBe32(data[pos..]).Value();
    if pos + 4 + n <= |data| {
      assert data[pos..][4 + n..] == data[pos + 4 + n..];
    }
  }

  /** The marker is a string of eight bytes. */
  lemma BundleMarker(b: seq<byte>)
    requires IsBundle(b)
    ensures ValidateString(b) == 8
  {
    assert b == Pad(BUNDLE) + b[8..];
    ValidateStringPad(BUNDLE, b[8..]);
  }

  function TimetagIn(b: seq<byte>): Timetag
    requires |b| >= 8
  {
    Timetag(FromBe32(b).Value(), FromBe32(b[4..]).Value())
  }

  /** Dispatch of the first `size` of the remaining bytes `rest` of a packet. */
  function DispatchData(c: Setting, s: State, rest: seq<byte>, size: nat): Outcome
    requires size <= |rest|
    decreases size
  {
    var b := rest[..size];
    if ValidateString(b) < 0 then
      Outcome(Log(s, Throw(-ValidateString(b))), ValidateString(b))
    else if IsBundle(rest) then
      if ValidateBundle(b) < 0 then
        Outcome(Log(s, Throw(-ValidateBundle(b))), ValidateBundle(b))
      else
        assert b[16..] == rest[16..][..size - 16];
        var ts := TimetagIn(rest[8..]);
        var o := DispatchElements(c, Begun(s, ts), ts, c.clock(s.readings), rest[16..], size - 16);
        if o.result == 0 then Outcome(Log(o.state, BundleEnd), size) else o
    else
      match Parse(b)
      case Failure(e) => Outcome(Log(s, Throw(e)), -e)
      case Success(m) =>
        Outcome(Log(s, Deliver(Entry(IMMEDIATE, m.path, ImageOf(m.args), c.sock))), size)
  }

  /** The elements of a bundle; the result is 0 unless one of them is a malformed message. */
  function DispatchElements(c: Setting, s: State, ts: Timetag, now: Timetag,
                            rest: seq<byte>, remain: nat): Outcome
    requires remain <= |rest| && ElementsFit(rest[..remain])
    decreases remain
  {
    if remain < 4 then Outcome(s, 0)
    else
      var n := ElementSize(rest, remain);
      var e := rest[4..];
      if IsBundle(e) then
        DispatchElements(c, DispatchData(c, s, e, n).state, ts, now, e[n..], remain - 4 - n)
      else
        match Parse(e[..n])
        case Failure(code) => Outcome(Log(s, Throw(code)), -code)
        case Success(m) => DispatchElements(c, Arrive(c, s, ts, now, m), ts, now, e[n..], remain - 4 - n)
  }

  function ElementSize(rest: seq<byte>, remain: nat): (n: nat)
    requires 4 <= remain <= |rest| && ElementsFit(rest[..remain])
    ensures 4 + n <= remain && ElementsFit(rest[4..][n..][..remain - 4 - n])
  {
    var n := FromBe32(rest).Value();
    assert FromBe32(rest[..remain]) == FromBe32(rest);
    assert rest[..remain][4 + n..] == rest[4..][n..][..remain - 4 - n];
    n
  }

  /** A valid bundle is dispatched element by element, between its start and its end. */
  lemma ValidBundle(c: Setting, s: State, rest: seq<byte>, size: nat)
    requires size <= |rest| && IsBundle(rest) && ValidateBundle(rest[..size]) >= 0
    ensures 16 <= size && ElementsFit(rest[16..][..size - 16]) && ValidateString(rest[..size]) == 8
    ensures var ts := TimetagIn(rest[8..]);
            var o := DispatchElements(c, Begun(s, ts), ts, c.clock(s.readings), rest[16..], size - 16);
            DispatchData(c, s, rest, size) == if o.result == 0 then Outcome(Log(o.state, BundleEnd), size) else o
  {
    BundleMarker(rest[..size]);
    assert rest[..size][16..] == rest[16..][..size - 16];
    hide IsBundle, ValidateString, DispatchElements, TimetagIn, ElementsFit;
  }

  /** One round of the loop over the elements. */
  lemma ElementsStep(c: Setting, s: State, ts: Timetag, now: Timetag, rest: seq<byte>, remain: nat)
    requires remain <= |rest| && ElementsFit(rest[..remain])
    ensures var o := DispatchElements(c, s, ts, now, rest, remain);
            if remain < 4 then o == Outcome(s, 0)
            else
              var n, e := ElementSize(rest, remain), rest[4..];
              if IsBundle(e) then
                o == DispatchElements(c, DispatchData(c, s, e, n).state, ts, now, e[n..], remain - 4 - n)
              else
                match Parse(e[..n])
                case Failure(code) => o == Outcome(Log(s, Throw(code)), -code)
                case Success(m) =>
                  o == DispatchElements(c, Arrive(c, s, ts, now, m), ts, now, e[n..], remain - 4 - n)
  {
    hide ElementsFit, ElementSize, IsBundle, Parse, Arrive, DispatchData;
  }
}
