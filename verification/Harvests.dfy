/** The messages that a dispatch comes upon in any bytes, and where they end up. */
module Harvests {
  import opened Bytes
  import opened Timetags
  import opened OscArgs
  import opened Validators
  import opened Packets
  import opened Scheduling
  import opened Dispatching
  import opened Arrivals

  /** The messages a dispatch comes upon, in order, and the number of readings of the clock. */
  datatype Harvest = Harvest(leaves: seq<Leaf>, taken: nat)

  function HarvestData(c: Setting, readings: nat, rest: seq<byte>, size: nat): Harvest
    requires size <= |rest|
    decreases size
  {
    var b := rest[..size];
    if ValidateString(b) < 0 then Harvest([], 0)
    else if IsBundle(rest) then
      if ValidateBundle(b) < 0 then Harvest([], 0)
      else
        assert b[16..] == rest[16..][..size - 16];
        var h := HarvestElements(c, readings + 1, TimetagIn(rest[8..]), c.clock(readings), rest[16..], size - 16);
        Harvest(h.leaves, 1 + h.taken)
    else
      match Parse(b)
      case Failure(_) => Harvest([], 0)
      case Success(m) => Harvest([Leaf(Entry(IMMEDIATE, m.path, ImageOf(m.args), c.sock), true)], 0)
  }

  function HarvestElements(c: Setting, readings: nat, ts: Timetag, now: Timetag, rest: seq<byte>,
                           remain: nat): Harvest
    requires remain <= |rest| && ElementsFit(rest[..remain])
    decreases remain
  {
    if remain < 4 then Harvest([], 0)
    else
      var n, e := ElementSize(rest, remain), rest[4..];
      if IsBundle(e) then
        var h := HarvestData(c, readings, e, n);
        var k := HarvestElements(c, readings + h.taken, ts, now, e[n..], remain - 4 - n);
        Harvest(h.leaves + k.leaves, h.taken + k.taken)
      else
        match Parse(e[..n])
        case Failure(_) => Harvest([], 0)
        case Success(m) =>
          var k := HarvestElements(c, readings, ts, now, e[n..], remain - 4 - n);
          Harvest([Leaf(Entry(ts, m.path, ImageOf(m.args), c.sock), IsDue(c, ts, now))] + k.leaves, k.taken)
  }

  /** One round over the elements. */
  lemma HarvestStep(c: Setting, readings: nat, ts: Timetag, now: Timetag, rest: seq<byte>, remain: nat)
    requires remain <= |rest| && ElementsFit(rest[..remain])
    ensures var h := HarvestElements(c, readings, ts, now, rest, remain);
            if remain < 4 then h == Harvest([], 0)
            else
              var n, e := ElementSize(rest, remain), rest[4..];
              if IsBundle(e) then
                var d := HarvestData(c, readings, e, n);
                var k := HarvestElements(c, readings + d.taken, ts, now, e[n..], remain - 4 - n);
                h == Harvest(d.leaves + k.leaves, d.taken + k.taken)
              else
                match Parse(e[..n])
                case Failure(_) => h == Harvest([], 0)
                case Success(m) =>
                  var k := HarvestElements(c, readings, ts, now, e[n..], remain - 4 - n);
                  h == Harvest([Leaf(Entry(ts, m.path, ImageOf(m.args), c.sock), IsDue(c, ts, now))] + k.leaves,
                               k.taken)
  {
    hide ElementsFit, ElementSize, IsBundle, Parse, HarvestData, ImageOf, IsDue;
  }

  lemma ReachesNothing(s: State, r: State)
    requires Delivered(r.events) == Delivered(s.events) && r.queue == s.queue && r.readings == s.readings
    ensures Reaches(s, [], 0, r)
  {
    assert Delivered(s.events) + [] == Delivered(s.events);
    NothingInserted(s.queue);
  }

  lemma ReachesThrow(s: State, code: int)
    ensures Reaches(s, [], 0, Log(s, Throw(code)))
  {
    DeliveredLog(s, Throw(code));
    assert Delivered(s.events) + [] == Delivered(s.events);
    ReachesNothing(s, Log(s, Throw(code)));
  }

  /** A bundle that an error cuts short. */
  lemma ReachesUnended(s: State, ts: Timetag, ls: seq<Leaf>, n: nat, r: State)
    requires Reaches(Begun(s, ts), ls, n, r)
    ensures Reaches(s, ls, n + 1, r)
  {
    DeliveredLog(s.(readings := s.readings + 1), BundleStart(ts));
    hide Delivered, Select, InsertAll;
    assert Delivered(s.events) + [] == Delivered(s.events);
  }

  /** For all bytes: what is come upon is delivered or queued, as it is due or not. */
  lemma {:induction false} BytesArrive(c: Setting, s: State, rest: seq<byte>, size: nat)
    requires size <= |rest|
    ensures var h := HarvestData(c, s.readings, rest, size);
            Reaches(s, h.leaves, h.taken, DispatchData(c, s, rest, size).state)
    decreases size
  {
    hide Reaches, Parse, IsBundle, ValidateString, ValidateBundle, ElementsFit, DispatchElements, HarvestElements,
         TimetagIn, ImageOf;
    var b := rest[..size];
    if ValidateString(b) < 0 {
      ReachesThrow(s, -ValidateString(b));
    } else if IsBundle(rest) {
      if ValidateBundle(b) < 0 {
        ReachesThrow(s, -ValidateBundle(b));
      } else {
        ValidBundle(c, s, rest, size);
        var ts, now := TimetagIn(rest[8..]), c.clock(s.readings);
        var h := HarvestElements(c, s.readings + 1, ts, now, rest[16..], size - 16);
        var o := DispatchElements(c, Begun(s, ts), ts, now, rest[16..], size - 16);
        ElementsArrive(c, Begun(s, ts), ts, now, rest[16..], size - 16);
        ReachesUnended(s, ts, h.leaves, h.taken, o.state);
        ReachesBundle(s, ts, h.leaves, h.taken, o.state);
      }
    } else {
      match Parse(b)
      case Failure(e) => ReachesThrow(s, e);
      case Success(m) => ReachesArrive(c, s, IMMEDIATE, IMMEDIATE, m);
    }
  }

  lemma {:induction false} ElementsArrive(c: Setting, s: State, ts: Timetag, now: Timetag, rest: seq<byte>,
                                          remain: nat)
    requires remain <= |rest| && ElementsFit(rest[..remain])
    ensures var h := HarvestElements(c, s.readings, ts, now, rest, remain);
            Reaches(s, h.leaves, h.taken, DispatchElements(c, s, ts, now, rest, remain).state)
    decreases remain
  {
    hide Reaches, Parse, IsBundle, ElementsFit, ElementSize, DispatchData, DispatchElements, Arrive, Log, ImageOf,
         IsDue, HarvestData, HarvestElements;
    ElementsStep(c, s, ts, now, rest, remain);
    HarvestStep(c, s.readings, ts, now, rest, remain);
    if remain < 4 {
      ReachesNothing(s, s);
    } else {
      var n, e := ElementSize(rest, remain), rest[4..];
      var r := DispatchElements(c, s, ts, now, rest, remain).state;
      if IsBundle(e) {
        var h, next := HarvestData(c, s.readings, e, n), DispatchData(c, s, e, n).state;
        BytesArrive(c, s, e, n);
        ReadingsAre(s, h.leaves, h.taken, next);
        var k := HarvestElements(c, next.readings, ts, now, e[n..], remain - 4 - n);
        ElementsArrive(c, next, ts, now, e[n..], remain - 4 - n);
        ReachesThrough(s, h.leaves, h.taken, next, k.leaves, k.taken, r);
      } else {
        match Parse(e[..n])
        case Failure(code) => ReachesThrow(s, code);
        case Success(m) =>
          var l := Leaf(Entry(ts, m.path, ImageOf(m.args), c.sock), IsDue(c, ts, now));
          var next := Arrive(c, s, ts, now, m);
          ReachesArrive(c, s, ts, now, m);
          ReadingsAre(s, [l], 0, next);
          var k := HarvestElements(c, next.readings, ts, now, e[n..], remain - 4 - n);
          ElementsArrive(c, next, ts, now, e[n..], remain - 4 - n);
          ReachesThrough(s, [l], 0, next, k.leaves, k.taken, r);
      }
    }
  }

  lemma ReadingsAre(s: State, ls: seq<Leaf>, n: nat, r: State)
    requires Reaches(s, ls, n, r)
    ensures r.readings == s.readings + n
  {
  }
}
