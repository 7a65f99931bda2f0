/**
 * Messages that are delivered on arrival, beside those that are queued first: what is kept in every
 * run, and when messages of one time keep their order.
 */
module Overtaking {
  import opened Timetags
  import opened Scheduling
  import opened Arrivals

  /** A message arrives, due or not; or messages are dispatched from the queue. */
  datatype Happening = Comes(leaf: Leaf) | Serve(all: bool)

  function After(s: Schedule, h: Happening): Schedule {
    match h
    case Comes(l) =>
      if l.due then Schedule(s.queue, s.done + [l.e], s.enqueued + [l.e]) else Next(s, Enqueue(l.e))
    case Serve(all) => Next(s, Dispatch(all))
  }

  function AfterAll(s: Schedule, hs: seq<Happening>): Schedule
    decreases |hs|
  {
    if hs == [] then s else AfterAll(After(s, hs[0]), hs[1..])
  }

  /** A message is delivered while another of its time is still queued. */
  predicate Overtakes(s: Schedule, h: Happening) {
    h.Comes? && h.leaf.due && At(s.queue, h.leaf.e.ts) != []
  }

  predicate NeverOvertakes(s: Schedule, hs: seq<Happening>)
    decreases |hs|
  {
    hs == [] || (!Overtakes(s, hs[0]) && NeverOvertakes(After(s, hs[0]), hs[1..]))
  }

  /** The queue is in order, and what has arrived is delivered or queued, once. */
  ghost predicate Conserved(s: Schedule) {
    Ordered(s.queue) && multiset(s.done) + multiset(s.queue) == multiset(s.enqueued)
  }

  lemma InsertAdds(q: seq<Entry>, e: Entry)
    requires Ordered(q)
    ensures Ordered(Insert(q, e)) && multiset(Insert(q, e)) == multiset(q) + multiset{e}
  {
    InsertOrdered(q, e);
    var k := InsertPosition(q, e);
    assert q == q[..k] + q[k..];
  }

  lemma AfterConserves(s: Schedule, h: Happening)
    requires Conserved(s)
    ensures Conserved(After(s, h))
  {
    hide Ordered;
    match h
    case Comes(l) => InsertAdds(s.queue, l.e);
    case Serve(all) =>
      var n := Dispatched(s.queue, all);
      DropOrdered(s.queue, n);
      assert s.queue == s.queue[..n] + s.queue[n..];
  }

  lemma {:induction false} RunConserves(s: Schedule, hs: seq<Happening>)
    requires Conserved(s)
    ensures Conserved(AfterAll(s, hs))
    decreases |hs|
  {
    hide Conserved, After;
    if hs != [] {
      AfterConserves(s, hs[0]);
      RunConserves(After(s, hs[0]), hs[1..]);
    }
  }

  /** Order is kept unless a message overtakes. */
  lemma AfterKeepsOrder(s: Schedule, h: Happening)
    requires Ordered(s.queue) && InOrderOfArrival(s) && !Overtakes(s, h)
    ensures Ordered(After(s, h).queue) && InOrderOfArrival(After(s, h))
  {
    match h
    case Comes(l) =>
      if l.due {
        forall t
          ensures At(s.done + [l.e], t) + At(s.queue, t) == At(s.enqueued + [l.e], t)
        {
          AtAppend(s.done, [l.e], t);
          AtAppend(s.enqueued, [l.e], t);
          AtOne(l.e, t);
        }
      } else {
        NextKeeps(s, Enqueue(l.e));
      }
    case Serve(all) => NextKeeps(s, Dispatch(all));
  }

  lemma AtOne(e: Entry, t: Timetag)
    ensures At([e], t) == if e.ts == t then [e] else []
  {
    assert [e][1..] == [];
  }

  /** The i-th message dispatched for a time is not the i-th that arrived for it. */
  ghost predicate OutOfOrder(s: Schedule, t: Timetag, i: nat) {
    i < |At(s.done, t)| && (i >= |At(s.enqueued, t)| || At(s.done, t)[i] != At(s.enqueued, t)[i])
  }

  /** What is dispatched, and what has arrived, only grows. */
  lemma AfterGrows(s: Schedule, h: Happening)
    ensures s.done <= After(s, h).done && s.enqueued <= After(s, h).enqueued
  {
  }

  lemma {:induction false} RunGrows(s: Schedule, hs: seq<Happening>)
    ensures s.done <= AfterAll(s, hs).done && s.enqueued <= AfterAll(s, hs).enqueued
    decreases |hs|
  {
    hide After;
    if hs != [] {
      AfterGrows(s, hs[0]);
      RunGrows(After(s, hs[0]), hs[1..]);
    }
  }

  lemma AtGrows(p: seq<Entry>, q: seq<Entry>, t: Timetag)
    requires p <= q
    ensures At(p, t) <= At(q, t)
  {
    assert q == p + q[|p|..];
    AtAppend(p, q[|p|..], t);
  }

  /** An overtaking shows in what has been delivered, for ever, if the messages differ. */
  lemma OvertakingShows(s: Schedule, h: Happening, hs: seq<Happening>)
    requires InOrderOfArrival(s) && Overtakes(s, h) && h.leaf.e !in s.enqueued
    ensures !InOrderOfArrival(AfterAll(After(s, h), hs))
  {
    var e, n, z := h.leaf.e, After(s, h), AfterAll(After(s, h), hs);
    var t, i := e.ts, |At(s.done, e.ts)|;
    AtAppend(s.done, [e], t);
    AtAppend(s.enqueued, [e], t);
    AtOne(e, t);
    AtMembers(s.enqueued, t);
    assert At(s.done, t) + At(s.queue, t) == At(s.enqueued, t);
    assert At(n.done, t)[i] == e && At(n.enqueued, t)[i] == At(s.queue, t)[0] == At(s.enqueued, t)[i];
    RunGrows(n, hs);
    AtGrows(n.done, z.done, t);
    AtGrows(n.enqueued, z.enqueued, t);
    hide At, After, AfterAll;
    assert (At(z.done, t) + At(z.queue, t))[i] == e;
  }

  lemma {:induction false} AtMembers(q: seq<Entry>, t: Timetag)
    ensures forall x | x in At(q, t) :: x in q
  {
    if q != [] {
      AtMembers(q[1..], t);
    }
  }

  ghost predicate AllDifferent(q: seq<Entry>) { forall i, j | 0 <= i < j < |q| :: q[i] != q[j] }

  /** Where no two messages are the same, their order is kept exactly if none overtakes. */
  lemma {:induction false} RunKeepsOrder(s: Schedule, hs: seq<Happening>)
    requires Ordered(s.queue) && InOrderOfArrival(s)
    ensures NeverOvertakes(s, hs) ==> InOrderOfArrival(AfterAll(s, hs))
    ensures AllDifferent(AfterAll(s, hs).enqueued) && InOrderOfArrival(AfterAll(s, hs)) ==> NeverOvertakes(s, hs)
    decreases |hs|
  {
    hide InOrderOfArrival, Ordered, After, Overtakes;
    if hs != [] {
      if Overtakes(s, hs[0]) {
        var z := AfterAll(s, hs);
        if AllDifferent(z.enqueued) {
          ArrivesNew(s, hs);
          OvertakingShows(s, hs[0], hs[1..]);
        }
      } else {
        AfterKeepsOrder(s, hs[0]);
        RunKeepsOrder(After(s, hs[0]), hs[1..]);
      }
    }
  }

  lemma ArrivesNew(s: Schedule, hs: seq<Happening>)
    requires hs != [] && Overtakes(s, hs[0]) && AllDifferent(AfterAll(s, hs).enqueued)
    ensures hs[0].leaf.e !in s.enqueued
  {
    var n, z := After(s, hs[0]), AfterAll(s, hs);
    RunGrows(n, hs[1..]);
    var k := |s.enqueued|;
    assert z.enqueued[k] == n.enqueued[k] == hs[0].leaf.e;
    hide After, AfterAll, Overtakes;
    forall i | 0 <= i < k
      ensures s.enqueued[i] != hs[0].leaf.e
    {
      assert z.enqueued[i] == n.enqueued[i] == s.enqueued[i];
    }
  }

  /** In every run from the start. */
  lemma KeepsOrderExactly(hs: seq<Happening>)
    ensures Conserved(AfterAll(EMPTY, hs))
    ensures AllDifferent(AfterAll(EMPTY, hs).enqueued) ==>
              (InOrderOfArrival(AfterAll(EMPTY, hs)) <==> NeverOvertakes(EMPTY, hs))
    ensures NeverOvertakes(EMPTY, hs) ==> InOrderOfArrival(AfterAll(EMPTY, hs))
  {
    RunConserves(EMPTY, hs);
    RunKeepsOrder(EMPTY, hs);
  }

  // Packets as sequences of arrivals

  function AllArrive(ls: seq<Leaf>): (hs: seq<Happening>)
    ensures |hs| == |ls|
  {
    if ls == [] then [] else [Comes(ls[0])] + AllArrive(ls[1..])
  }

  lemma {:induction false} ArrivalsAre(s: Schedule, ls: seq<Leaf>)
    ensures AfterAll(s, AllArrive(ls)) ==
            Schedule(InsertAll(s.queue, Select(ls, false)), s.done + Select(ls, true), s.enqueued + EntriesOf(ls))
    decreases |ls|
  {
    if ls == [] {
      assert s.done + [] == s.done && s.enqueued + [] == s.enqueued;
    } else {
      var n := After(s, Comes(ls[0]));
      assert AllArrive(ls)[1..] == AllArrive(ls[1..]);
      ArrivalsAre(n, ls[1..]);
      FirstSelected(s, ls);
      hide Select, EntriesOf, InsertAll, AllArrive;
    }
  }

  lemma FirstSelected(s: Schedule, ls: seq<Leaf>)
    requires ls != []
    ensures var n := After(s, Comes(ls[0]));
            InsertAll(n.queue, Select(ls[1..], false)) == InsertAll(s.queue, Select(ls, false)) &&
            n.done + Select(ls[1..], true) == s.done + Select(ls, true) &&
            n.enqueued + EntriesOf(ls[1..]) == s.enqueued + EntriesOf(ls)
  {
    hide Select, EntriesOf, InsertAll, Insert, Dispatched;
    var e, others := ls[0].e, ls[1..];
    SelectFirst(ls);
    InsertAllFirst(s.queue, e, Select(others, false));
    assert s.enqueued + [e] + EntriesOf(others) == s.enqueued + ([e] + EntriesOf(others));
    assert s.done + [e] + Select(others, true) == s.done + ([e] + Select(others, true));
  }

  lemma SelectFirst(ls: seq<Leaf>)
    requires ls != []
    ensures Select(ls, true) == if ls[0].due then [ls[0].e] + Select(ls[1..], true) else Select(ls[1..], true)
    ensures Select(ls, false) == if ls[0].due then Select(ls[1..], false) else [ls[0].e] + Select(ls[1..], false)
    ensures EntriesOf(ls) == [ls[0].e] + EntriesOf(ls[1..])
  {
    assert [] + Select(ls[1..], true) == Select(ls[1..], true);
    assert [] + Select(ls[1..], false) == Select(ls[1..], false);
  }

  lemma InsertAllFirst(q: seq<Entry>, e: Entry, es: seq<Entry>)
    ensures InsertAll(q, [e] + es) == InsertAll(Insert(q, e), es)
  {
    assert ([e] + es)[1..] == es;
    hide Insert;
  }

  lemma {:induction false} AfterAppend(s: Schedule, hs: seq<Happening>, ks: seq<Happening>)
    ensures AfterAll(s, hs + ks) == AfterAll(AfterAll(s, hs), ks)
    decreases |hs|
  {
    hide After;
    if hs == [] {
      assert hs + ks == ks;
    } else {
      assert (hs + ks)[1..] == hs[1..] + ks && (hs + ks)[0] == hs[0];
      AfterAppend(After(s, hs[0]), hs[1..], ks);
    }
  }
}
