/** The queue of messages that are not due yet: its order, and what is dispatched from it. */
module Scheduling {
  import opened Bytes
  import opened Timetags
  import opened OscArgs

  /** A message with its path, the timetag of its bundle, and the socket it came from. */
  datatype Entry = Entry(ts: Timetag, path: CString, msg: Image, sock: int)

  /** In front of the first entry that is later. */
  function Insert(q: seq<Entry>, e: Entry): (r: seq<Entry>)
    ensures |r| == |q| + 1
  {
    if q == [] then [e]
    else if Diff(q[0].ts, e.ts) > 0.0 then [e] + q
    else [q[0]] + Insert(q[1..], e)
  }

  /** Number of entries at the front that are dispatched with one of time `t`. */
  function Due(q: seq<Entry>, t: Timetag, all: bool): (n: nat)
    ensures n <= |q|
  {
    if q != [] && (Diff(q[0].ts, t) < FLT_EPSILON || all) then 1 + Due(q[1..], t, all) else 0
  }

  /** Number of entries that one call dispatches. */
  function Dispatched(q: seq<Entry>, all: bool): (n: nat)
    ensures n <= |q|
  {
    if q == [] then 0 else 1 + Due(q[1..], q[0].ts, all)
  }

  // Runs

  datatype Step = Enqueue(e: Entry) | Dispatch(all: bool)

  /** What is queued, what has been dispatched, and what has been enqueued so far. */
  datatype Schedule = Schedule(queue: seq<Entry>, done: seq<Entry>, enqueued: seq<Entry>)

  const EMPTY := Schedule([], [], [])

  function Next(s: Schedule, step: Step): Schedule {
    match step
    case Enqueue(e) => Schedule(Insert(s.queue, e), s.done, s.enqueued + [e])
    case Dispatch(all) =>
      var n := Dispatched(s.queue, all);
      Schedule(s.queue[n..], s.done + s.queue[..n], s.enqueued)
  }

  function Run(s: Schedule, steps: seq<Step>): Schedule
    decreases |steps|
  {
    if steps == [] then s else Run(Next(s, steps[0]), steps[1..])
  }

  /** No entry is before the one in front of it. */
  ghost predicate Ordered(q: seq<Entry>) {
    forall i, j | 0 <= i < j < |q| :: !Before(q[j].ts, q[i].ts)
  }

  /** The entries of one time, in order. */
  function At(q: seq<Entry>, t: Timetag): seq<Entry> {
    if q == [] then [] else (if q[0].ts == t then [q[0]] else []) + At(q[1..], t)
  }

  /**
   * For every time, the messages dispatched and then those queued are the messages enqueued for
   * it, in order of arrival: none is lost, none is dispatched twice, and none overtakes another.
   */
  ghost predicate InOrderOfArrival(s: Schedule) {
    forall t :: At(s.done, t) + At(s.queue, t) == At(s.enqueued, t)
  }

  lemma {:induction false} AtAppend(p: seq<Entry>, q: seq<Entry>, t: Timetag)
    ensures At(p + q, t) == At(p, t) + At(q, t)
  {
    if p == [] {
      assert p + q == q;
    } else {
      assert (p + q)[1..] == p[1..] + q;
      AtAppend(p[1..], q, t);
    }
  }

  lemma {:induction false} AtNone(q: seq<Entry>, t: Timetag)
    requires forall i | 0 <= i < |q| :: q[i].ts != t
    ensures At(q, t) == []
  {
    if q != [] {
      AtNone(q[1..], t);
    }
  }

  /** Where the loop of the source puts a new entry. */
  lemma {:induction false} InsertAt(q: seq<Entry>, e: Entry, k: nat)
    requires k <= |q| && forall i | 0 <= i < k :: Diff(q[i].ts, e.ts) <= 0.0
    requires k < |q| ==> Diff(q[k].ts, e.ts) > 0.0
    ensures Insert(q, e) == q[..k] + [e] + q[k..]
  {
    if k > 0 {
      InsertAt(q[1..], e, k - 1);
    }
  }

  lemma {:induction false} InsertPosition(q: seq<Entry>, e: Entry) returns (k: nat)
    requires Ordered(q)
    ensures k <= |q| && Insert(q, e) == q[..k] + [e] + q[k..]
    ensures forall i | 0 <= i < k :: !Before(e.ts, q[i].ts)
    ensures forall i | k <= i < |q| :: Before(e.ts, q[i].ts)
  {
    k := 0;
    while k < |q| && Diff(q[k].ts, e.ts) <= 0.0
      invariant k <= |q|
      invariant forall i | 0 <= i < k :: Diff(q[i].ts, e.ts) <= 0.0
    {
      k := k + 1;
    }
    InsertAt(q, e, k);
    hide Diff, Before;
    forall i | 0 <= i < k
      ensures !Before(e.ts, q[i].ts)
    {
      DiffSign(q[i].ts, e.ts);
    }
    forall i | k <= i < |q|
      ensures Before(e.ts, q[i].ts)
    {
      DiffSign(q[k].ts, e.ts);
      NotBeforeTransitive(e.ts, q[k].ts, q[i].ts);
    }
  }

  lemma NotBeforeTransitive(a: Timetag, b: Timetag, c: Timetag)
    ensures Before(a, b) && !Before(c, b) ==> Before(a, c)
    ensures !Before(b, a) && !Before(c, b) ==> !Before(c, a)
    ensures Before(a, b) ==> a != b && !Before(b, a)
  {
  }

  lemma InsertOrdered(q: seq<Entry>, e: Entry)
    requires Ordered(q)
    ensures Ordered(Insert(q, e))
  {
    var k := InsertPosition(q, e);
    var r := Insert(q, e);
    hide Before;
    forall i, j | 0 <= i < j < |r|
      ensures !Before(r[j].ts, r[i].ts)
    {
      assert r[i] == if i < k then q[i] else if i == k then e else q[i - 1];
      assert r[j] == if j < k then q[j] else if j == k then e else q[j - 1];
      NotBeforeTransitive(r[i].ts, r[j].ts, r[j].ts);
    }
  }

  /** A new entry comes after those of its own time. */
  lemma InsertLast(q: seq<Entry>, e: Entry, t: Timetag)
    requires Ordered(q)
    ensures At(Insert(q, e), t) == At(q, t) + At([e], t)
  {
    var k := InsertPosition(q, e);
    assert q == q[..k] + q[k..];
    AtAppend(q[..k], q[k..], t);
    AtAppend(q[..k] + [e], q[k..], t);
    AtAppend(q[..k], [e], t);
    if e.ts == t {
      forall i | 0 <= i < |q[k..]|
        ensures q[k..][i].ts != t
      {
        NotBeforeTransitive(e.ts, q[k + i].ts, t);
      }
      AtNone(q[k..], t);
    } else {
      assert At([e], t) == [];
    }
  }

  lemma EnqueueKeeps(s: Schedule, e: Entry)
    requires Ordered(s.queue) && InOrderOfArrival(s)
    ensures Ordered(Next(s, Enqueue(e)).queue) && InOrderOfArrival(Next(s, Enqueue(e)))
  {
    var k := Next(s, Enqueue(e));
    InsertOrdered(s.queue, e);
    forall t
      ensures At(k.done, t) + At(k.queue, t) == At(k.enqueued, t)
    {
      InsertLast(s.queue, e, t);
      AtAppend(s.enqueued, [e], t);
    }
  }

  lemma DropOrdered(q: seq<Entry>, n: nat)
    requires Ordered(q) && n <= |q|
    ensures Ordered(q[n..])
  {
    hide Before;
  }

  lemma DispatchKeeps(s: Schedule, all: bool)
    requires Ordered(s.queue) && InOrderOfArrival(s)
    ensures Ordered(Next(s, Dispatch(all)).queue) && InOrderOfArrival(Next(s, Dispatch(all)))
  {
    var n := Dispatched(s.queue, all);
    DropOrdered(s.queue, n);
    assert s.queue == s.queue[..n] + s.queue[n..];
    forall t
      ensures At(s.done + s.queue[..n], t) + At(s.queue[n..], t) == At(s.enqueued, t)
    {
      AtAppend(s.done, s.queue[..n], t);
      AtAppend(s.queue[..n], s.queue[n..], t);
      hide Ordered, At, Dispatched;
    }
  }

  lemma NextKeeps(s: Schedule, step: Step)
    requires Ordered(s.queue) && InOrderOfArrival(s)
    ensures Ordered(Next(s, step).queue) && InOrderOfArrival(Next(s, step))
  {
    match step
    case Enqueue(e) => EnqueueKeeps(s, e);
    case Dispatch(all) => DispatchKeeps(s, all);
  }

  /** Whatever is queued and dispatched, in whatever interleaving. */
  lemma {:induction false} RunKeeps(s: Schedule, steps: seq<Step>)
    requires Ordered(s.queue) && InOrderOfArrival(s)
    ensures Ordered(Run(s, steps).queue) && InOrderOfArrival(Run(s, steps))
    decreases |steps|
  {
    if steps != [] {
      NextKeeps(s, steps[0]);
      RunKeeps(Next(s, steps[0]), steps[1..]);
    }
  }

  lemma RunsAreOrdered(steps: seq<Step>)
    ensures Ordered(Run(EMPTY, steps).queue) && InOrderOfArrival(Run(EMPTY, steps))
  {
    RunKeeps(EMPTY, steps);
  }

  /** One call dispatches just the entries less than the epsilon after the first, wherever they are. */
  lemma DispatchedExactly(q: seq<Entry>, i: nat)
    requires Ordered(q) && i < |q|
    ensures i < Dispatched(q, false) <==> Diff(q[i].ts, q[0].ts) < FLT_EPSILON
  {
    if i == 0 {
      DiffSign(q[0].ts, q[0].ts);
    } else {
      assert forall j, k | 0 <= j < k < |q[1..]| :: q[1..][j] == q[j + 1] && q[1..][k] == q[k + 1];
      DueExactly(q[1..], q[0].ts, i - 1);
    }
  }

  lemma {:induction false} DueExactly(q: seq<Entry>, t: Timetag, i: nat)
    requires Ordered(q) && i < |q|
    ensures i < Due(q, t, false) <==> Diff(q[i].ts, t) < FLT_EPSILON
  {
    if i == 0 {
    } else if Diff(q[0].ts, t) < FLT_EPSILON {
      DueExactly(q[1..], t, i - 1);
    } else {
      DiffStrictTotalOrder(q[i].ts, q[0].ts, t);
      DiffSign(q[i].ts, q[0].ts);
    }
  }

  lemma {:induction false} DispatchAllEmpties(q: seq<Entry>)
    ensures Dispatched(q, true) == |q|
  {
    if q != [] {
      DueAll(q[1..], q[0].ts);
    }
  }

  lemma {:induction false} DueAll(q: seq<Entry>, t: Timetag)
    ensures Due(q, t, true) == |q|
  {
    if q != [] {
      DueAll(q[1..], t);
    }
  }
}
