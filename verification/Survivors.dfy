/** Which objects a release leaves: those that something else still holds, directly or not. */
module Survivors {
  import opened Graphs
  import opened Refcounts

  /** Nothing refers to it: whoever made it still uses it. */
  ghost predicate Unowned<T>(own: Graph<T>, s: State<T>, x: T)
    requires forall y | y in s.live :: y in own
  {
    x in s.live && Total(own, s)[x] == 0
  }

  ghost predicate Leads<T>(own: Graph<T>, older p: seq<T>, y: T) {
    Path(own, p) && p[|p| - 1] == y
  }

  /** `y` is, or is owned by way of, an object other than `x` that nothing refers to. */
  ghost predicate HeldElsewhere<T>(own: Graph<T>, s: State<T>, x: T, y: T)
    requires forall y | y in s.live :: y in own
  {
    exists p :: Leads(own, p, y) && Unowned(own, s, p[0]) && p[0] != x
  }

  /** Dropping a reference to `x` does not touch another object without references. */
  lemma {:induction false} DropSpares<T>(own: Graph<T>, s: State<T>, x: T, y: T)
    requires MayDrop(own, s, x) && Unowned(own, s, y) && y != x
    ensures Unowned(own, Drop(own, s, x), y)
    decreases |s.live|, 0, 0
  {
    hide Held, Distinct, Begin;
    if Total(own, s)[x] > 1 {
      KeepSound(own, s, x);
    } else {
      var b := Begin(own, s, x);
      BeginSound(own, s, x);
      BeginBegan(own, s, x);
      DropLast(own, s, x);
      DropAllSpares(own, b, own[x], y);
      var m := DropAll(own, b, own[x]);
      assert Total(own, m.(freed := m.freed + {x})) == Total(own, m);
    }
  }

  lemma {:induction false} DropAllSpares<T>(own: Graph<T>, s: State<T>, xs: seq<T>, y: T)
    requires Sound(own, s) && multiset(xs) <= s.pending && Unowned(own, s, y)
    ensures Unowned(own, DropAll(own, s, xs), y)
    decreases |s.live|, 1, |xs|
  {
    hide Held, Distinct, Drop;
    if xs != [] {
      NextPending(own, s, xs);
      assert s.pending[xs[0]] > 0;
      DropSpares(own, s, xs[0], y);
      DropAllSpares(own, Drop(own, s, xs[0]), xs[1..], y);
    }
  }

  /** What a live object owns is live. */
  lemma OwnedIsLive<T>(own: Graph<T>, k: State<T>, z: T, y: T)
    requires Sound(own, k) && z in k.live && y in own[z]
    ensures y in k.live
  {
    HeldWithout(own, k.live, z);
    assert y in Total(own, k);
  }

  lemma {:induction false} PathIsLive<T>(own: Graph<T>, k: State<T>, p: seq<T>)
    requires Sound(own, k) && Path(own, p) && p[0] in k.live
    ensures p[|p| - 1] in k.live
    decreases |p|
  {
    if |p| > 1 {
      assert p[0 + 1] in own[p[0]];
      OwnedIsLive(own, k, p[0], p[1]);
      PathTail(own, p);
      PathIsLive(own, k, p[1..]);
    }
  }

  /** Every live object hangs from a live one that nothing refers to. */
  lemma HangsFromUnowned<T>(own: Graph<T>, k: State<T>, y: T)
    requires Acyclic(own) && Sound(own, k) && k.pending == multiset{} && y in k.live
    ensures Hangs(own, k, y)
  {
    var loose := set x | x in k.live && !Hangs(own, k, x);
    forall x | x in loose
      ensures HasPredecessor(own, loose, x)
    {
      hide Acyclic, Held;
      assert Leads(own, [x], x);
      var z := LiveOwner(own, k, x);
      HangsToo(own, k, z, x);
      assert z in loose;
      Owned(own, loose, x, z);
    }
    SourcelessIs(own, loose);
    hide *;
    SourcelessIsEmpty(own, loose);
    assert y !in loose;
  }

  ghost predicate Hangs<T>(own: Graph<T>, k: State<T>, y: T)
    requires forall y | y in k.live :: y in own
  {
    exists p :: Leads(own, p, y) && Unowned(own, k, p[0])
  }

  lemma HangsToo<T>(own: Graph<T>, k: State<T>, z: T, y: T)
    requires Sound(own, k) && z in k.live && y in k.live && y in own[z]
    ensures Hangs(own, k, z) ==> Hangs(own, k, y)
  {
    hide Held, Total, Distinct;
    if p :| Leads(own, p, z) && Unowned(own, k, p[0]) {
      assert Leads(own, p + [y], y);
    }
  }

  /**
   * Releasing an object that nothing refers to, in an acyclic graph: exactly those objects are left
   * that another such object still holds.
   */
  lemma SurvivorsExactly<T>(own: Graph<T>, s: State<T>, x: T, y: T)
    requires MayDrop(own, s, x) && Acyclic(own) && s.pending == multiset{} && y in s.live
    ensures y in Drop(own, s, x).live <==> HeldElsewhere(own, s, x, y)
  {
    hide Acyclic, Drop, Held, Distinct;
    var k := Drop(own, s, x);
    if y in k.live {
      HangsFromUnowned(own, k, y);
      var p :| Leads(own, p, y) && Unowned(own, k, p[0]);
      assert Unowned(own, s, p[0]) && p[0] != x;
    }
    if p :| Leads(own, p, y) && Unowned(own, s, p[0]) && p[0] != x {
      DropSpares(own, s, x, p[0]);
      PathIsLive(own, k, p);
    }
  }
}
