/** Releasing a bundle and, with their last references, everything below it. */
module BundleFree {
  import opened Messages
  import opened Graphs
  import opened Bundles
  import opened Refcounts
  import opened Survivors

  /** What an element refers to. */
  datatype Ref = ToMessage(msg: LoMessage) | ToBundle(bundle: Bundle)

  ghost function RefOf(e: Element): Ref {
    match e
    case MessageElement(msg, _) => ToMessage(msg)
    case BundleElement(bundle) => ToBundle(bundle)
  }

  ghost function RefsOf(es: seq<Element>): (r: seq<Ref>)
    ensures |r| == |es|
  {
    seq(|es|, i requires 0 <= i < |es| => RefOf(es[i]))
  }

  /** The objects there were to begin with; their memory is only a state's if it is live in it. */
  datatype Objects = Objects(bundles: set<Bundle>, msgs: set<LoMessage>)

  ghost predicate Known(o: Objects, r: Ref) {
    match r
    case ToMessage(m) => m in o.msgs
    case ToBundle(b) => b in o.bundles
  }

  /** The references in memory are those of `own`. */
  ghost predicate Owns(o: Objects, own: Graph<Ref>)
    reads o.bundles
  {
    && (forall b | b in o.bundles :: ToBundle(b) in own && own[ToBundle(b)] == RefsOf(b.elmnts))
    && (forall m | m in o.msgs :: ToMessage(m) in own && own[ToMessage(m)] == [])
  }

  /** The reference counts in memory are those of the state. */
  ghost predicate Counts(o: Objects, own: Graph<Ref>, s: State<Ref>)
    requires Sound(own, s)
    reads o.bundles, o.msgs
  {
    && (forall r | r in s.live :: Known(o, r))
    && (forall b | b in o.bundles && ToBundle(b) in s.live :: b.refcount == Total(own, s)[ToBundle(b)])
    && (forall m | m in o.msgs && ToMessage(m) in s.live :: m.refcount == Total(own, s)[ToMessage(m)])
  }

  /** The counts once that of `r` has been decremented. */
  ghost predicate CountsBut(o: Objects, own: Graph<Ref>, s: State<Ref>, r: Ref)
    requires Sound(own, s)
    reads o.bundles, o.msgs
  {
    && (forall x | x in s.live :: Known(o, x))
    && (forall b | b in o.bundles && ToBundle(b) in s.live ::
          b.refcount + (if ToBundle(b) == r then 1 else 0) == Total(own, s)[ToBundle(b)])
    && (forall m | m in o.msgs && ToMessage(m) in s.live ::
          m.refcount + (if ToMessage(m) == r then 1 else 0) == Total(own, s)[ToMessage(m)])
  }

  lemma CountsAgain(o: Objects, own: Graph<Ref>, s: State<Ref>, r: Ref, k: State<Ref>)
    requires Sound(own, s) && CountsBut(o, own, s, r) && Sound(own, k)
    requires forall x | x in k.live :: x in s.live &&
               Total(own, k)[x] + (if x == r then 1 else 0) == Total(own, s)[x]
    ensures Counts(o, own, k)
  {
    hide Total, Sound;
  }

  /** What the release of a live object may rely on. */
  lemma DropFacts(o: Objects, own: Graph<Ref>, s: State<Ref>, r: Ref)
    requires MayDrop(own, s, r) && Counts(o, own, s)
    ensures r in s.live && r in own && Known(o, r)
  {
    hide Total;
  }

  /** lo_message_decref. */
  method LoMessageDecref(m: LoMessage, ghost o: Objects, ghost own: Graph<Ref>, ghost s: State<Ref>)
    requires Sound(own, s) && Owns(o, own) && Counts(o, own, s) && ToMessage(m) in s.live
    modifies m`refcount
    ensures m.refcount + 1 == Total(own, s)[ToMessage(m)]
    ensures CountsBut(o, own, s, ToMessage(m)) && Owns(o, own)
  {
    hide Total, Sound;
    m.refcount := m.refcount - 1;
  }

  /** lo_bundle_decref. */
  method LoBundleDecref(b: Bundle, ghost o: Objects, ghost own: Graph<Ref>, ghost s: State<Ref>)
    requires Sound(own, s) && Owns(o, own) && Counts(o, own, s) && ToBundle(b) in s.live
    modifies b`refcount
    ensures b.refcount + 1 == Total(own, s)[ToBundle(b)]
    ensures CountsBut(o, own, s, ToBundle(b)) && Owns(o, own)
  {
    hide Total, Sound;
    b.refcount := b.refcount - 1;
  }

  lemma NoneBelow(o: Objects, own: Graph<Ref>, m: LoMessage)
    requires Owns(o, own) && m in o.msgs
    ensures ToMessage(m) in own && own[ToMessage(m)] == []
  {
  }

  /** lo_message_free: drops one reference, and frees the message with the last. */
  method LoMessageFree(m: LoMessage, ghost o: Objects, ghost own: Graph<Ref>, ghost s: State<Ref>)
    returns (ghost k: State<Ref>)
    requires MayDrop(own, s, ToMessage(m)) && Owns(o, own) && Counts(o, own, s)
    modifies m`refcount
    ensures k == Drop(own, s, ToMessage(m)) && Owns(o, own) && Counts(o, own, k)
  {
    hide Drop, Total, Sound, Owns, Counts, CountsBut;
    ghost var r := ToMessage(m);
    DropFacts(o, own, s, r);
    NoneBelow(o, own, m);
    LoMessageDecref(m, o, own, s);
    DropLeaf(own, s, r);
    k := Drop(own, s, r);
    CountsAgain(o, own, s, r, k);
    if m.refcount <= 0 {
      // free
      assert r in k.freed;
    }
  }

  method CollectElement(e: Element, ghost o: Objects, ghost own: Graph<Ref>, ghost s: State<Ref>)
    returns (ghost k: State<Ref>)
    requires MayDrop(own, s, RefOf(e)) && Owns(o, own) && Counts(o, own, s)
    modifies o.bundles`refcount, o.msgs`refcount
    ensures k == Drop(own, s, RefOf(e)) && Owns(o, own) && Counts(o, own, k)
    decreases |s.live|, 1
  {
    hide Drop, Total, Sound, Owns;
    match e {
      case MessageElement(msg, _) => k := LoMessageFree(msg, o, own, s);
      case BundleElement(bundle) => k := LoBundleFreeRecursive(bundle, o, own, s);
    }
  }

  /** lo_bundle_free_recursive: with the last reference, drops those of the elements, then frees. */
  method LoBundleFreeRecursive(b: Bundle, ghost o: Objects, ghost own: Graph<Ref>, ghost s: State<Ref>)
    returns (ghost k: State<Ref>)
    requires MayDrop(own, s, ToBundle(b)) && Owns(o, own) && Counts(o, own, s)
    modifies o.bundles`refcount, o.msgs`refcount
    ensures k == Drop(own, s, ToBundle(b)) && Owns(o, own) && Counts(o, own, k)
    decreases |s.live|, 0
  {
    hide Drop, DropAll, Begin, Total, Sound, Owns, Counts, CountsBut;
    ghost var r := ToBundle(b);
    DropFacts(o, own, s, r);
    LoBundleDecref(b, o, own, s);
    if b.refcount > 0 {
      DropKeeps(own, s, r);
      k := Drop(own, s, r);
      CountsAgain(o, own, s, r, k);
      return;
    }
    DropFrees(own, s, r);
    k := Begin(own, s, r);
    CountsAgain(o, own, s, r, k);
    k := CollectAll(b, o, own, k);
    // the bundle itself is freed last
    ghost var m := k;
    k := k.(freed := k.freed + {r});
    FreedIsNotCounted(o, own, m, k);
  }

  lemma FreedIsNotCounted(o: Objects, own: Graph<Ref>, m: State<Ref>, k: State<Ref>)
    requires Sound(own, m) && Counts(o, own, m)
    requires Sound(own, k) && k.live == m.live && k.pending == m.pending
    ensures Counts(o, own, k)
  {
    assert Total(own, k) == Total(own, m);
    hide Total, Sound;
  }

  /** The elements of a bundle that is being freed, which no element can free a second time. */
  method CollectAll(b: Bundle, ghost o: Objects, ghost own: Graph<Ref>, ghost s: State<Ref>)
    returns (ghost k: State<Ref>)
    requires b in o.bundles && Owns(o, own) && Sound(own, s) && Counts(o, own, s)
    requires ToBundle(b) in own && multiset(own[ToBundle(b)]) <= s.pending
    requires ToBundle(b) !in s.live && ToBundle(b) !in s.freed
    modifies o.bundles`refcount, o.msgs`refcount
    ensures k == DropAll(own, s, own[ToBundle(b)]) && Sound(own, k)
    ensures Owns(o, own) && Counts(o, own, k)
    decreases |s.live|, 2
  {
    hide *;
    ghost var r, rs := ToBundle(b), own[ToBundle(b)];
    var es := b.elmnts;
    ElementRefs(b, o, own);
    CollectingStarts(own, s, rs, r);
    k := s;
    var i := 0;
    while i < |es|
      invariant i <= |es| && Sound(own, k) && |k.live| <= |s.live|
      invariant Owns(o, own) && Counts(o, own, k)
      invariant Collecting(own, s, rs, k, i, r)
    {
      CollectingNext(own, s, rs, k, i, r);
      ghost var m := Drop(own, k, rs[i]);
      k := CollectElement(es[i], o, own, k);
      assert k == m;
      i := i + 1;
    }
    CollectingEnds(own, s, rs, k, r);
  }

  lemma ElementRefs(b: Bundle, o: Objects, own: Graph<Ref>)
    requires Owns(o, own) && b in o.bundles && ToBundle(b) in own
    ensures |own[ToBundle(b)]| == |b.elmnts|
    ensures forall i | 0 <= i < |b.elmnts| :: own[ToBundle(b)][i] == RefOf(b.elmnts[i])
  {
  }

  /** A cycle of references is a cycle of bundles: messages refer to nothing. */
  lemma CycleOfBundles(o: Objects, own: Graph<Ref>, g: Graph<Bundle>, p: seq<Ref>)
    returns (q: seq<Bundle>)
    requires Owns(o, own) && Snapshot(g) && g.Keys == o.bundles && Cycle(own, p)
    requires forall r | r in own :: Known(o, r)
    ensures Cycle(g, q)
  {
    forall i | 0 <= i < |p|
      ensures p[i].ToBundle? && p[i].bundle in g
    {
      var k := if i == |p| - 1 then 0 else i;
      assert p[k + 1] in own[p[k]] && Known(o, p[k]);
    }
    q := seq(|p|, i requires 0 <= i < |p| => p[i].bundle);
    forall i | 0 <= i < |q| - 1
      ensures q[i + 1] in g[q[i]]
    {
      var es := q[i].elmnts;
      assert p[i + 1] in own[p[i]];
      var k :| 0 <= k < |es| && RefsOf(es)[k] == ToBundle(q[i + 1]);
      assert es[k] == BundleElement(q[i + 1]);
      SubBundlesMembers(es, q[i + 1]);
    }
  }

  lemma OwnershipAcyclic(o: Objects, own: Graph<Ref>, g: Graph<Bundle>)
    requires Owns(o, own) && Snapshot(g) && g.Keys == o.bundles && Acyclic(g)
    requires forall r | r in own :: Known(o, r)
    ensures Acyclic(own)
  {
    if p: seq<Ref> :| Cycle(own, p) {
      hide Cycle;
      var q := CycleOfBundles(o, own, g, p);
    }
  }

  /** Everything below `b` is in use, and `b` is the one bundle that no other contains. */
  ghost predicate OnlyRoot(own: Graph<Ref>, s: State<Ref>, b: Bundle) {
    && Sound(own, s) && s.pending == multiset{} && s.freed == {}
    && ToBundle(b) in s.live && Total(own, s)[ToBundle(b)] == 0
    && forall r | r in s.live && r != ToBundle(b) :: Total(own, s)[r] > 0
  }

  /** Of the objects in use those are left that another object without references still holds. */
  ghost predicate OnlyHeldLeft(own: Graph<Ref>, s: State<Ref>, b: Bundle, k: State<Ref>)
    requires Sound(own, s)
  {
    forall r | r in s.live ::
      (r in k.live <==> HeldElsewhere(own, s, ToBundle(b), r)) && (r in k.freed <==> r !in k.live)
  }

  /**
   * lo_bundle_free_messages on a bundle that no other contains: what is left are the objects that
   * another bundle or message in use still holds, with their counts.  With no such, nothing is left.
   */
  method LoBundleFreeMessages(b: Bundle, ghost o: Objects, ghost own: Graph<Ref>, ghost s: State<Ref>,
                              ghost g: Graph<Bundle>)
    returns (ghost k: State<Ref>)
    requires MayDrop(own, s, ToBundle(b)) && s.pending == multiset{} && Owns(o, own) && Counts(o, own, s)
    requires forall r | r in own :: Known(o, r)
    requires Snapshot(g) && g.Keys == o.bundles && Acyclic(g)
    modifies o.bundles`refcount, o.msgs`refcount
    ensures Owns(o, own) && Sound(own, k) && Counts(o, own, k) && OnlyHeldLeft(own, s, b, k)
    ensures OnlyRoot(own, s, b) ==> k.live == [] && k.freed == set r | r in s.live
  {
    hide *;
    OwnershipAcyclic(o, own, g);
    WhatIsLeft(own, s, b);
    k := LoBundleFreeRecursive(b, o, own, s);
  }

  lemma WhatIsLeft(own: Graph<Ref>, s: State<Ref>, b: Bundle)
    requires MayDrop(own, s, ToBundle(b)) && s.pending == multiset{} && Acyclic(own)
    ensures var k := Drop(own, s, ToBundle(b));
            Sound(own, k) && OnlyHeldLeft(own, s, b, k) &&
            (OnlyRoot(own, s, b) ==> k.live == [] && k.freed == set r | r in s.live)
  {
    hide Total, Acyclic, Drop, HeldElsewhere;
    forall r | r in s.live
      ensures r in Drop(own, s, ToBundle(b)).live <==> HeldElsewhere(own, s, ToBundle(b), r)
    {
      SurvivorsExactly(own, s, ToBundle(b), r);
    }
    if OnlyRoot(own, s, b) {
      EverythingFreed(own, s, ToBundle(b));
    }
  }
}
