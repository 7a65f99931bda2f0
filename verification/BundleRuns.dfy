/** Bundles as they are built: runs of additions in memory, and what they keep. */
module BundleRuns {
  import opened Bytes
  import opened Messages
  import opened Graphs
  import opened Bundles
  import opened Refcounts
  import opened BundleFree

  datatype Addition =
    | AddMessage(b: Bundle, path: CString, msg: LoMessage)
    | AddBundle(b: Bundle, n: Bundle)

  /** The additions that are attempts to add an edge. */
  function Edges(adds: seq<Addition>): seq<(Bundle, Bundle)> {
    if adds == [] then []
    else (if adds[0].AddBundle? then [(adds[0].b, adds[0].n)] else []) + Edges(adds[1..])
  }

  /** All objects, none of them released. */
  ghost predicate InUse(o: Objects, s: State<Ref>) {
    && s.pending == multiset{} && s.freed == {}
    && (forall r | r in s.live :: Known(o, r))
    && (forall b | b in o.bundles :: ToBundle(b) in s.live)
    && (forall m | m in o.msgs :: ToMessage(m) in s.live)
  }

  ghost predicate Applies(o: Objects, add: Addition) {
    add.b in o.bundles && (if add.AddBundle? then add.n in o.bundles else add.msg in o.msgs)
  }

  /** Memory as it should be: the graph free of cycles, and every count the number of references. */
  ghost predicate Consistent(o: Objects, own: Graph<Ref>, s: State<Ref>, g: Graph<Bundle>)
    reads o.bundles, o.msgs
  {
    && g.Keys == o.bundles && Snapshot(g) && Closed(g) && Acyclic(g)
    && (forall r | r in own :: Known(o, r))
    && InUse(o, s) && Owns(o, own) && Sound(own, s) && Counts(o, own, s)
  }

  /** One more reference adds one to the number of references to its target. */
  lemma {:induction false} HeldWithEdge(own: Graph<Ref>, xs: seq<Ref>, b: Ref, x: Ref)
    requires b in own && Distinct(xs) && forall y | y in xs :: y in own
    ensures Held(WithEdge(own, b, x), xs) == Held(own, xs) + if b in xs then multiset{x} else multiset{}
  {
    if xs != [] {
      assert forall i, j | 0 <= i < j < |xs[1..]| :: xs[1..][i] == xs[i + 1] && xs[1..][j] == xs[j + 1];
      HeldWithEdge(own, xs[1..], b, x);
      assert xs == [xs[0]] + xs[1..];
      if xs[0] == b {
        assert b !in xs[1..];
      }
    }
  }

  lemma OneMoreReference(own: Graph<Ref>, s: State<Ref>, b: Ref, x: Ref)
    requires Sound(own, s) && b in s.live && x in s.live
    ensures Sound(WithEdge(own, b, x), s)
    ensures forall y :: Total(WithEdge(own, b, x), s)[y] == Total(own, s)[y] + if y == x then 1 else 0
  {
    HeldWithEdge(own, s.live, b, x);
    hide Held, WithEdge;
  }

  lemma OwnsOneMore(o: Objects, own: Graph<Ref>, b: Bundle, es: seq<Element>, e: Element)
    requires b in o.bundles && ToBundle(b) in own && own[ToBundle(b)] == RefsOf(es) && b.elmnts == es + [e]
    requires forall x | x in o.bundles && x != b :: ToBundle(x) in own && own[ToBundle(x)] == RefsOf(x.elmnts)
    requires forall m | m in o.msgs :: ToMessage(m) in own && own[ToMessage(m)] == []
    ensures Owns(o, WithEdge(own, ToBundle(b), RefOf(e)))
    ensures WithEdge(own, ToBundle(b), RefOf(e)).Keys == own.Keys
  {
    assert RefsOf(es + [e]) == RefsOf(es) + [RefOf(e)];
  }

  /** A message is always added. */
  method ApplyMessage(b: Bundle, path: CString, msg: LoMessage, ghost o: Objects, ghost own: Graph<Ref>,
                        ghost s: State<Ref>, ghost g: Graph<Bundle>)
    requires Consistent(o, own, s, g) && b in o.bundles && msg in o.msgs
    modifies b`elmnts, msg`refcount
    ensures Consistent(o, WithEdge(own, ToBundle(b), ToMessage(msg)), s, g)
  {
    hide Acyclic, Closed, WithEdge, RefsOf, Total, Sound, SubBundles;
    ghost var es := b.elmnts;
    OneMoreReference(own, s, ToBundle(b), ToMessage(msg));
    LoBundleAddMessage(b, path, msg, g);
    OwnsOneMore(o, own, b, es, MessageElement(msg, path));
  }

  /** A bundle is refused exactly if the walk from it would meet a cycle. */
  method ApplyBundle(b: Bundle, n: Bundle, ghost o: Objects, ghost own: Graph<Ref>,
                       ghost s: State<Ref>, ghost g: Graph<Bundle>) returns (ret: int)
    requires Consistent(o, own, s, g) && b in o.bundles && n in o.bundles
    modifies b`elmnts, n`refcount
    ensures ret != 0 <==> ReachesCycle(WithEdge(g, b, n), b)
    ensures Consistent(o, if ret != 0 then own else WithEdge(own, ToBundle(b), ToBundle(n)), s, TryAdd(g, b, n))
  {
    hide Acyclic, ReachesCycle, Closed, WithEdge, RefsOf, Total, Sound, SubBundles;
    ghost var es := b.elmnts;
    OneMoreReference(own, s, ToBundle(b), ToBundle(n));
    EdgeCycle(g, b, n);
    WithEdgeClosed(g, b, n);
    ret := LoBundleAddBundle(b, n, g);
    if ret == 0 {
      OwnsOneMore(o, own, b, es, BundleElement(n));
    }
  }

  lemma AppliesIn(o: Objects, own: Graph<Ref>, s: State<Ref>, g: Graph<Bundle>, add: Addition)
    requires Consistent(o, own, s, g) && Applies(o, add)
    ensures add.b in g && (add.AddBundle? ==> add.n in g) && ToBundle(add.b) in own
  {
    hide Snapshot, Closed, Acyclic, Counts, Sound;
  }

  /** One addition keeps memory consistent. */
  method Apply(add: Addition, ghost o: Objects, ghost own: Graph<Ref>, ghost s: State<Ref>, ghost g: Graph<Bundle>)
    returns (ret: int, ghost own': Graph<Ref>, ghost g': Graph<Bundle>)
    requires Consistent(o, own, s, g) && Applies(o, add)
    modifies o.bundles`elmnts, o.bundles`refcount, o.msgs`refcount
    ensures Consistent(o, own', s, g')
    ensures g' == if add.AddBundle? then TryAdd(g, add.b, add.n) else g
    ensures ret != 0 <==> add.AddBundle? && ReachesCycle(WithEdge(g, add.b, add.n), add.b)
  {
    hide Snapshot, Closed, Acyclic, Owns, Counts, Sound, ReachesCycle, WithEdge, InUse;
    AppliesIn(o, own, s, g, add);
    match add {
      case AddMessage(b, path, msg) =>
        ApplyMessage(b, path, msg, o, own, s, g);
        ret, own', g' := 0, WithEdge(own, ToBundle(b), ToMessage(msg)), g;
      case AddBundle(b, n) =>
        ret := ApplyBundle(b, n, o, own, s, g);
        own' := if ret != 0 then own else WithEdge(own, ToBundle(b), ToBundle(n));
        g' := TryAdd(g, b, n);
    }
  }

  /**
   * Any run of additions: the graph stays free of cycles, with the refused bundles left out, and
   * every count stays the number of references, as releasing requires.
   */
  method ApplyAll(adds: seq<Addition>, ghost o: Objects, ghost own: Graph<Ref>, ghost s: State<Ref>,
                    ghost g: Graph<Bundle>)
    returns (ghost own': Graph<Ref>, ghost g': Graph<Bundle>)
    requires Consistent(o, own, s, g) && forall i | 0 <= i < |adds| :: Applies(o, adds[i])
    modifies o.bundles`elmnts, o.bundles`refcount, o.msgs`refcount
    ensures Consistent(o, own', s, g') && g' == TryAll(g, Edges(adds))
  {
    hide Consistent, TryAdd, Applies;
    own', g' := own, g;
    var i := 0;
    assert adds[0..] == adds;
    while i < |adds|
      invariant i <= |adds| && Consistent(o, own', s, g')
      invariant TryAll(g, Edges(adds)) == TryAll(g', Edges(adds[i..]))
    {
      assert adds[i..][1..] == adds[i + 1..] && adds[i..][0] == adds[i];
      AppliesIn(o, own', s, g', adds[i]);
      EdgesStep(g', adds[i..]);
      var ret;
      ret, own', g' := Apply(adds[i], o, own', s, g');
      i := i + 1;
    }
  }

  lemma EdgesStep(g: Graph<Bundle>, adds: seq<Addition>)
    requires adds != [] && adds[0].b in g && (adds[0].AddBundle? ==> adds[0].n in g)
    ensures TryAll(g, Edges(adds)) ==
            TryAll(if adds[0].AddBundle? then TryAdd(g, adds[0].b, adds[0].n) else g, Edges(adds[1..]))
  {
    hide TryAdd;
    if adds[0].AddBundle? {
      assert Edges(adds)[1..] == Edges(adds[1..]);
    } else {
      assert Edges(adds) == Edges(adds[1..]);
    }
  }

  /** A bundle made by such a run may be released once no bundle holds it. */
  lemma MayRelease(o: Objects, own: Graph<Ref>, s: State<Ref>, g: Graph<Bundle>, b: Bundle)
    requires Consistent(o, own, s, g) && b in o.bundles
    ensures MayDrop(own, s, ToBundle(b)) <==> b.refcount == 0
    ensures s.pending == multiset{}
  {
    hide Total, Acyclic, Closed, Snapshot, Owns;
  }

  lemma {:induction false} Listed<T>(xs: set<T>) returns (l: seq<T>)
    ensures Distinct(l) && forall x :: x in l <==> x in xs
  {
    l := [];
    if x :| x in xs {
      l := Listed(xs - {x});
      l := l + [x];
    }
  }

  /** New bundles and messages are consistent. */
  lemma NewIsConsistent(o: Objects) returns (own: Graph<Ref>, s: State<Ref>, g: Graph<Bundle>)
    requires forall b | b in o.bundles :: b.elmnts == [] && b.refcount == 0
    requires forall m | m in o.msgs :: m.refcount == 0
    ensures Consistent(o, own, s, g)
  {
    hide Acyclic, Sound, Total;
    var refs := (set b | b in o.bundles :: ToBundle(b)) + (set m | m in o.msgs :: ToMessage(m));
    own := map r | r in refs :: [];
    g := map b | b in o.bundles :: [];
    var live := Listed(refs);
    s := State(live, multiset{}, {});
    NoReferences(own, s);
    NoEdgesAcyclic(g);
  }

  lemma NoReferences(own: Graph<Ref>, s: State<Ref>)
    requires Distinct(s.live) && s.pending == multiset{} && s.freed == {}
    requires forall x | x in s.live :: x in own && own[x] == []
    ensures Sound(own, s) && Total(own, s) == multiset{}
  {
    NothingHeld(own, s.live);
  }

  lemma NoEdgesAcyclic<T>(g: Graph<T>)
    requires forall x | x in g :: g[x] == []
    ensures Acyclic(g)
  {
    forall p | Path(g, p)
      ensures |p| == 1
    {
      if |p| > 1 {
        PathTail(g, p);
      }
    }
  }

  lemma {:induction false} NothingHeld(own: Graph<Ref>, xs: seq<Ref>)
    requires forall x | x in xs :: x in own && own[x] == []
    ensures Held(own, xs) == multiset{}
  {
    if xs != [] {
      NothingHeld(own, xs[1..]);
    }
  }
}
