/** Bundles of messages and bundles, held by reference, and the check that keeps them free of cycles. */
module Bundles {
  import opened Bytes
  import opened Timetags
  import opened Messages
  import opened Graphs

  datatype Element =
    | MessageElement(msg: LoMessage, path: CString)
    | BundleElement(bundle: Bundle)

  class Bundle {
    var ts: Timetag
    var elmnts: seq<Element>
    var refcount: int

    constructor New(tt: Timetag)
      ensures ts == tt && elmnts == [] && refcount == 0
    {
      ts, elmnts, refcount := tt, [], 0;
    }
  }

  /** The bundles among some elements, in order. */
  function SubBundles(es: seq<Element>): (r: seq<Bundle>) {
    if es == [] then []
    else (if es[0].BundleElement? then [es[0].bundle] else []) + SubBundles(es[1..])
  }

  lemma {:induction false} SubBundlesAppend(es: seq<Element>, e: Element)
    ensures SubBundles(es + [e]) == SubBundles(es) + if e.BundleElement? then [e.bundle] else []
  {
    if es != [] {
      assert (es + [e])[1..] == es[1..] + [e];
      SubBundlesAppend(es[1..], e);
    }
  }

  lemma {:induction false} SubBundlesMembers(es: seq<Element>, b: Bundle)
    ensures b in SubBundles(es) <==> BundleElement(b) in es
  {
    if es != [] {
      SubBundlesMembers(es[1..], b);
      assert es == [es[0]] + es[1..];
    }
  }

  /** `g` is the graph that the references between its bundles form. */
  ghost predicate Snapshot(g: Graph<Bundle>)
    reads g.Keys
  {
    forall b | b in g :: g[b] == SubBundles(b.elmnts)
  }

  /** What the walk has established once it has visited the elements `es`. */
  ghost predicate AllUnfold(g: Graph<Bundle>, es: seq<Element>, avail: set<Bundle>) {
    forall x | x in SubBundles(es) :: Unfolds(g, x, avail)
  }

  lemma AllUnfoldNext(g: Graph<Bundle>, es: seq<Element>, i: nat, avail: set<Bundle>)
    requires i < |es| && AllUnfold(g, es[..i], avail)
    ensures AllUnfold(g, es[..i + 1], avail) <==>
            (es[i].BundleElement? ==> Unfolds(g, es[i].bundle, avail))
    ensures es[i].BundleElement? ==> es[i].bundle in SubBundles(es)
  {
    hide Unfolds;
    SubBundlesAppend(es[..i], es[i]);
    assert es[..i + 1] == es[..i] + [es[i]];
    if es[i].BundleElement? {
      SubBundlesMembers(es, es[i].bundle);
      assert es[i].bundle in SubBundles(es[..i + 1]);
    }
  }

  lemma NotAllUnfold(g: Graph<Bundle>, es: seq<Element>, i: nat, avail: set<Bundle>)
    requires i <= |es| && !AllUnfold(g, es[..i], avail)
    ensures !AllUnfold(g, es, avail)
  {
    hide Unfolds;
    var x :| x in SubBundles(es[..i]) && !Unfolds(g, x, avail);
    SubBundlesMembers(es[..i], x);
    SubBundlesMembers(es, x);
  }

  lemma NoneUnfold(g: Graph<Bundle>, avail: set<Bundle>)
    ensures AllUnfold(g, [], avail)
  {
  }

  lemma AllUnfoldIff(g: Graph<Bundle>, b: Bundle, avail: set<Bundle>)
    requires b in g && b in avail && g[b] == SubBundles(b.elmnts)
    ensures Unfolds(g, b, avail) <==> AllUnfold(g, b.elmnts, avail - {b})
  {
    if Unfolds(g, b, avail) {
      assert forall x | x in g[b] :: Unfolds(g, x, avail - {b});
    } else {
      var i :| 0 <= i < |g[b]| && !Unfolds(g, g[b][i], avail - {b});
      assert g[b][i] in SubBundles(b.elmnts);
    }
  }

  lemma ChildIn(g: Graph<Bundle>, b: Bundle, x: Bundle)
    requires Closed(g) && b in g && x in g[b]
    ensures x in g
  {
    var i :| 0 <= i < |g[b]| && g[b][i] == x;
  }

  method IsInList(list: seq<Bundle>, ptr: Bundle) returns (r: int)
    ensures r != 0 <==> ptr in list
  {
    var i := 0;
    while i < |list|
      invariant i <= |list| && ptr !in list[..i]
    {
      if list[i] == ptr {
        return -1;
      }
      i := i + 1;
    }
    assert list[..i] == list;
    return 0;
  }

  ghost function Stacked(B: seq<Bundle>): set<Bundle> { set x | x in B }

  lemma StackedPush(B: seq<Bundle>, b: Bundle, all: set<Bundle>)
    requires b in all && b !in B
    ensures all - Stacked(B + [b]) == all - Stacked(B) - {b}
    ensures b in all - Stacked(B)
  {
  }

  lemma StackedFails(g: Graph<Bundle>, B: seq<Bundle>, b: Bundle)
    requires b in B
    ensures !Unfolds(g, b, g.Keys - Stacked(B))
  {
  }

  lemma WalkFacts(g: Graph<Bundle>, B: seq<Bundle>, b: Bundle)
    requires Snapshot(g) && b in g && b !in B
    ensures var avail := g.Keys - Stacked(B);
            g.Keys - Stacked(B + [b]) == avail - {b} && b in avail && g[b] == SubBundles(b.elmnts) &&
            AllUnfold(g, [], avail - {b}) &&
            (Unfolds(g, b, avail) <==> AllUnfold(g, b.elmnts, avail - {b}))
  {
    StackedPush(B, b, g.Keys);
    AllUnfoldIff(g, b, g.Keys - Stacked(B));
    NoneUnfold(g, g.Keys - Stacked(B) - {b});
    hide Unfolds, AllUnfold, Stacked;
  }

  /** Depth-first walk with the bundles from the root to `b` on the stack `B`. */
  method WalkTree(B: seq<Bundle>, b: Bundle, ghost g: Graph<Bundle>)
    returns (B': seq<Bundle>, ret: int)
    requires Snapshot(g) && Closed(g) && b in g
    ensures B' == B
    ensures ret == 0 <==> Unfolds(g, b, g.Keys - Stacked(B))
    decreases g.Keys - Stacked(B)
  {
    hide *;
    ghost var avail := g.Keys - Stacked(B);
    var found := IsInList(B, b);
    if found != 0 {
      StackedFails(g, B, b);
      return B, -1;
    }
    WalkFacts(g, B, b);
    B' := B + [b];
    ret := 0;
    var i := 0;
    assert b.elmnts[..0] == [];
    while i < |b.elmnts|
      invariant i <= |b.elmnts| && B' == B + [b] && ret == 0
      invariant AllUnfold(g, b.elmnts[..i], avail - {b})
    {
      AllUnfoldNext(g, b.elmnts, i, avail - {b});
      if b.elmnts[i].BundleElement? {
        ChildIn(g, b, b.elmnts[i].bundle);
        B', ret := WalkTree(B', b.elmnts[i].bundle, g);
        if ret != 0 {
          NotAllUnfold(g, b.elmnts, i + 1, avail - {b});
          break;
        }
      }
      i := i + 1;
    }
    assert ret == 0 ==> b.elmnts[..i] == b.elmnts;
    B' := B'[..|B'| - 1];
  }

  /** Non-zero exactly when following references from `b` can come back to a bundle it has left. */
  method LoBundleCircular(b: Bundle, ghost g: Graph<Bundle>) returns (ret: int)
    requires Snapshot(g) && Closed(g) && b in g
    ensures ret != 0 <==> ReachesCycle(g, b)
  {
    var B;
    B, ret := WalkTree([], b, g);
    assert g.Keys - Stacked([]) == g.Keys;
    UnfoldsIff(g, b);
  }

  /** Appending a bundle to a bundle adds an edge to the graph; appending a message changes nothing. */
  lemma SnapshotAfterAdd(g: Graph<Bundle>, b: Bundle, es: seq<Element>, e: Element)
    requires b in g && g[b] == SubBundles(es) && b.elmnts == es + [e]
    requires forall x | x in g && x != b :: g[x] == SubBundles(x.elmnts)
    ensures Snapshot(if e.BundleElement? then WithEdge(g, b, e.bundle) else g)
  {
    SubBundlesAppend(es, e);
    if e.MessageElement? {
      assert SubBundles(b.elmnts) == SubBundles(es);
    }
  }

  lemma WithEdgeClosed<T>(g: Graph<T>, b: T, n: T)
    requires Closed(g) && b in g && n in g
    ensures Closed(WithEdge(g, b, n)) && WithEdge(g, b, n).Keys == g.Keys
  {
  }

  /** A message is always added, and holds one more reference. */
  method LoBundleAddMessage(b: Bundle, path: CString, msg: LoMessage, ghost g: Graph<Bundle>)
    requires Snapshot(g) && b in g
    modifies b`elmnts, msg`refcount
    ensures b.elmnts == old(b.elmnts) + [MessageElement(msg, path)]
    ensures msg.refcount == old(msg.refcount) + 1
    ensures Snapshot(g)
  {
    ghost var es := b.elmnts;
    b.elmnts := b.elmnts + [MessageElement(msg, path)];
    msg.refcount := msg.refcount + 1;
    SnapshotAfterAdd(g, b, es, MessageElement(msg, path));
  }

  /** A bundle is added, with one more reference, unless that would close a cycle. */
  method LoBundleAddBundle(b: Bundle, n: Bundle, ghost g: Graph<Bundle>) returns (ret: int)
    requires Snapshot(g) && Closed(g) && Acyclic(g) && b in g && n in g
    modifies b`elmnts, n`refcount
    ensures ret == 0 <==> Acyclic(WithEdge(g, b, n))
    ensures ret == 0 ==>
              b.elmnts == old(b.elmnts) + [BundleElement(n)] && n.refcount == old(n.refcount) + 1 &&
              Snapshot(WithEdge(g, b, n))
    ensures ret != 0 ==>
              b.elmnts == old(b.elmnts) && n.refcount == old(n.refcount) && Snapshot(g)
  {
    hide WithEdge, SubBundles, Acyclic, Closed, ReachesCycle;
    ghost var es := b.elmnts;
    n.refcount := n.refcount + 1;
    b.elmnts := b.elmnts + [BundleElement(n)];
    SnapshotAfterAdd(g, b, es, BundleElement(n));
    WithEdgeClosed(g, b, n);
    EdgeCycle(g, b, n);
    var circular := LoBundleCircular(b, WithEdge(g, b, n));
    if circular != 0 {
      // not a release: the caller may still hold a bundle whose count is back at zero
      n.refcount := n.refcount - 1;
      b.elmnts := b.elmnts[..|b.elmnts| - 1];
      assert b.elmnts == es;
      return -1;
    }
    return 0;
  }

  /** An attempt to add bundle `n` to bundle `b`, guarded by the walk from `b`. */
  ghost function TryAdd<T>(g: Graph<T>, b: T, n: T): Graph<T>
    requires b in g
  {
    if ReachesCycle(WithEdge(g, b, n), b) then g else WithEdge(g, b, n)
  }

  ghost function TryAll<T>(g: Graph<T>, adds: seq<(T, T)>): Graph<T>
    decreases |adds|
  {
    if adds == [] then g
    else if adds[0].0 in g && adds[0].1 in g then TryAll(TryAdd(g, adds[0].0, adds[0].1), adds[1..])
    else TryAll(g, adds[1..])
  }

  /** No run of adds leads to a cycle, so every bundle can always be walked through. */
  lemma {:induction false} RunsStayAcyclic<T>(g: Graph<T>, adds: seq<(T, T)>)
    requires Closed(g) && Acyclic(g)
    ensures var h := TryAll(g, adds);
            Closed(h) && Acyclic(h) && h.Keys == g.Keys && forall x | x in h :: Unfolds(h, x, h.Keys)
    decreases |adds|
  {
    if adds == [] {
      forall x | x in g
        ensures Unfolds(g, x, g.Keys)
      {
        AcyclicUnfolds(g, x);
      }
    } else if adds[0].0 in g && adds[0].1 in g {
      EdgeCycle(g, adds[0].0, adds[0].1);
      WithEdgeClosed(g, adds[0].0, adds[0].1);
      hide Acyclic, ReachesCycle, Closed, WithEdge, Unfolds;
      RunsStayAcyclic(TryAdd(g, adds[0].0, adds[0].1), adds[1..]);
    } else {
      RunsStayAcyclic(g, adds[1..]);
    }
  }
}
