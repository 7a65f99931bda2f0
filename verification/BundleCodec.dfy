/** Length and serialisation of bundle graphs; a shared bundle counts, and is written, once per reference. */
module BundleCodec {
  import opened Bytes
  import opened Timetags
  import opened OscArgs
  import opened Memory
  import opened Messages
  import opened Graphs
  import opened Bundles
  import opened Trees

  datatype Node = Node(ts: Timetag, elmnts: seq<Element>)

  /** The contents of some bundles and messages at one moment, and the buffers of the messages. */
  datatype World = World(bundles: map<Bundle, Node>, messages: map<LoMessage, seq<Arg>>, buffers: set<array<byte>>)

  ghost predicate Shows(w: World)
    reads w.bundles.Keys, w.messages.Keys, w.buffers
  {
    && (forall b | b in w.bundles :: b.ts == w.bundles[b].ts && b.elmnts == w.bundles[b].elmnts)
    && (forall m | m in w.messages ::
          m.types in w.buffers && m.data in w.buffers && m.Valid() && m.args == w.messages[m])
  }

  /** Below `e` there is a finite tree of known messages and bundles, no bundle within itself. */
  ghost predicate HasTree(w: World, e: Element, avail: set<Bundle>)
    decreases avail
  {
    match e
    case MessageElement(m, _) => m in w.messages
    case BundleElement(b) =>
      b in avail && b in w.bundles &&
      forall i | 0 <= i < |w.bundles[b].elmnts| :: HasTree(w, w.bundles[b].elmnts[i], avail - {b})
  }

  ghost function TreeOf(w: World, e: Element, avail: set<Bundle>): Tree
    requires HasTree(w, e, avail)
    decreases avail, 1
  {
    match e
    case MessageElement(m, path) => MessageTree(path, w.messages[m])
    case BundleElement(b) => BundleTree(w.bundles[b].ts, Subtrees(w, b, avail))
  }

  ghost function Subtrees(w: World, b: Bundle, avail: set<Bundle>): (ts: seq<Tree>)
    requires HasTree(w, BundleElement(b), avail)
    ensures |ts| == |w.bundles[b].elmnts|
    decreases avail, 0
  {
    var es := w.bundles[b].elmnts;
    seq(|es|, i requires 0 <= i < |es| => TreeOf(w, es[i], avail - {b}))
  }

  /** Where the graph is acyclic every bundle has a tree: the recursions below end. */
  lemma {:induction false} UnfoldsHasTree(w: World, g: Graph<Bundle>, b: Bundle, avail: set<Bundle>)
    requires g.Keys == w.bundles.Keys && Unfolds(g, b, avail)
    requires forall x | x in g :: g[x] == SubBundles(w.bundles[x].elmnts)
    requires forall x, i | x in g && 0 <= i < |w.bundles[x].elmnts| ::
               w.bundles[x].elmnts[i].MessageElement? ==> w.bundles[x].elmnts[i].msg in w.messages
    ensures HasTree(w, BundleElement(b), avail)
    decreases avail
  {
    var es := w.bundles[b].elmnts;
    forall i | 0 <= i < |es|
      ensures HasTree(w, es[i], avail - {b})
    {
      if es[i].BundleElement? {
        SubBundlesMembers(es, es[i].bundle);
        var k :| 0 <= k < |g[b]| && g[b][k] == es[i].bundle;
        UnfoldsHasTree(w, g, es[i].bundle, avail - {b});
      }
    }
  }

  /** What a loop over the elements of `b` needs to know about the i-th. */
  lemma ElementFacts(w: World, b: Bundle, avail: set<Bundle>, i: nat)
    requires Shows(w) && HasTree(w, BundleElement(b), avail) && i < |b.elmnts|
    ensures b in avail && HasTree(w, b.elmnts[i], avail - {b})
    ensures Subtrees(w, b, avail)[i] == TreeOf(w, b.elmnts[i], avail - {b})
  {
  }

  lemma MessageFacts(w: World, msg: LoMessage, path: CString, avail: set<Bundle>)
    requires Shows(w) && HasTree(w, MessageElement(msg, path), avail)
    ensures msg.Valid() && msg.types in w.buffers && msg.data in w.buffers
    ensures TreeWire(TreeOf(w, MessageElement(msg, path), avail)) == Wire(path, msg.args)
  {
    hide Wire;
  }

  lemma BundleFacts(w: World, b: Bundle, avail: set<Bundle>)
    requires Shows(w) && HasTree(w, BundleElement(b), avail)
    ensures |Subtrees(w, b, avail)| == |b.elmnts|
    ensures TreeWire(TreeOf(w, BundleElement(b), avail)) ==
            BundleHeader(b.ts) + ElemsWire(Subtrees(w, b, avail))
  {
  }

  lemma NoElements()
    ensures ElemsWire([]) == []
  {
  }

  method ElementLength(e: Element, ghost w: World, ghost avail: set<Bundle>) returns (size: nat)
    requires Shows(w) && HasTree(w, e, avail)
    ensures size == |TreeWire(TreeOf(w, e, avail))|
    decreases avail, 1
  {
    hide TreeWire, Wire;
    match e {
      case MessageElement(msg, path) =>
        MessageFacts(w, msg, path, avail);
        size := msg.Length(path);
      case BundleElement(bundle) =>
        size := LoBundleLength(bundle, w, avail);
    }
  }

  method LoBundleLength(b: Bundle, ghost w: World, ghost avail: set<Bundle>) returns (size: nat)
    requires Shows(w) && HasTree(w, BundleElement(b), avail)
    ensures size == |TreeWire(TreeOf(w, BundleElement(b), avail))|
    decreases avail, 0
  {
    hide *;
    BundleFacts(w, b, avail);
    ghost var ts := Subtrees(w, b, avail);
    size := 16 + |b.elmnts| * 4;
    MeasuringStarts(ts);
    var i := 0;
    while i < |b.elmnts|
      invariant i <= |b.elmnts| == |ts| && Shows(w)
      invariant Measuring(ts, i, size)
    {
      ElementFacts(w, b, avail, i);
      MeasuringNext(ts, i, size);
      var n := ElementLength(b.elmnts[i], w, avail - {b});
      size := size + n;
      i := i + 1;
    }
    MeasuringEnds(b.ts, ts, size);
  }

  /** The length once the first `i` elements are counted, and only the sizes before the others. */
  ghost predicate Measuring(ts: seq<Tree>, i: nat, size: nat) {
    i <= |ts| && size == 16 + 4 * (|ts| - i) + |ElemsWire(ts[..i])|
  }

  lemma MeasuringStarts(ts: seq<Tree>)
    ensures Measuring(ts, 0, 16 + |ts| * 4)
  {
    NoElements();
    assert ts[..0] == [];
  }

  lemma MeasuringNext(ts: seq<Tree>, i: nat, size: nat)
    requires Measuring(ts, i, size) && i < |ts|
    ensures Measuring(ts, i + 1, size + |TreeWire(ts[i])|)
  {
    hide ElemsWire, TreeWire;
    ElemsWireUpTo(ts, i);
  }

  lemma MeasuringEnds(tag: Timetag, ts: seq<Tree>, size: nat)
    requires Measuring(ts, |ts|, size)
    ensures size == |BundleHeader(tag) + ElemsWire(ts)|
  {
    hide ElemsWire;
    assert ts[..|ts|] == ts;
  }

  /** An element is written four bytes further on, and its size then put before it. */
  lemma SpliceFrame(before: seq<byte>, pos: nat, b: seq<byte>)
    requires pos + 4 + |b| <= |before|
    ensures Splice(Splice(before, pos + 4, b), pos, Count(|b|)) == Splice(before, pos, Framed(b))
  {
    hide Count;
  }

  method WriteHeader(to: array<byte>, off: nat, ts: Timetag)
    requires off + 16 <= to.Length
    modifies to
    ensures to[..] == old(Splice(to[..], off, BundleHeader(ts)))
  {
    hide Splice, WordOf;
    ghost var before := to[..];
    Memcpy(to, off, BUNDLE + [0]);
    assert BUNDLE + [0] == Pad(BUNDLE);
    Memcpy(to, off + 8, Be32(WordOf(ts.sec)));
    SpliceSplice(before, off, BUNDLE + [0], Be32(WordOf(ts.sec)));
    Memcpy(to, off + 12, Be32(WordOf(ts.frac)));
    SpliceSplice(before, off, BUNDLE + [0] + Be32(WordOf(ts.sec)), Be32(WordOf(ts.frac)));
    assert BUNDLE + [0] + Be32(WordOf(ts.sec)) + Be32(WordOf(ts.frac)) == BundleHeader(ts);
  }

  /** The bytes written once the first `i` elements are done. */
  ghost function WrittenUpTo(ts: Timetag, elems: seq<Tree>, i: nat): seq<byte>
    requires i <= |elems|
  {
    BundleHeader(ts) + ElemsWire(elems[..i])
  }

  lemma WrittenNext(ts: Timetag, elems: seq<Tree>, i: nat)
    requires i < |elems|
    ensures WrittenUpTo(ts, elems, i + 1) == WrittenUpTo(ts, elems, i) + Framed(TreeWire(elems[i]))
    ensures |WrittenUpTo(ts, elems, i + 1)| <= |BundleHeader(ts) + ElemsWire(elems)|
  {
    hide BundleHeader, ElemsWire, Framed, TreeWire;
    ElemsWireUpTo(elems, i);
    ElemsWirePrefix(elems, i + 1);
  }

  lemma WrittenEnds(ts: Timetag, elems: seq<Tree>)
    ensures WrittenUpTo(ts, elems, 0) == BundleHeader(ts)
    ensures WrittenUpTo(ts, elems, |elems|) == BundleHeader(ts) + ElemsWire(elems)
  {
    hide BundleHeader;
    assert elems[..0] == [] && elems[..|elems|] == elems;
  }

  /** Writes the element at `pos + 4`, then its size at `pos`. */
  method SerialiseElement(e: Element, to: array<byte>, pos: nat,
                          ghost w: World, ghost avail: set<Bundle>, ghost t: Tree)
    returns (skip: nat)
    requires Shows(w) && HasTree(w, e, avail) && TreeOf(w, e, avail) == t && to !in w.buffers
    requires pos + 4 + |TreeWire(t)| <= to.Length
    modifies to
    ensures skip == |TreeWire(t)|
    ensures to[..] == old(Splice(to[..], pos, Framed(TreeWire(t))))
    decreases avail, 1
  {
    hide TreeWire, Wire, Splice, Count, Framed;
    SpliceFrame(to[..], pos, TreeWire(t));
    match e {
      case MessageElement(msg, path) =>
        MessageFacts(w, msg, path, avail);
        skip := msg.Serialise(path, to, pos + 4);
      case BundleElement(bundle) =>
        var ok;
        skip, ok := LoBundleSerialise(bundle, to, pos + 4, w, avail, t);
    }
    Memcpy(to, pos, Count(skip));
  }

  /** Writes the bundle at `off`; neither of the two integrity checks can fail. */
  method LoBundleSerialise(b: Bundle, to: array<byte>, off: nat,
                           ghost w: World, ghost avail: set<Bundle>, ghost t: Tree)
    returns (size: nat, ok: bool)
    requires Shows(w) && HasTree(w, BundleElement(b), avail) && to !in w.buffers
    requires TreeOf(w, BundleElement(b), avail) == t
    requires off + |TreeWire(t)| <= to.Length
    modifies to
    ensures ok && size == |TreeWire(t)|
    ensures to[..] == old(Splice(to[..], off, TreeWire(t)))
    decreases avail, 0, 1
  {
    BundleFacts(w, b, avail);
    hide *;
    ghost var before, ts := to[..], Subtrees(w, b, avail);
    WrittenEnds(b.ts, ts);
    size := LoBundleLength(b, w, avail);
    WriteHeader(to, off, b.ts);
    var pos;
    pos, ok := SerialiseElements(b, to, off, size, w, avail, before, ts);
    ok := ok && pos == off + size;
  }

  /** The loop of the serialiser, from the end of the header; `before` is the buffer without it. */
  method SerialiseElements(b: Bundle, to: array<byte>, off: nat, size: nat, ghost w: World,
                           ghost avail: set<Bundle>, ghost before: seq<byte>, ghost ts: seq<Tree>)
    returns (pos: nat, ok: bool)
    requires Shows(w) && HasTree(w, BundleElement(b), avail) && to !in w.buffers
    requires ts == Subtrees(w, b, avail) && size == |BundleHeader(b.ts) + ElemsWire(ts)|
    requires off + size <= to.Length == |before|
    requires to[..] == Splice(before, off, BundleHeader(b.ts))
    modifies to
    ensures ok && pos == off + size
    ensures to[..] == Splice(before, off, BundleHeader(b.ts) + ElemsWire(ts))
    decreases avail, 0, 0
  {
    hide *;
    SubtreeCount(b, w, avail);
    var es := b.elmnts;
    ghost var tag := b.ts;
    pos := off + 16;
    WritingStarts(tag, ts, before, off, size);
    var i := 0;
    while i < |es|
      invariant i <= |es| == |ts| && Shows(w) && b.elmnts == es
      invariant Writing(tag, ts, i, before, off, size, pos, to[..])
    {
      ElementFacts(w, b, avail, i);
      WritingNext(tag, ts, i, before, off, size, pos, to[..]);
      var skip := SerialiseElement(es[i], to, pos, w, avail - {b}, ts[i]);
      pos := pos + skip + 4;
      i := i + 1;
      if pos > off + size {
        return pos, false;
      }
    }
    WritingEnds(tag, ts, before, off, size, pos, to[..]);
    ok := true;
  }

  lemma SubtreeCount(b: Bundle, w: World, avail: set<Bundle>)
    requires Shows(w) && HasTree(w, BundleElement(b), avail)
    ensures |Subtrees(w, b, avail)| == |b.elmnts|
  {
  }

  /** The buffer and the position in it when the first `i` elements have been written. */
  ghost predicate Writing(tag: Timetag, ts: seq<Tree>, i: nat, before: seq<byte>, off: nat, size: nat,
                          pos: nat, now: seq<byte>)
  {
    && i <= |ts| && size == |BundleHeader(tag) + ElemsWire(ts)| && off + size <= |before|
    && |WrittenUpTo(tag, ts, i)| <= size
    && pos == off + |WrittenUpTo(tag, ts, i)| && pos <= off + size
    && now == Splice(before, off, WrittenUpTo(tag, ts, i))
  }

  lemma WritingStarts(tag: Timetag, ts: seq<Tree>, before: seq<byte>, off: nat, size: nat)
    requires size == |BundleHeader(tag) + ElemsWire(ts)| && off + size <= |before|
    ensures Writing(tag, ts, 0, before, off, size, off + 16, Splice(before, off, BundleHeader(tag)))
  {
    hide BundleHeader, ElemsWire, Splice, WrittenUpTo;
    WrittenEnds(tag, ts);
  }

  lemma WritingNext(tag: Timetag, ts: seq<Tree>, i: nat, before: seq<byte>, off: nat, size: nat,
                    pos: nat, now: seq<byte>)
    requires Writing(tag, ts, i, before, off, size, pos, now) && i < |ts|
    ensures var framed := Framed(TreeWire(ts[i]));
            pos + |framed| <= off + size && |now| == |before| &&
            Writing(tag, ts, i + 1, before, off, size, pos + |framed|, Splice(now, pos, framed))
  {
    hide BundleHeader, ElemsWire, Splice, WrittenUpTo, Framed, TreeWire;
    WrittenNext(tag, ts, i);
    SpliceSplice(before, off, WrittenUpTo(tag, ts, i), Framed(TreeWire(ts[i])));
  }

  lemma WritingEnds(tag: Timetag, ts: seq<Tree>, before: seq<byte>, off: nat, size: nat, pos: nat, now: seq<byte>)
    requires Writing(tag, ts, |ts|, before, off, size, pos, now)
    ensures pos == off + size && now == Splice(before, off, BundleHeader(tag) + ElemsWire(ts))
  {
    hide BundleHeader, ElemsWire, Splice, WrittenUpTo;
    WrittenEnds(tag, ts);
  }
}
