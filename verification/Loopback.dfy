/** What a sender builds comes back to a receiver: messages, and bundles up to the handlers. */
module Loopback {
  import opened Bytes
  import opened OscArgs
  import opened Varargs
  import opened Packets
  import opened Validators
  import opened Messages
  import opened Graphs
  import opened Bundles
  import opened BundleCodec
  import opened Trees
  import opened Dispatching
  import opened Traces
  import opened Exactness
  import opened Servers
  import opened PatternLanguage
  import opened Coercion
  import opened Methods

  /** What is known about a graph of bundles that was built by additions: it has no cycle. */
  ghost predicate Built(w: World, g: Graph<Bundle>) {
    && g.Keys == w.bundles.Keys && Closed(g) && Acyclic(g)
    && (forall x | x in g :: g[x] == SubBundles(w.bundles[x].elmnts))
    && (forall x, i | x in g && 0 <= i < |w.bundles[x].elmnts| ::
          w.bundles[x].elmnts[i].MessageElement? ==> w.bundles[x].elmnts[i].msg in w.messages)
  }

  lemma BuiltHasTree(w: World, g: Graph<Bundle>, b: Bundle)
    requires Built(w, g) && b in g
    ensures HasTree(w, BundleElement(b), g.Keys)
  {
    AcyclicUnfolds(g, b);
    UnfoldsHasTree(w, g, b, g.Keys);
  }

  ghost function TreeBelow(w: World, g: Graph<Bundle>, b: Bundle): Tree
    requires Built(w, g) && b in g
  {
    BuiltHasTree(w, g, b);
    TreeOf(w, BundleElement(b), g.Keys)
  }

  /**
   * A bundle is serialised and what was written is dispatched.  The receiver sees the sender's tree,
   * unless a message in it is named like a bundle or has a blob that is too large, and only then not.
   */
  method SendToSelf(b: Bundle, s: Server, sock: int, ghost w: World, ghost g: Graph<Bundle>)
    returns (result: int)
    requires Shows(w) && Built(w, g) && b in g && s.Valid()
    requires |TreeWire(TreeBelow(w, g, b))| < LIMIT
    modifies s`queued, s`spine, s`events, s`readings, s.Nodes()
    ensures var t := TreeBelow(w, g, b);
            s.Valid() && (WellFormed(t) <==>
              Outcome(s.Now(), result) == Outcome(Trace(s.Settings(sock), old(s.Now()), t), |TreeWire(t)|))
  {
    hide TreeWire, TreeOf, HasTree, Shows, Built, WellFormed, Trace, Dispatching.DispatchData, Server.Valid;
    ghost var t := TreeBelow(w, g, b);
    BuiltHasTree(w, g, b);
    TreeBelowIs(w, g, b);
    var length := LoBundleLength(b, w, g.Keys);
    var data := new byte[length];
    var size, ok := LoBundleSerialise(b, data, 0, w, g.Keys, t);
    assert data[..] == TreeWire(t) && data[..][0..] == TreeWire(t) + [];
    DispatchIsTraceExactly(s.Settings(sock), s.Now(), t, []);
    result := s.DispatchData(data[..], 0, size, sock);
  }

  lemma TreeBelowIs(w: World, g: Graph<Bundle>, b: Bundle)
    requires Built(w, g) && b in g && HasTree(w, BundleElement(b), g.Keys)
    ensures TreeBelow(w, g, b) == TreeOf(w, BundleElement(b), g.Keys)
  {
    hide Built, HasTree, TreeOf;
  }

  /** What comes back when a message is serialised and deserialised. */
  ghost predicate ComesBack(sent: LoMessage, received: LoMessage?, error: int)
    reads sent, sent.types, sent.data, received
    reads if received == null then {} else {received.types, received.data}
    requires sent.Valid()
  {
    if AllSendable(sent.args) then
      error == 0 && received != null && received.Valid() && received.args == sent.args &&
      received.types[..received.typelen] == sent.types[..sent.typelen] &&
      received.data[..received.datalen] == sent.data[..sent.datalen] &&
      received.argv == if sent.args == [] then None else Some(Offsets(sent.args))
    else
      received == null && error == LO_EINVALIDARG
  }

  /** Any valid message comes back as it was, unless a blob is too large to be received. */
  method SendAndReceive(sent: LoMessage, path: CString) returns (received: LoMessage?, error: int)
    requires sent.Valid()
    ensures sent.Valid() && ComesBack(sent, received, error)
  {
    hide Wire, Parse, Offsets, HostData, Tags, AllSendable;
    var length := sent.Length(path);
    var data := new byte[length];
    var size := sent.Serialise(path, data, 0);
    assert data[..] == Wire(path, sent.args);
    ParseWire(path, sent.args);
    received, error := Deserialise(data[..]);
  }

  /**
   * A message is built by any sequence of additions, serialised and deserialised: it comes back
   * with the same types, data and argument offsets, unless a blob is too large to be received.
   */
  method MessageToSelf(list: seq<Arg>, path: CString) returns (sent: LoMessage, received: LoMessage?, error: int)
    requires forall i | 0 <= i < |list| :: IsSent(list[i])
    ensures fresh(sent) && sent.Valid() && sent.args == list
    ensures sent.argv == Some(Offsets(list)) && ComesBack(sent, received, error)
  {
    hide Offsets, ComesBack, LoMessage.Valid, AddedBy, Supplied, Tags, Varargs.Values;
    sent := new LoMessage.New();
    ListIsAdded(list, MarkerA, MarkerB, 0);
    var ret := sent.AddVarargs(Tags(list), Values(list) + [MarkerA, MarkerB]);
    assert ret == 0 && [] + list == list;
    var argv := sent.GetArgv();
    received, error := SendAndReceive(sent, path);
  }

  /** The message asks for the handler, by its path and the types of its arguments. */
  ghost predicate AsksFor(h: Handler, path: CString, types: CString, coerce: bool) {
    && (h.path.None? || if IsPattern(path) then InLang(Tokens(path), h.path.value, false) else h.path.value == path)
    && (h.typespec.None? || h.typespec.value == types || (coerce && Coercible(types, h.typespec.value)))
  }

  /** Calls of the one handler of a table. */
  lemma OneHandler(h: Handler, at: seq<nat>, path: CString, types: CString, coerce: bool, reply: nat -> int)
    requires ByNameAndTypes([h], at, path, types, coerce, reply) && (IsPattern(path) ==> Readable(path))
    requires (forall j | 0 <= j < |at| :: at[j] < 1) && forall j, k | 0 <= j < k < |at| :: at[j] < at[k]
    ensures at == if AsksFor(h, path, types, coerce) then [0] else []
  {
    hide IsPattern, Readable, InLang, Tokens, Coercible;
    assert [h][0] == h;
    if at != [] {
      AtLeast(at, |at| - 1);
      assert at[0] in at && at == [0];
    }
  }

  lemma {:induction false} AtLeast(at: seq<nat>, j: nat)
    requires j < |at| && forall i, k | 0 <= i < k < |at| :: at[i] < at[k]
    ensures at[j] >= j
  {
    if j > 0 {
      AtLeast(at, j - 1);
    }
  }

  /**
   * A message that has been built and sent calls the handler registered with the receiver, under its name.
   * The handler is given the types, data and offsets the message was built with, or those it asks for with
   * every argument coerced.
   */
  method MessageToHandler(list: seq<Arg>, path: CString, h: Handler, convert: Conversion, beyond: Beyond,
                          coerce: bool, reply: nat -> int) returns (calls: seq<Invocation>)
    requires AllSendable(list) && forall i | 0 <= i < |list| :: IsSent(list[i])
    requires Registrable(h) && (IsPattern(path) ==> Readable(path))
    ensures |calls| == if AsksFor(h, path, Tags(list), coerce) then 1 else 0
    ensures calls != [] ==> calls[0].id == h.id && calls[0].path == if h.path.Some? then h.path.value else path
    ensures calls != [] && (h.typespec.None? || h.typespec.value == Tags(list)) ==>
              calls[0].types == Tags(list) && calls[0].data == HostData(list) &&
              calls[0].argv == if list == [] then None else Some(Offsets(list))
    ensures calls != [] && h.typespec.Some? && h.typespec.value != Tags(list) ==>
              calls[0].types == h.typespec.value && Coercible(Tags(list), h.typespec.value) &&
              exists ptrs: seq<nat> ::
                |ptrs| == |list| && Laid(calls[0].data, ptrs, Targets(convert, list, h.typespec.value))
  {
    hide ByNameAndTypes, AsksFor, IsPattern, Readable, InLang, Tokens, IsFor, Reached, Tags, HostData, Offsets,
         AllSendable, Laid, Targets, Coercible, LoMessage.Valid, MethodTable.Valid;
    var sent, received, error := MessageToSelf(list, path);
    var table := new MethodTable(beyond);
    var _ := table.AddMethod(h);
    assert table.Contents() == [h];
    ghost var at;
    var ret;
    calls, ret, at := table.DispatchMethod(convert, path, received, coerce, reply);
    OneHandler(h, at, path, Tags(list), coerce, reply);
  }
}
