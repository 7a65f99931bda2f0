/** The methods registered with a server: a linked list edited in place, and the dispatch to it. */
module Methods {
  import opened Bytes
  import opened OscArgs
  import opened Messages
  import opened Coercion
  import opened LinkedLists
  import opened PatternMatch
  import opened PatternLoops
  import opened PatternLanguage
  import opened PatternMeaning

  /** A registered handler; no path, or no type specification, stands for any. */
  datatype Handler = Handler(path: Option<CString>, typespec: Option<CString>, id: int)

  /** The characters of patterns, which no method name may contain. */
  const SPECIAL: seq<byte> :=
    [' ' as int, '#' as int, '*' as int, ',' as int, '?' as int, '[' as int, ']' as int, '{' as int, '}' as int]

  predicate IsPattern(path: CString) { exists c | c in path :: c in SPECIAL }

  /**
   * What the bytes after a pattern make of a name, where the matcher reads on past the pattern's end;
   * they are not part of this model, and any outcome is possible.
   */
  type Beyond = (CString, CString) -> bool

  predicate Matches(beyond: Beyond, name: CString, pattern: CString) {
    match Match(name, pattern)
    case Yes => true
    case No => false
    case Undefined => beyond(name, pattern)
  }

  // The list as a sequence

  /** The deletion of `path` and `typespec` removes `h`. */
  predicate Accepts(beyond: Beyond, h: Handler, path: Option<CString>, typespec: Option<CString>) {
    && (h.path == path ||
        (path.Some? && IsPattern(path.value) && h.path.Some? && Matches(beyond, h.path.value, path.value)))
    && h.typespec == typespec
  }

  function Remaining(beyond: Beyond, hs: seq<Handler>, path: Option<CString>,
                     typespec: Option<CString>): (r: seq<Handler>)
    ensures |r| <= |hs|
  {
    if hs == [] then []
    else (if Accepts(beyond, hs[0], path, typespec) then [] else [hs[0]]) + Remaining(beyond, hs[1..], path, typespec)
  }

  lemma {:induction false} RemainingAppend(beyond: Beyond, hs: seq<Handler>, h: Handler, path: Option<CString>,
                                           typespec: Option<CString>)
    ensures Remaining(beyond, hs + [h], path, typespec) ==
            Remaining(beyond, hs, path, typespec) + if Accepts(beyond, h, path, typespec) then [] else [h]
  {
    hide Accepts;
    if hs == [] {
      assert [h][1..] == [];
    } else {
      assert (hs + [h])[1..] == hs[1..] + [h];
      RemainingAppend(beyond, hs[1..], h, path, typespec);
    }
  }

  datatype Edit =
    | Add(h: Handler)
    | Delete(path: Option<CString>, typespec: Option<CString>)

  predicate Registrable(h: Handler) { h.path.Some? ==> !IsPattern(h.path.value) }

  function Edited(beyond: Beyond, hs: seq<Handler>, e: Edit): seq<Handler> {
    match e
    case Add(h) => if Registrable(h) then hs + [h] else hs
    case Delete(path, typespec) => Remaining(beyond, hs, path, typespec)
  }

  function EditedAll(beyond: Beyond, hs: seq<Handler>, es: seq<Edit>): seq<Handler>
    decreases |es|
  {
    if es == [] then hs else EditedAll(beyond, Edited(beyond, hs, es[0]), es[1..])
  }

  ghost predicate AllRegistrable(hs: seq<Handler>) {
    forall i | 0 <= i < |hs| :: Registrable(hs[i])
  }

  lemma {:induction false} RemainingKeeps(beyond: Beyond, hs: seq<Handler>, path: Option<CString>,
                                          typespec: Option<CString>)
    requires AllRegistrable(hs)
    ensures AllRegistrable(Remaining(beyond, hs, path, typespec))
  {
    if hs != [] {
      RemainingKeeps(beyond, hs[1..], path, typespec);
    }
  }

  /** In every run no method name is a pattern, so an incoming pattern never equals one. */
  lemma {:induction false} NoPatternsRegistered(beyond: Beyond, hs: seq<Handler>, es: seq<Edit>)
    requires AllRegistrable(hs)
    ensures AllRegistrable(EditedAll(beyond, hs, es))
    decreases |es|
  {
    if es != [] {
      if es[0].Delete? {
        RemainingKeeps(beyond, hs, es[0].path, es[0].typespec);
      }
      NoPatternsRegistered(beyond, Edited(beyond, hs, es[0]), es[1..]);
    }
  }

  /** What is left after a deletion: just what it does not accept, in the order it was. */
  lemma {:induction false} DeletesExactly(beyond: Beyond, hs: seq<Handler>, path: Option<CString>,
                                          typespec: Option<CString>, h: Handler)
    ensures multiset(Remaining(beyond, hs, path, typespec))[h] ==
            if Accepts(beyond, h, path, typespec) then 0 else multiset(hs)[h]
  {
    hide Accepts;
    if hs != [] {
      DeletesExactly(beyond, hs[1..], path, typespec, h);
      CountFirst([hs[0]], hs[1..], h);
      assert hs == [hs[0]] + hs[1..];
      CountFirst(if Accepts(beyond, hs[0], path, typespec) then [] else [hs[0]],
                 Remaining(beyond, hs[1..], path, typespec), h);
    }
  }

  lemma CountFirst(first: seq<Handler>, rest: seq<Handler>, h: Handler)
    requires |first| <= 1
    ensures multiset(first + rest)[h] == (if first == [h] then 1 else 0) + multiset(rest)[h]
  {
    assert multiset(first + rest) == multiset(first) + multiset(rest);
  }

  /** A deletion by name undoes the registration just before it, if nothing else has that name and types. */
  lemma {:induction false} DeleteUndoesAdd(beyond: Beyond, hs: seq<Handler>, h: Handler)
    requires Registrable(h) && forall i | 0 <= i < |hs| :: hs[i].path != h.path || hs[i].typespec != h.typespec
    ensures EditedAll(beyond, hs, [Add(h), Delete(h.path, h.typespec)]) == hs
  {
    NothingAccepted(beyond, hs, h.path, h.typespec);
    RemainingAppend(beyond, hs, h, h.path, h.typespec);
    var es := [Add(h), Delete(h.path, h.typespec)];
    assert es[1..] == [es[1]];
    assert EditedAll(beyond, hs, es) == EditedAll(beyond, Edited(beyond, hs, es[0]), es[1..]) ==
           EditedAll(beyond, hs + [h], [es[1]]);
    assert [es[1]][1..] == [];
    assert EditedAll(beyond, hs + [h], [es[1]]) == Edited(beyond, hs + [h], es[1]);
  }

  lemma {:induction false} NothingAccepted(beyond: Beyond, hs: seq<Handler>, path: Option<CString>,
                                           typespec: Option<CString>)
    requires forall i | 0 <= i < |hs| :: !Accepts(beyond, hs[i], path, typespec)
    ensures Remaining(beyond, hs, path, typespec) == hs
  {
    if hs != [] {
      NothingAccepted(beyond, hs[1..], path, typespec);
    }
  }

  // Dispatch

  /** A message for `path` with arguments of the given types is for `h`. */
  predicate IsFor(beyond: Beyond, h: Handler, path: CString, types: CString, coerce: bool) {
    && (h.path.None? || path == h.path.value || (IsPattern(path) && Matches(beyond, h.path.value, path)))
    && (h.typespec.None? || types == h.typespec.value || (coerce && Coercible(types, h.typespec.value)))
  }

  /** What a handler is called with. */
  datatype Invocation = Invocation(id: int, path: CString, types: CString, data: seq<byte>,
                                   argv: Option<seq<Option<nat>>>)

  /** The call `call` gives `h` the message: as it is, or coerced to the types `h` asks for. */
  ghost predicate Serves(convert: Conversion, call: Invocation, h: Handler, path: CString, args: seq<Arg>,
                         argv: Option<seq<Option<nat>>>)
  {
    && call.id == h.id && call.path == h.path.GetOr(path)
    && (if h.typespec.None? || h.typespec.value == Tags(args) then
          call.types == Tags(args) && call.data == HostData(args) && call.argv == argv
        else
          Coercible(Tags(args), h.typespec.value) && call.types == h.typespec.value &&
          exists ptrs: seq<nat> ::
            |ptrs| == |args| && Laid(call.data, ptrs, Targets(convert, args, h.typespec.value)) &&
            call.argv == if args == [] then None else Some(seq(|ptrs|, i requires 0 <= i < |ptrs| => Some(ptrs[i]))))
  }

  /** Of the first `i` handlers those at the places `at` were called, which are those the message is for. */
  ghost predicate CalledUpTo(beyond: Beyond, hs: seq<Handler>, i: nat, at: seq<nat>, path: CString, types: CString,
                             coerce: bool)
  {
    && i <= |hs| && (forall j | 0 <= j < |at| :: at[j] < i) && (forall j, k | 0 <= j < k < |at| :: at[j] < at[k])
    && forall k: nat | k < i :: k in at <==> IsFor(beyond, hs[k], path, types, coerce)
  }

  /** No call before the handler at `k` returned zero, or the path is a pattern. */
  ghost predicate Reached(at: seq<nat>, k: nat, reply: nat -> int, pattern: bool) {
    pattern || forall j: nat | j < |at| && at[j] < k :: reply(j) != 0
  }

  lemma CallingNext(beyond: Beyond, hs: seq<Handler>, i: nat, at: seq<nat>, path: CString, types: CString,
                    coerce: bool)
    requires CalledUpTo(beyond, hs, i, at, path, types, coerce) && i < |hs|
    ensures CalledUpTo(beyond, hs, i + 1, if IsFor(beyond, hs[i], path, types, coerce) then at + [i] else at,
                       path, types, coerce)
  {
    hide IsFor;
  }

  /** The loop has come to the end of the list, or to a call that returned zero. */
  lemma CallingEnds(beyond: Beyond, hs: seq<Handler>, i: nat, at: seq<nat>, path: CString, types: CString,
                    coerce: bool, reply: nat -> int, pattern: bool)
    requires CalledUpTo(beyond, hs, i, at, path, types, coerce)
    requires forall j: nat | j < |at| - 1 :: pattern || reply(j) != 0
    requires if i == |hs| then at != [] ==> pattern || reply(|at| - 1) != 0 || at[|at| - 1] + 1 == i
             else at != [] && !pattern && reply(|at| - 1) == 0 && at[|at| - 1] + 1 == i
    ensures (forall j | 0 <= j < |at| :: at[j] < |hs|) && forall j, k | 0 <= j < k < |at| :: at[j] < at[k]
    ensures forall k: nat | k < |hs| ::
              k in at <==> IsFor(beyond, hs[k], path, types, coerce) && Reached(at, k, reply, pattern)
  {
    hide IsFor;
  }

  // Who is called, and what is deleted, without the comparisons of the code

  /** Whether a path is a pattern: by the characters that no name may contain. */
  lemma PatternCharacters(path: CString)
    ensures IsPattern(path) <==> exists i :: 0 <= i < |path| && path[i] in [32, 35, 42, 44, 63, 91, 93, 123, 125]
  {
  }

  /** Patterns whose brace lists are regular, and that do not end in `[!`: the matcher decides their language. */
  ghost predicate Readable(pattern: CString) { Regular(Tokens(pattern), true) && Open !in Tokens(pattern) }

  /** This includes every pattern without braces that does not end in `[!`. */
  lemma WithoutBracesReadable(pattern: CString)
    requires '{' as int !in pattern && Open !in Tokens(pattern)
    ensures Readable(pattern)
  {
    NoLists(pattern);
  }

  lemma MatchesLanguage(beyond: Beyond, name: CString, pattern: CString)
    requires Readable(pattern)
    ensures Matches(beyond, name, pattern) <==> InLang(Tokens(pattern), name, false)
  {
    hide Match, Tokens, InLang;
    MatchIsMeaning(name, pattern);
    OpenOrNot(Tokens(pattern), name);
  }

  /** Which handlers a message is for: by name and types. */
  lemma IsForExactly(beyond: Beyond, h: Handler, path: CString, types: CString, coerce: bool)
    requires Registrable(h)
    ensures !IsPattern(path) ==>
              (IsFor(beyond, h, path, types, coerce) <==>
                (h.path.None? || h.path.value == path) &&
                (h.typespec.None? || h.typespec.value == types || (coerce && Coercible(types, h.typespec.value))))
    ensures IsPattern(path) && Readable(path) ==>
              (IsFor(beyond, h, path, types, coerce) <==>
                (h.path.None? || InLang(Tokens(path), h.path.value, false)) &&
                (h.typespec.None? || h.typespec.value == types || (coerce && Coercible(types, h.typespec.value))))
  {
    hide Matches, IsPattern, Coercible, Readable, InLang, Tokens;
    if h.path.Some? && Readable(path) {
      MatchesLanguage(beyond, h.path.value, path);
    }
  }

  /**
   * The handlers at the places `at` are those called.  A pattern calls all whose name is in its language, any
   * other path all of its name, but none behind a call that returned zero; a handler without a name has
   * every name.  The types are those the handler asks for, or may be coerced to them.
   */
  ghost predicate ByNameAndTypes(hs: seq<Handler>, at: seq<nat>, path: CString, types: CString, coerce: bool,
                                 reply: nat -> int)
  {
    && (IsPattern(path) && Readable(path) ==>
          forall k: nat | k < |hs| ::
            k in at <==>
            (hs[k].path.None? || InLang(Tokens(path), hs[k].path.value, false)) &&
            (hs[k].typespec.None? || hs[k].typespec.value == types ||
             (coerce && Coercible(types, hs[k].typespec.value))))
    && (!IsPattern(path) ==>
          forall k: nat | k < |hs| ::
            k in at <==>
            (hs[k].path.None? || hs[k].path.value == path) &&
            (hs[k].typespec.None? || hs[k].typespec.value == types ||
             (coerce && Coercible(types, hs[k].typespec.value))) &&
            forall j: nat | j < |at| && at[j] < k :: reply(j) != 0)
  }

  /** For a plain path, the first handler of its name, if that takes any types, is called first. */
  lemma FirstIsCalled(hs: seq<Handler>, at: seq<nat>, k: nat, path: CString, types: CString, coerce: bool,
                      reply: nat -> int)
    requires ByNameAndTypes(hs, at, path, types, coerce, reply) && !IsPattern(path)
    requires (forall j | 0 <= j < |at| :: at[j] < |hs|) && forall i, j | 0 <= i < j < |at| :: at[i] < at[j]
    requires k < |hs| && hs[k].typespec.None? && (hs[k].path.None? || hs[k].path.value == path)
    requires forall i | 0 <= i < k :: hs[i].path.Some? && hs[i].path.value != path
    ensures at != [] && at[0] == k
  {
    hide IsPattern, Coercible, Readable, InLang, Tokens;
    forall j | 0 <= j < |at|
      ensures at[j] >= k
    {
      assert at[j] in at;
    }
    assert k in at;
    var j :| 0 <= j < |at| && at[j] == k;
  }

  /** A deletion does not touch a handler with other types, and removes one of just that name and types. */
  lemma TypesDecide(beyond: Beyond, hs: seq<Handler>, path: Option<CString>, typespec: Option<CString>, h: Handler)
    ensures var left := multiset(Remaining(beyond, hs, path, typespec))[h];
            (h.typespec != typespec ==> left == multiset(hs)[h]) &&
            (h.typespec == typespec && h.path == path ==> left == 0)
  {
    DeletesExactly(beyond, hs, path, typespec, h);
  }

  /** What is left is in the order it was in. */
  lemma {:induction false} LeftInOrder(beyond: Beyond, hs: seq<Handler>, path: Option<CString>,
                                       typespec: Option<CString>) returns (at: seq<nat>)
    ensures |at| == |Remaining(beyond, hs, path, typespec)| && forall i, j | 0 <= i < j < |at| :: at[i] < at[j]
    ensures forall i | 0 <= i < |at| :: at[i] < |hs| && Remaining(beyond, hs, path, typespec)[i] == hs[at[i]]
  {
    hide Accepts, Remaining;
    at := [];
    RemainingFirst(beyond, hs, path, typespec);
    if hs != [] {
      var rest := LeftInOrder(beyond, hs[1..], path, typespec);
      var later := seq(|rest|, i requires 0 <= i < |rest| => rest[i] + 1);
      assert forall i | 0 <= i < |rest| :: hs[1..][rest[i]] == hs[later[i]];
      at := if Accepts(beyond, hs[0], path, typespec) then later else [0] + later;
    }
  }

  lemma RemainingFirst(beyond: Beyond, hs: seq<Handler>, path: Option<CString>, typespec: Option<CString>)
    ensures Remaining(beyond, hs, path, typespec) ==
            if hs == [] then []
            else if Accepts(beyond, hs[0], path, typespec) then Remaining(beyond, hs[1..], path, typespec)
            else [hs[0]] + Remaining(beyond, hs[1..], path, typespec)
  {
    hide Accepts;
  }

  /** Without a pattern no other name is removed. */
  lemma PlainDeletes(beyond: Beyond, hs: seq<Handler>, path: Option<CString>, typespec: Option<CString>, h: Handler)
    requires h.path != path && (path.Some? ==> !IsPattern(path.value))
    ensures multiset(Remaining(beyond, hs, path, typespec))[h] == multiset(hs)[h]
  {
    DeletesExactly(beyond, hs, path, typespec, h);
  }

  /** With one, the names in its language are removed, and no others. */
  lemma PatternDeletes(beyond: Beyond, hs: seq<Handler>, pattern: CString, typespec: Option<CString>, h: Handler)
    requires IsPattern(pattern) && Readable(pattern) && Registrable(h)
    ensures multiset(Remaining(beyond, hs, Some(pattern), typespec))[h] ==
            if h.typespec == typespec && h.path.Some? && InLang(Tokens(pattern), h.path.value, false) then 0
            else multiset(hs)[h]
  {
    hide Remaining, Matches, IsPattern, Readable, InLang, Tokens;
    DeletesExactly(beyond, hs, Some(pattern), typespec, h);
    if h.path.Some? {
      MatchesLanguage(beyond, h.path.value, pattern);
    }
  }

  // The list in memory

  lemma AtTheEnd(spine: seq<Node<Handler>>, node: Node<Handler>)
    ensures spine[..|spine|] + [node] + spine[|spine|..] == spine + [node]
    ensures Values(spine)[..|spine|] == Values(spine) && Values(spine)[|spine|..] == []
  {
  }

  class MethodTable {
    var first: Node?<Handler>
    const beyond: Beyond
    ghost var spine: seq<Node<Handler>>
    ghost var freed: set<Node<Handler>>

    ghost predicate Valid()
      reads this, spine
    {
      Linked(first, spine) && (forall n | n in spine :: n !in freed) && AllRegistrable(Values(spine))
    }

    ghost function Nodes(): set<Node<Handler>>
      reads this
    {
      Members(spine)
    }

    ghost function Contents(): seq<Handler>
      reads this
    {
      Values(spine)
    }

    constructor (beyond: Beyond)
      ensures Valid() && Contents() == [] && freed == {} && this.beyond == beyond
    {
      this.beyond := beyond;
      first, spine, freed := null, [], {};
    }

    // A node is not touched once it has been freed.

    function Next(n: Node<Handler>): Node?<Handler>
      requires n !in freed
      reads this, n
    {
      n.next
    }

    function HandlerOf(n: Node<Handler>): Handler
      requires n !in freed
      reads this
    {
      n.value
    }

    method SetNext(n: Node<Handler>, next: Node?<Handler>)
      requires n !in freed
      modifies n`next
      ensures n.next == next
    {
      n.next := next;
    }

    method Free(n: Node<Handler>)
      requires n !in freed
      modifies this`freed
      ensures freed == old(freed) + {n}
    {
      freed := freed + {n};
    }

    method Last() returns (it: Node<Handler>)
      requires Valid() && first != null
      ensures spine != [] && it == spine[|spine| - 1]
    {
      HeadOf(first, spine);
      it := first;
      ghost var k := 0;
      while Next(it) != null
        invariant k < |spine| && it == spine[k]
        decreases |spine| - k
      {
        NextOf(first, spine, k);
        it := Next(it);
        k := k + 1;
      }
    }

    /** Links a new node in at the end. */
    method Append(node: Node<Handler>)
      requires Valid() && node !in spine && node !in freed && node.next == null && Registrable(node.value)
      modifies this`first, this`spine, Nodes()
      ensures Valid() && spine == old(spine) + [node]
      ensures Contents() == old(Contents()) + [node.value]
    {
      hide Values, NoRepeats;
      ghost var k := |spine|;
      if first == null {
        first := node;
      } else {
        var it := Last();
        SetNext(it, node);
      }
      LinkedIn(first, spine, k, node);
      AtTheEnd(spine, node);
      spine := spine[..k] + [node] + spine[k..];
    }

    /** Appends a method, unless its name is a pattern. */
    method AddMethod(h: Handler) returns (m: Node?<Handler>)
      requires Valid()
      modifies this`first, this`spine, Nodes()
      ensures Valid() && Contents() == Edited(beyond, old(Contents()), Add(h))
      ensures fresh(Nodes() - old(Nodes())) && (m == null <==> !Registrable(h))
    {
      hide Linked, Values, IsPattern;
      if h.path.Some? && IsPattern(h.path.value) {
        return null;
      }
      var node := new Node<Handler>(h);
      Append(node);
      m := node;
    }

    /** The comparisons of a deletion; a pattern is matched against the names. */
    method Deletes(h: Handler, path: Option<CString>, typespec: Option<CString>) returns (accepts: bool)
      ensures accepts == Accepts(beyond, h, path, typespec)
    {
      var named := h.path == path;
      if !named && path.Some? && IsPattern(path.value) && h.path.Some? {
        var v := LoPatternMatch(h.path.value, path.value);
        named := if v == Undefined then beyond(h.path.value, path.value) else v == Yes;
      }
      return named && h.typespec == typespec;
    }

    /** Takes `it` out of the list and frees it; `prev` is only used when something is in front. */
    method Unlink(it: Node<Handler>, prev: Node<Handler>, ghost k: nat) returns (next: Node?<Handler>)
      requires Valid() && k < |spine| && it == spine[k] && (k > 0 ==> prev == spine[k - 1])
      modifies this`first, this`spine, this`freed, Nodes()
      ensures Valid() && spine == old(spine[..k] + spine[k + 1..]) && next == NodeAt(old(spine), k + 1)
      ensures it in old(Nodes()) && freed == old(freed) + {it} && Nodes() == old(Nodes()) - {it}
    {
      hide Values, AllRegistrable;
      if it == first {
        first := Next(it);
      } else {
        SetNext(prev, Next(it));
      }
      next := Next(it);
      Free(it);
      LinkedWithout(first, spine, k);
      RegistrableWithout(spine, k);
      spine := spine[..k] + spine[k + 1..];
    }

    /** Removes and frees every method with that name, or one the pattern matches, and those types. */
    method DelMethod(path: Option<CString>, typespec: Option<CString>)
      requires Valid()
      modifies this`first, this`spine, this`freed, Nodes()
      ensures Valid() && Contents() == Edited(beyond, old(Contents()), Delete(path, typespec))
      ensures Nodes() <= old(Nodes()) && freed == old(freed) + (old(Nodes()) - Nodes())
    {
      hide Remaining, Accepts, Match, Values, Linked, Members, IsPattern, Deleting;
      if first == null {
        NothingDeleted(beyond, first, spine, path, typespec);
        return;
      }
      HeadOf(first, spine);
      var it := first;
      var prev: Node<Handler> := it;
      ghost var was, i, k := spine, 0, 0;
      DeletingStarts(beyond, was, path, typespec);
      while it != null
        invariant Valid() && it == NodeAt(was, i)
        invariant Nodes() <= old(Nodes()) && freed == old(freed) + (old(Nodes()) - Nodes())
        invariant Deleting(beyond, was, i, spine, k, path, typespec)
        invariant k <= |spine| && (k > 0 ==> prev == spine[k - 1])
        decreases |was| - i
      {
        DeletingNext(beyond, was, i, spine, k, path, typespec);
        NextOf(first, spine, k);
        var next := Next(it);
        var accepts := Deletes(HandlerOf(it), path, typespec);
        if accepts {
          next := Unlink(it, prev, k);
          it := prev;
        } else {
          k := k + 1;
        }
        prev := it;
        i := i + 1;
        it := next;
      }
      DeletingEnds(beyond, was, i, spine, k, path, typespec);
    }

    /**
     * Calls the handlers a message is for, those at the places `at`: all of them for a pattern, and
     * otherwise those up to the first that returns zero.  `ret` is what the last of them returned.
     */
    method DispatchMethod(convert: Conversion, path: CString, m: LoMessage, coerce: bool, reply: nat -> int)
      returns (calls: seq<Invocation>, ret: int, ghost at: seq<nat>)
      requires Valid() && m.Valid()
      ensures |at| == |calls| && forall j, k | 0 <= j < k < |at| :: at[j] < at[k]
      ensures forall j | 0 <= j < |at| :: at[j] < |Contents()| &&
                Serves(convert, calls[j], Contents()[at[j]], path, m.args, m.argv)
      ensures forall k: nat | k < |Contents()| ::
                k in at <==> IsFor(beyond, Contents()[k], path, Tags(m.args), coerce) &&
                             Reached(at, k, reply, IsPattern(path))
      ensures ByNameAndTypes(Contents(), at, path, Tags(m.args), coerce, reply)
      ensures ret == if calls == [] then 1 else reply(|calls| - 1)
    {
      hide IsFor, Serves, Match, Values, Linked, IsPattern, Tags, Coercible, Registrable, Readable, InLang, Tokens,
           LoMessage.Valid, CalledUpTo, AllRegistrable, Reached, ByNameAndTypes;
      HeadOf(first, spine);
      TypesOf(m);
      var types := m.types[1..m.typelen];
      var pattern := IsPattern(path);
      ghost var hs, i := Contents(), 0;
      calls, ret, at := [], 1, [];
      NoneCalled(beyond, hs, path, types, coerce);
      var it := first;
      while it != null
        invariant i <= |spine| && it == NodeAt(spine, i)
        invariant |at| == |calls| && CalledUpTo(beyond, hs, i, at, path, types, coerce)
        invariant forall j | 0 <= j < |at| ::
                    at[j] < |hs| && Serves(convert, calls[j], hs[at[j]], path, m.args, m.argv)
        invariant forall j: nat | j < |calls| :: pattern || reply(j) != 0
        invariant ret == if calls == [] then 1 else reply(|calls| - 1)
        decreases |spine| - i
      {
        NextOf(first, spine, i);
        ValueAt(spine, i);
        CallingNext(beyond, hs, i, at, path, types, coerce);
        var call := Serve(convert, HandlerOf(it), path, m, types, coerce);
        it := Next(it);
        i := i + 1;
        if call.Some? {
          calls, at := calls + [call.value], at + [i - 1];
          ret := reply(|calls| - 1);
          if ret == 0 && !pattern {
            break;
          }
        }
      }
      CallingEnds(beyond, hs, i, at, path, types, coerce, reply, pattern);
      CallsExactly(beyond, hs, at, path, types, coerce, reply);
    }

    /** Whether the message is for the handler, and what it is called with. */
    method Serve(convert: Conversion, h: Handler, path: CString, m: LoMessage, types: CString, coerce: bool)
      returns (call: Option<Invocation>)
      requires m.Valid() && types == Tags(m.args)
      ensures call.Some? <==> IsFor(beyond, h, path, types, coerce)
      ensures call.Some? ==> Serves(convert, call.value, h, path, m.args, m.argv)
    {
      hide Match, IsPattern, Tags;
      var named := h.path.None? || path == h.path.value;
      if !named && IsPattern(path) {
        var v := LoPatternMatch(h.path.value, path);
        named := if v == Undefined then beyond(h.path.value, path) else v == Yes;
      }
      if !named {
        return None;
      }
      if h.typespec.None? || types == h.typespec.value {
        assert m.data[..m.datalen] == HostData(m.args);
        return Some(Invocation(h.id, h.path.GetOr(path), types, m.data[..m.datalen], m.argv));
      }
      var can := CanCoerceSpec(types, h.typespec.value);
      if !coerce || !can {
        return None;
      }
      var co, ptrs := CoerceArgs(convert, m, h.typespec.value);
      var argv := if |types| == 0 then None else Some(seq(|ptrs|, i requires 0 <= i < |ptrs| => Some(ptrs[i])));
      return Some(Invocation(h.id, h.path.GetOr(path), h.typespec.value, co[..], argv));
    }
  }

  lemma TypesOf(m: LoMessage)
    requires m.Valid()
    ensures 1 <= m.typelen <= m.types.Length && m.types[1..m.typelen] == Tags(m.args)
  {
    assert m.types[1..m.typelen] == m.types[..m.typelen][1..];
  }

  lemma NoneCalled(beyond: Beyond, hs: seq<Handler>, path: CString, types: CString, coerce: bool)
    ensures CalledUpTo(beyond, hs, 0, [], path, types, coerce)
  {
  }

  lemma ValueAt(spine: seq<Node<Handler>>, i: nat)
    requires i < |spine|
    ensures Values(spine)[i] == spine[i].value
  {
  }

  lemma RegistrableWithout(spine: seq<Node<Handler>>, k: nat)
    requires k < |spine| && AllRegistrable(Values(spine))
    ensures AllRegistrable(Values(spine[..k] + spine[k + 1..]))
  {
    hide Registrable;
    var r := spine[..k] + spine[k + 1..];
    forall i | 0 <= i < |r|
      ensures Registrable(Values(r)[i])
    {
      assert Values(r)[i] == Values(spine)[if i < k then i else i + 1];
    }
  }

  /** The same of the calls made. */
  lemma CallsExactly(beyond: Beyond, hs: seq<Handler>, at: seq<nat>, path: CString, types: CString, coerce: bool,
                     reply: nat -> int)
    requires AllRegistrable(hs)
    requires forall k: nat | k < |hs| ::
               k in at <==> IsFor(beyond, hs[k], path, types, coerce) && Reached(at, k, reply, IsPattern(path))
    ensures ByNameAndTypes(hs, at, path, types, coerce, reply)
  {
    hide IsFor, IsPattern, Readable, Coercible, InLang, Tokens, AllRegistrable;
    AllExactly(beyond, hs, path, types, coerce);
  }

  lemma AllExactly(beyond: Beyond, hs: seq<Handler>, path: CString, types: CString, coerce: bool)
    requires AllRegistrable(hs)
    ensures !IsPattern(path) ==>
              forall k | 0 <= k < |hs| ::
                IsFor(beyond, hs[k], path, types, coerce) <==>
                (hs[k].path.None? || hs[k].path.value == path) &&
                (hs[k].typespec.None? || hs[k].typespec.value == types ||
                 (coerce && Coercible(types, hs[k].typespec.value)))
    ensures IsPattern(path) && Readable(path) ==>
              forall k | 0 <= k < |hs| ::
                IsFor(beyond, hs[k], path, types, coerce) <==>
                (hs[k].path.None? || InLang(Tokens(path), hs[k].path.value, false)) &&
                (hs[k].typespec.None? || hs[k].typespec.value == types ||
                 (coerce && Coercible(types, hs[k].typespec.value)))
  {
    hide IsFor, IsPattern, Readable, Coercible, InLang, Tokens, Registrable;
    forall k | 0 <= k < |hs| {
      IsForExactly(beyond, hs[k], path, types, coerce);
    }
  }

  /** After `i` of the nodes `was`, the first `k` of the list are those that are left. */
  ghost predicate Deleting(beyond: Beyond, was: seq<Node<Handler>>, i: nat, spine: seq<Node<Handler>>, k: nat,
                           path: Option<CString>, typespec: Option<CString>)
  {
    && i <= |was| && k <= |spine| && spine[k..] == was[i..]
    && Values(spine[..k]) == Remaining(beyond, Values(was[..i]), path, typespec)
  }

  lemma NothingDeleted(beyond: Beyond, head: Node?<Handler>, spine: seq<Node<Handler>>, path: Option<CString>,
                       typespec: Option<CString>)
    requires Linked(head, spine) && head == null
    ensures spine == [] && Remaining(beyond, Values(spine), path, typespec) == Values(spine)
  {
  }

  lemma DeletingStarts(beyond: Beyond, was: seq<Node<Handler>>, path: Option<CString>, typespec: Option<CString>)
    ensures Deleting(beyond, was, 0, was, 0, path, typespec)
  {
  }

  lemma DeletingNext(beyond: Beyond, was: seq<Node<Handler>>, i: nat, spine: seq<Node<Handler>>, k: nat,
                     path: Option<CString>, typespec: Option<CString>)
    requires Deleting(beyond, was, i, spine, k, path, typespec) && i < |was|
    ensures k < |spine| && spine[k] == was[i] && NodeAt(was, i + 1) == NodeAt(spine, k + 1)
    ensures if Accepts(beyond, was[i].value, path, typespec) then
              Deleting(beyond, was, i + 1, spine[..k] + spine[k + 1..], k, path, typespec)
            else
              Deleting(beyond, was, i + 1, spine, k + 1, path, typespec)
  {
    hide Remaining, Accepts, Match, IsPattern;
    var h := was[i].value;
    assert spine[k] == spine[k..][0] && was[i] == was[i..][0];
    assert spine[k + 1..] == spine[k..][1..] == was[i..][1..] == was[i + 1..];
    assert k + 1 < |spine| ==> spine[k + 1] == spine[k + 1..][0] == was[i + 1..][0];
    assert Values(was[..i + 1]) == Values(was[..i]) + [h];
    assert Values(spine[..k + 1]) == Values(spine[..k]) + [h];
    RemainingAppend(beyond, Values(was[..i]), h, path, typespec);
    var without := spine[..k] + spine[k + 1..];
    assert without[..k] == spine[..k] && without[k..] == spine[k + 1..];
  }

  lemma DeletingEnds(beyond: Beyond, was: seq<Node<Handler>>, i: nat, spine: seq<Node<Handler>>, k: nat,
                     path: Option<CString>, typespec: Option<CString>)
    requires Deleting(beyond, was, i, spine, k, path, typespec) && NodeAt(was, i) == null
    ensures Values(spine) == Remaining(beyond, Values(was), path, typespec)
  {
    assert was[..i] == was && spine[..k] == spine;
  }
}
