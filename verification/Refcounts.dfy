/**
 * Reference counting on values: objects that own references to one another, and what the
 * release of one reference entails.
 */
module Refcounts {
  import opened Graphs

  /**
   * The objects that are neither freed nor being freed, the references that objects being
   * freed have not dropped yet, and the objects freed so far.
   */
  datatype State<T(==)> = State(live: seq<T>, pending: multiset<T>, freed: set<T>)

  /** All references that some objects own. */
  ghost function Held<T>(own: Graph<T>, xs: seq<T>): multiset<T>
    requires forall x | x in xs :: x in own
  {
    if xs == [] then multiset{} else multiset(own[xs[0]]) + Held(own, xs[1..])
  }

  /** All references there are; the count of an object is its multiplicity. */
  ghost function Total<T>(own: Graph<T>, s: State<T>): multiset<T>
    requires forall x | x in s.live :: x in own
  {
    Held(own, s.live) + s.pending
  }

  ghost predicate Sound<T>(own: Graph<T>, s: State<T>) {
    && Distinct(s.live)
    && (forall x | x in s.live :: x in own && x !in s.freed)
    && (forall x | x in Total(own, s) :: x in s.live)
  }

  /** From `s` to `k` some objects were freed; no other was left behind without references. */
  ghost predicate Released<T>(own: Graph<T>, s: State<T>, k: State<T>)
    requires Sound(own, s) && Sound(own, k)
  {
    && |k.live| <= |s.live| && (forall x | x in k.live :: x in s.live)
    && (forall x | x in s.live :: x in k.live <==> x !in k.freed)
    && (forall x | x in k.freed :: x in s.freed || x in s.live)
    && s.freed <= k.freed
    && (forall x | x in k.live && Total(own, k)[x] == 0 :: Total(own, s)[x] == 0)
  }

  ghost function IndexOf<T>(s: seq<T>, x: T): (i: nat)
    requires x in s
    ensures i < |s| && s[i] == x
  {
    if s[0] == x then 0 else 1 + IndexOf(s[1..], x)
  }

  ghost function Without<T>(s: seq<T>, x: T): seq<T>
    requires x in s
  {
    s[..IndexOf(s, x)] + s[IndexOf(s, x) + 1..]
  }

  lemma WithoutDistinct<T>(s: seq<T>, x: T)
    requires Distinct(s) && x in s
    ensures Distinct(Without(s, x)) && |Without(s, x)| == |s| - 1
    ensures forall y :: y in Without(s, x) <==> y in s && y != x
  {
    var i := IndexOf(s, x);
    forall y | y in s && y != x
      ensures y in Without(s, x)
    {
      var k :| 0 <= k < |s| && s[k] == y;
      assert y == Without(s, x)[if k < i then k else k - 1];
    }
  }

  lemma {:induction false} HeldAppend<T>(own: Graph<T>, xs: seq<T>, ys: seq<T>)
    requires (forall x | x in xs :: x in own) && (forall y | y in ys :: y in own)
    ensures Held(own, xs + ys) == Held(own, xs) + Held(own, ys)
  {
    if xs == [] {
      assert xs + ys == ys;
    } else {
      assert (xs + ys)[1..] == xs[1..] + ys;
      HeldAppend(own, xs[1..], ys);
    }
  }

  lemma HeldWithout<T>(own: Graph<T>, xs: seq<T>, x: T)
    requires x in xs && forall y | y in xs :: y in own
    ensures forall y | y in Without(xs, x) :: y in own
    ensures Held(own, xs) == Held(own, Without(xs, x)) + multiset(own[x])
  {
    var i := IndexOf(xs, x);
    assert xs == xs[..i] + ([x] + xs[i + 1..]);
    HeldAppend(own, xs[..i], [x] + xs[i + 1..]);
    HeldAppend(own, xs[..i], xs[i + 1..]);
    assert ([x] + xs[i + 1..])[1..] == xs[i + 1..];
  }

  /** The objects in `xs` own every reference counted in `Held`. */
  lemma {:induction false} HeldHasOwner<T>(own: Graph<T>, xs: seq<T>, y: T)
    requires (forall x | x in xs :: x in own) && y in Held(own, xs)
    ensures exists x :: x in xs && y in own[x]
  {
    if y in own[xs[0]] {
      assert xs[0] in xs;
    } else {
      HeldHasOwner(own, xs[1..], y);
    }
  }

  ghost predicate MayDrop<T>(own: Graph<T>, s: State<T>, x: T) {
    Sound(own, s) && x in s.live && (s.pending[x] > 0 || Total(own, s)[x] == 0)
  }

  /** The state once `x` is being freed and none of its references has been dropped yet. */
  ghost function Begin<T>(own: Graph<T>, s: State<T>, x: T): State<T>
    requires x in s.live && x in own
  {
    State(Without(s.live, x), s.pending - multiset{x} + multiset(own[x]), s.freed)
  }

  lemma BeginTotal<T>(own: Graph<T>, s: State<T>, x: T)
    requires MayDrop(own, s, x)
    ensures forall y | y in Begin(own, s, x).live :: y in own
    ensures Total(own, Begin(own, s, x)) == Total(own, s) - multiset{x}
  {
    WithoutDistinct(s.live, x);
    HeldWithout(own, s.live, x);
  }

  lemma BeginSound<T>(own: Graph<T>, s: State<T>, x: T)
    requires MayDrop(own, s, x) && Total(own, s)[x] <= 1
    ensures Sound(own, Begin(own, s, x)) && |Begin(own, s, x).live| == |s.live| - 1
    ensures multiset(own[x]) <= Begin(own, s, x).pending
  {
    WithoutDistinct(s.live, x);
    BeginTotal(own, s, x);
  }

  lemma KeepSound<T>(own: Graph<T>, s: State<T>, x: T)
    requires MayDrop(own, s, x) && Total(own, s)[x] > 1
    ensures var k := s.(pending := s.pending - multiset{x});
            Sound(own, k) && Total(own, k) == Total(own, s) - multiset{x} && Released(own, s, k)
  {
    var k := s.(pending := s.pending - multiset{x});
    assert Total(own, k) == Total(own, s) - multiset{x};
  }

  /** What the start of freeing `x` changes: `x` is no longer live, and one reference is gone. */
  ghost predicate Began<T>(own: Graph<T>, s: State<T>, x: T, b: State<T>)
    requires Sound(own, s) && Sound(own, b)
  {
    && x in s.live && x !in b.live && |b.live| < |s.live| && b.freed == s.freed
    && (forall y | y in s.live && y != x :: y in b.live)
    && (forall y | y in b.live :: y in s.live)
    && (forall y | y in b.live :: Total(own, b)[y] == Total(own, s)[y])
  }

  lemma BeginBegan<T>(own: Graph<T>, s: State<T>, x: T)
    requires MayDrop(own, s, x) && Total(own, s)[x] <= 1
    ensures Sound(own, Begin(own, s, x)) && Began(own, s, x, Begin(own, s, x))
  {
    BeginSound(own, s, x);
    WithoutDistinct(s.live, x);
    BeginTotal(own, s, x);
  }

  /** From the start to the end of freeing `x`, given what dropping its references did. */
  lemma FinishSound<T>(own: Graph<T>, s: State<T>, x: T, b: State<T>, m: State<T>)
    requires Sound(own, s) && Sound(own, b) && Began(own, s, x, b)
    requires Sound(own, m) && Released(own, b, m)
    ensures var k := m.(freed := m.freed + {x}); Sound(own, k) && Released(own, s, k)
  {
    hide Held, Distinct;
    assert Total(own, m.(freed := m.freed + {x})) == Total(own, m);
    hide Total;
  }

  lemma ReleasedTransitive<T>(own: Graph<T>, s: State<T>, m: State<T>, k: State<T>)
    requires Sound(own, s) && Sound(own, m) && Sound(own, k)
    requires Released(own, s, m) && Released(own, m, k)
    ensures Released(own, s, k)
  {
    hide Sound, Total;
  }

  lemma NextPending<T>(own: Graph<T>, s: State<T>, xs: seq<T>)
    requires Sound(own, s) && xs != [] && multiset(xs) <= s.pending
    ensures MayDrop(own, s, xs[0])
    ensures multiset(xs) == multiset{xs[0]} + multiset(xs[1..])
    ensures multiset(xs[1..]) <= s.pending - multiset{xs[0]}
  {
    hide Held;
    assert xs == [xs[0]] + xs[1..];
    assert xs[0] in s.pending;
    assert xs[0] in Total(own, s);
  }

  /**
   * Dropping a reference to `x`: with the last one `x` drops its own references and is freed.
   * No freed object is dropped, and none is freed twice.
   */
  ghost function Drop<T>(own: Graph<T>, s: State<T>, x: T): (k: State<T>)
    requires MayDrop(own, s, x)
    ensures Sound(own, k) && Released(own, s, k)
    ensures k.pending == s.pending - multiset{x}
    ensures x in k.freed <==> Total(own, s)[x] <= 1
    decreases |s.live|, 0, 0
  {
    if Total(own, s)[x] > 1 then
      KeepSound(own, s, x);
      s.(pending := s.pending - multiset{x})
    else
      BeginSound(own, s, x);
      BeginBegan(own, s, x);
      var m := DropAll(own, Begin(own, s, x), own[x]);
      FinishSound(own, s, x, Begin(own, s, x), m);
      m.(freed := m.freed + {x})
  }

  ghost function DropAll<T>(own: Graph<T>, s: State<T>, xs: seq<T>): (k: State<T>)
    requires Sound(own, s) && multiset(xs) <= s.pending
    ensures Sound(own, k) && Released(own, s, k)
    ensures k.pending == s.pending - multiset(xs)
    decreases |s.live|, 1, |xs|
  {
    if xs == [] then s else
      NextPending(own, s, xs);
      var m := Drop(own, s, xs[0]);
      var k := DropAll(own, m, xs[1..]);
      ReleasedTransitive(own, s, m, k);
      k
  }

  /** An object that owns nothing takes none with it. */
  lemma DropLeaf<T>(own: Graph<T>, s: State<T>, x: T)
    requires MayDrop(own, s, x) && own[x] == []
    ensures var k := Drop(own, s, x);
            Sound(own, k) && (x in k.freed <==> Total(own, s)[x] <= 1) &&
            forall y | y in k.live :: y in s.live && Total(own, k)[y] + (if y == x then 1 else 0) == Total(own, s)[y]
  {
    if Total(own, s)[x] <= 1 {
      DropLastLeaf(own, s, x);
    } else {
      DropKeeps(own, s, x);
    }
  }

  lemma DropLastLeaf<T>(own: Graph<T>, s: State<T>, x: T)
    requires MayDrop(own, s, x) && own[x] == [] && Total(own, s)[x] <= 1
    ensures var k := Drop(own, s, x);
            forall y | y in k.live :: y in s.live && y != x && Total(own, k)[y] == Total(own, s)[y]
  {
    BeginSound(own, s, x);
    BeginBegan(own, s, x);
    var b, k := Begin(own, s, x), Drop(own, s, x);
    assert k == b.(freed := b.freed + {x}) by {
      hide Held, Total, Begin, Sound, Distinct;
      DropLast(own, s, x);
    }
    hide Drop, Begin, Held;
    assert Total(own, k) == Total(own, b);
    hide Total, Distinct, Sound;
  }

  lemma DropLast<T>(own: Graph<T>, s: State<T>, x: T)
    requires MayDrop(own, s, x) && Total(own, s)[x] <= 1
    requires Sound(own, Begin(own, s, x)) && multiset(own[x]) <= Begin(own, s, x).pending
    ensures var b := Begin(own, s, x);
            Drop(own, s, x) == DropAll(own, b, own[x]).(freed := DropAll(own, b, own[x]).freed + {x})
    ensures own[x] == [] ==> DropAll(own, Begin(own, s, x), own[x]) == Begin(own, s, x)
  {
    hide Held, Total, Begin, Sound, Distinct, Released;
  }

  lemma DropKeeps<T>(own: Graph<T>, s: State<T>, x: T)
    requires MayDrop(own, s, x) && Total(own, s)[x] > 1
    ensures var k := Drop(own, s, x);
            Sound(own, k) && forall y | y in k.live ::
              y in s.live && Total(own, k)[y] + (if y == x then 1 else 0) == Total(own, s)[y]
  {
    KeepSound(own, s, x);
    hide Held, Distinct;
    assert Drop(own, s, x) == s.(pending := s.pending - multiset{x});
  }

  lemma DropFrees<T>(own: Graph<T>, s: State<T>, x: T)
    requires MayDrop(own, s, x) && Total(own, s)[x] <= 1
    ensures var b := Begin(own, s, x);
            Sound(own, b) && multiset(own[x]) <= b.pending && |b.live| < |s.live| &&
            x !in b.live && x !in b.freed &&
            Drop(own, s, x) == DropAll(own, b, own[x]).(freed := DropAll(own, b, own[x]).freed + {x}) &&
            forall y | y in b.live ::
              y in s.live && Total(own, b)[y] + (if y == x then 1 else 0) == Total(own, s)[y]
  {
    BeginSound(own, s, x);
    BeginBegan(own, s, x);
    DropLast(own, s, x);
    hide Held, Distinct, Begin, Drop, DropAll, Total;
  }

  /** In `k` the first `i` of the references that the object `x`, which is being freed, held in `s` are dropped. */
  ghost predicate Collecting<T>(own: Graph<T>, s: State<T>, refs: seq<T>, k: State<T>, i: nat, x: T)
    requires Sound(own, s)
  {
    && i <= |refs| && multiset(refs) <= s.pending
    && Sound(own, k) && |k.live| <= |s.live| && x !in k.live && x !in k.freed
    && multiset(refs[i..]) <= k.pending
    && DropAll(own, s, refs) == DropAll(own, k, refs[i..])
  }

  lemma CollectingStarts<T>(own: Graph<T>, s: State<T>, refs: seq<T>, x: T)
    requires Sound(own, s) && multiset(refs) <= s.pending && x !in s.live && x !in s.freed
    ensures Collecting(own, s, refs, s, 0, x)
  {
    assert refs[0..] == refs;
  }

  lemma CollectingNext<T>(own: Graph<T>, s: State<T>, refs: seq<T>, k: State<T>, i: nat, x: T)
    requires Sound(own, s) && Collecting(own, s, refs, k, i, x) && i < |refs|
    ensures MayDrop(own, k, refs[i])
    ensures Collecting(own, s, refs, Drop(own, k, refs[i]), i + 1, x)
    ensures |Drop(own, k, refs[i]).live| <= |s.live|
  {
    hide Drop, Held, Total, Distinct;
    assert refs[i..][1..] == refs[i + 1..];
    NextPending(own, k, refs[i..]);
    var m := Drop(own, k, refs[i]);
    assert x !in m.live && x !in m.freed;
    hide Released, Sound, MayDrop;
  }

  lemma CollectingEnds<T>(own: Graph<T>, s: State<T>, refs: seq<T>, k: State<T>, x: T)
    requires Sound(own, s) && Collecting(own, s, refs, k, |refs|, x)
    ensures k == DropAll(own, s, refs)
  {
  }

  /** With no reference pending, a referenced object has a live owner. */
  lemma LiveOwner<T>(own: Graph<T>, k: State<T>, y: T) returns (z: T)
    requires Sound(own, k) && k.pending == multiset{} && Total(own, k)[y] > 0
    ensures z in k.live && z in own && y in own[z]
  {
    HeldHasOwner(own, k.live, y);
    z :| z in k.live && y in own[z];
  }

  /** If every live object is referenced and no reference is pending, cycles are all that is left. */
  lemma ReferencedIsEmpty<T>(own: Graph<T>, k: State<T>)
    requires Acyclic(own) && Sound(own, k) && k.pending == multiset{}
    requires forall y | y in k.live :: Total(own, k)[y] > 0
    ensures k.live == []
  {
    var rest := set y | y in k.live;
    assert rest <= own.Keys;
    forall y | y in rest
      ensures HasPredecessor(own, rest, y)
    {
      hide *;
      var z := LiveOwner(own, k, y);
      assert z in rest;
      Owned(own, rest, y, z);
    }
    hide *;
    assert k.live != [] ==> k.live[0] in rest;
    SourcelessIs(own, rest);
    SourcelessIsEmpty(own, rest);
  }

  lemma Owned<T>(own: Graph<T>, rest: set<T>, y: T, z: T)
    requires rest <= own.Keys && z in rest && y in own[z]
    ensures HasPredecessor(own, rest, y)
  {
  }

  lemma SourcelessIs<T>(own: Graph<T>, rest: set<T>)
    requires rest <= own.Keys && forall y | y in rest :: HasPredecessor(own, rest, y)
    ensures Sourceless(own, rest)
  {
  }

  /** Releasing the only object nobody refers to frees every object of an acyclic graph. */
  lemma EverythingFreed<T>(own: Graph<T>, s: State<T>, x: T)
    requires MayDrop(own, s, x) && Acyclic(own) && s.pending == multiset{}
    requires forall y | y in s.live && y != x :: Total(own, s)[y] > 0
    ensures Drop(own, s, x).live == []
    ensures Drop(own, s, x).freed == s.freed + set y | y in s.live
  {
    var k := Drop(own, s, x);
    hide Acyclic, Drop, Total;
    assert x !in k.live;
    ReferencedIsEmpty(own, k);
  }
}
