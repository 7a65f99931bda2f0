/** Coercion of the arguments of a message to the types a handler asks for. */
module Coercion {
  import opened Bytes
  import opened OscArgs
  import opened Memory
  import opened ArgMemory
  import opened Messages

  predicate IsNumerical(t: byte) { t in [LO_INT32, LO_FLOAT, LO_INT64, LO_DOUBLE] }

  predicate IsString(t: byte) { t in [LO_STRING, LO_SYMBOL] }

  predicate CanCoerce(a: byte, b: byte) {
    a == b || (IsNumerical(a) && IsNumerical(b)) || (IsString(a) && IsString(b))
  }

  /** Pair by pair: numbers to numbers of another type, and strings and symbols to one another. */
  lemma CoercionTable(a: byte, b: byte)
    ensures var i, f, h, d, s, S := 105, 102, 104, 100, 115, 83;
            CanCoerce(a, b) <==>
            a == b ||
            (a, b) in {(i, f), (i, h), (i, d), (f, i), (f, h), (f, d), (h, i), (h, f), (h, d), (d, i), (d, f), (d, h),
                       (s, S), (S, s)}
  {
  }

  method CanCoerceSpec(a: CString, b: CString) returns (can: bool)
    ensures can == Coercible(a, b)
  {
    if |a| != |b| {
      return false;
    }
    var i := 0;
    while i < |a|
      invariant i <= |a| && forall k | 0 <= k < i :: CanCoerce(a[k], b[k])
    {
      if !CanCoerce(a[i], b[i]) {
        return false;
      }
      i := i + 1;
    }
    return true;
  }

  predicate Coercible(a: seq<byte>, b: seq<byte>) {
    |a| == |b| && forall k | 0 <= k < |a| :: CanCoerce(a[k], b[k])
  }

  /** A number of the given type; the value of a conversion is a parameter of this model. */
  type Conversion = (byte, Arg) -> DoubleWord

  function Number(tag: byte, w: DoubleWord): Arg {
    if tag == LO_INT32 then Int32(w.lo)
    else if tag == LO_INT64 then Int64(w)
    else if tag == LO_FLOAT then Float(w.lo)
    else Double(w)
  }

  /** The argument `a` as one of type `tag`. */
  function Target(convert: Conversion, a: Arg, tag: byte): (t: Arg)
    requires CanCoerce(Tag(a), tag)
    ensures Tag(t) == tag
  {
    if Tag(a) == tag then a
    else if IsString(tag) then if tag == LO_STRING then String(a.s) else Symbol(a.s)
    else Number(tag, convert(tag, a))
  }

  function Targets(convert: Conversion, args: seq<Arg>, tags: seq<byte>): (ts: seq<Arg>)
    requires Coercible(Tags(args), tags)
    ensures |ts| == |args|
  {
    seq(|args|, i requires 0 <= i < |args| => Target(convert, args[i], tags[i]))
  }

  /** The bytes hold the whole of `a`; what pads a string is left as it was. */
  ghost predicate HoldsArg(b: seq<byte>, a: Arg) {
    |b| == |Host(a)| && if a.String? || a.Symbol? then b[..|a.s| + 1] == a.s + [0] else b == Host(a)
  }

  /** The size computed before the conversion, from the source argument, is that of the target. */
  lemma TargetSize(convert: Conversion, a: Arg, tag: byte, rest: seq<byte>)
    requires CanCoerce(Tag(a), tag)
    ensures tag == LO_BLOB ==> |Host(a)| >= 4
    ensures ArgSize(tag, Host(a) + rest) == |Host(Target(convert, a, tag))|
  {
    ArgSizeHost(a, rest);
    BlobHasCount(a);
    if Tag(a) != tag {
      hide StrLen, Pad, WordOf;
    }
  }

  /** The size computed after the conversion, from what has been written. */
  lemma HeldSize(b: seq<byte>, a: Arg, rest: seq<byte>)
    requires HoldsArg(b, a)
    ensures ArgSize(Tag(a), b + rest) == |Host(a)|
  {
    if a.String? || a.Symbol? {
      assert (b + rest)[..|a.s|] == b[..|a.s| + 1][..|a.s|] == a.s;
      assert (b + rest)[|a.s|] == b[..|a.s| + 1][|a.s|] == 0;
      StrLenUnique(b + rest, |a.s|);
    } else {
      ArgSizeHost(a, rest);
    }
  }

  /** The number in host order at the start of `b`. */
  function NumberAt(tag: byte, b: seq<byte>): Arg
    requires IsNumerical(tag) && |b| >= if tag in [LO_INT32, LO_FLOAT] then 4 else 8
  {
    if tag == LO_INT32 then Int32(FromLe32(b))
    else if tag == LO_FLOAT then Float(FromLe32(b))
    else if tag == LO_INT64 then Int64(DoubleWord(FromLe32(b[4..]), FromLe32(b)))
    else Double(DoubleWord(FromLe32(b[4..]), FromLe32(b)))
  }

  lemma SameTypeFacts(convert: Conversion, a: Arg, rest: seq<byte>)
    ensures Tag(a) == LO_BLOB ==> |Host(a)| >= 4
    ensures var from := Host(a) + rest;
            ArgSize(Tag(a), from) == |Host(a)| && from[..|Host(a)|] == Host(a) && Target(convert, a, Tag(a)) == a
  {
    hide Host, ArgSize;
    ArgSizeHost(a, rest);
    BlobHasCount(a);
  }

  lemma StringFacts(convert: Conversion, a: Arg, tag: byte, rest: seq<byte>)
    requires IsString(Tag(a)) && IsString(tag) && Tag(a) != tag
    ensures var from, t := Host(a) + rest, Target(convert, a, tag);
            (t.String? || t.Symbol?) && from[..StrLen(from)] == t.s
  {
    StrLenPad(a.s, rest);
    hide StrLen, Pad;
  }

  lemma NumberFacts(convert: Conversion, a: Arg, tag: byte, rest: seq<byte>)
    requires IsNumerical(Tag(a)) && IsNumerical(tag) && Tag(a) != tag
    ensures var from := Host(a) + rest;
            |from| >= (if Tag(a) in [LO_INT32, LO_FLOAT] then 4 else 8) && NumberAt(Tag(a), from) == a &&
            Target(convert, a, tag) == Number(tag, convert(tag, a))
  {
  }

  /** One argument, from the start of `from` to the offset `off` of `to`; nothing if its type cannot be coerced. */
  method LoCoerce(convert: Conversion, tagTo: byte, to: array<byte>, off: nat,
                  tagFrom: byte, from: seq<byte>, ghost a: Arg, ghost rest: seq<byte>) returns (ok: bool)
    requires tagFrom == Tag(a) && from == Host(a) + rest
    requires CanCoerce(tagFrom, tagTo) ==> off + |Host(Target(convert, a, tagTo))| <= to.Length
    modifies to
    ensures ok == CanCoerce(tagFrom, tagTo)
    ensures !ok ==> to[..] == old(to[..])
    ensures ok ==>
              var n := |Host(Target(convert, a, tagTo))|;
              HoldsArg(to[off..off + n], Target(convert, a, tagTo)) &&
              to[..off] == old(to[..off]) && to[off + n..] == old(to[off + n..])
  {
    hide Host, Tag, ArgSize, Target, NumberAt, Number, StrLen, Splice, HoldsArg, IsNumerical, IsString;
    ghost var before := to[..];
    if tagTo == tagFrom {
      SameTypeFacts(convert, a, rest);
      var size := ArgSize(tagFrom, from);
      Memcpy(to, off, from[..size]);
      WholeWritten(before, off, Host(a), a);
      return true;
    }
    if IsString(tagTo) && IsString(tagFrom) {
      ghost var t := Target(convert, a, tagTo);
      StringFacts(convert, a, tagTo, rest);
      StringFits(t);
      Memcpy(to, off, from[..StrLen(from)] + [0]);
      StringWritten(before, off, t);
      return true;
    }
    if IsNumerical(tagTo) && IsNumerical(tagFrom) {
      ghost var t := Target(convert, a, tagTo);
      NumberFacts(convert, a, tagTo, rest);
      Memcpy(to, off, Host(Number(tagTo, convert(tagTo, NumberAt(tagFrom, from)))));
      WholeWritten(before, off, Host(t), t);
      return true;
    }
    return false;
  }

  lemma StringFits(a: Arg)
    requires a.String? || a.Symbol?
    ensures |a.s| + 1 <= |Host(a)|
  {
  }

  lemma WholeWritten(b: seq<byte>, off: nat, s: seq<byte>, a: Arg)
    requires off + |s| <= |b| && s == Host(a)
    ensures var r := Splice(b, off, s);
            HoldsArg(r[off..off + |s|], a) && r[..off] == b[..off] && r[off + |s|..] == b[off + |s|..]
  {
    hide Host;
    assert Splice(b, off, s)[off..off + |s|] == s;
    StringHeld(a);
  }

  lemma StringHeld(a: Arg)
    ensures HoldsArg(Host(a), a)
  {
  }

  lemma StringWritten(b: seq<byte>, off: nat, a: Arg)
    requires (a.String? || a.Symbol?) && off + |Host(a)| <= |b|
    ensures var r, n := Splice(b, off, a.s + [0]), |Host(a)|;
            HoldsArg(r[off..off + n], a) && r[..off] == b[..off] && r[off + n..] == b[off + n..]
  {
    StringFits(a);
    hide Host;
    var s, n := a.s + [0], |Host(a)|;
    var r := Splice(b, off, s);
    assert r[off..off + |s|] == s;
    assert r[off..off + n][..|s|] == r[off..off + |s|];
    assert r[off + n..] == b[off + n..];
  }

  /** First pass over the arguments: the bytes the coerced ones need. */
  method CoercedSize(convert: Conversion, m: LoMessage, spec: CString) returns (size: nat)
    requires m.Valid() && Coercible(Tags(m.args), spec)
    ensures size == |HostData(Targets(convert, m.args, spec))|
  {
    hide *;
    var i, ptr: nat := 0, 0;
    ghost var ts := Targets(convert, m.args, spec);
    size := 0;
    ArgumentsStart(m, ts);
    while i < m.typelen - 1
      invariant i <= |m.args| == m.typelen - 1 && |ts| == |m.args|
      invariant ptr == |HostData(m.args[..i])| && size == |HostData(ts[..i])|
    {
      ArgumentAt(convert, m, spec, i, ptr);
      size := size + ArgSize(spec[i], m.data[ptr..m.datalen]);
      var len := m.SizeAt(i, ptr);
      ptr := ptr + len;
      i := i + 1;
    }
    ArgumentsEnd(ts);
  }

  lemma ArgumentsStart(m: LoMessage, ts: seq<Arg>)
    requires m.Valid()
    ensures |m.args| == m.typelen - 1 && HostData(m.args[..0]) == HostData(ts[..0]) == []
  {
  }

  lemma ArgumentsEnd(ts: seq<Arg>)
    ensures ts[..|ts|] == ts
  {
  }

  /** The i-th argument of a message, where it lies in its data, and its target. */
  lemma ArgumentAt(convert: Conversion, m: LoMessage, spec: CString, i: nat, ptr: nat)
    requires m.Valid() && Coercible(Tags(m.args), spec) && i < |m.args| && ptr == |HostData(m.args[..i])|
    ensures i < |spec| && CanCoerce(Tag(m.args[i]), spec[i])
    ensures i + 1 < m.types.Length && m.types[i + 1] == Tag(m.args[i])
    ensures ptr <= m.datalen <= m.data.Length
    ensures m.data[ptr..m.datalen] == Host(m.args[i]) + HostData(m.args[i + 1..])
    ensures var t, ts := Target(convert, m.args[i], spec[i]), Targets(convert, m.args, spec);
            t == ts[i] && (spec[i] == LO_BLOB ==> m.datalen - ptr >= 4) &&
            ArgSize(spec[i], m.data[ptr..m.datalen]) == |Host(t)| &&
            |HostData(ts[..i + 1])| == |HostData(ts[..i])| + |Host(t)| <= |HostData(ts)|
  {
    hide Host, HostData, Net, NetData, ArgSize, Tag, Target;
    var a, rest, ts := m.args[i], HostData(m.args[i + 1..]), Targets(convert, m.args, spec);
    HostDataAt(m.args, i);
    HostDataAt(ts, i);
    TargetSize(convert, a, spec[i], rest);
    assert m.data[ptr..m.datalen] == m.data[..m.datalen][ptr..] == Host(a) + rest;
    assert m.types[i + 1] == m.types[..m.typelen][i + 1] == Tag(a);
  }

  /**
   * The layout of coerced arguments: the i-th starts where the sizes of those in front of it add
   * up to, and the whole of it is there, before the next.
   */
  ghost predicate Laid(b: seq<byte>, argv: seq<nat>, ts: seq<Arg>) {
    && |argv| <= |ts|
    && forall j | 0 <= j < |argv| :: Slot(b, argv[j], ts, j, |HostData(ts[..|argv|])|)
  }

  /** A string and an int32, laid out as a symbol and an int32: eight bytes, the pointers four apart. */
  lemma LaidExample(b: seq<byte>, argv: seq<nat>, w: Word)
    requires Laid(b, argv, [Symbol([104, 105]), Int32(w)]) && |argv| == 2
    ensures argv == [0, 4] && |b| >= 8 && b[..3] == [104, 105, 0] && b[4..8] == [w.b0, w.b1, w.b2, w.b3]
  {
    var ts := [Symbol([104, 105]), Int32(w)];
    assert ts[..0] == [] && ts[..1] == [ts[0]] && ts[..2] == ts;
    DataOne(ts[0]);
    assert |Host(ts[0])| == 4 && |Host(ts[1])| == 4;
    assert Slot(b, argv[0], ts, 0, |HostData(ts[..2])|) && Slot(b, argv[1], ts, 1, |HostData(ts[..2])|);
    assert b[0..4][..3] == b[..3];
  }

  ghost predicate Slot(b: seq<byte>, ptr: nat, ts: seq<Arg>, j: nat, limit: nat)
    requires j < |ts|
  {
    && ptr == |HostData(ts[..j])| && ptr + |Host(ts[j])| <= limit <= |b|
    && HoldsArg(b[ptr..ptr + |Host(ts[j])|], ts[j])
  }

  lemma SlotStays(before: seq<byte>, after: seq<byte>, ptr: nat, ts: seq<Arg>, j: nat, off: nat, limit: nat)
    requires j < |ts| && Slot(before, ptr, ts, j, off) && off <= limit <= |after| == |before|
    requires after[..off] == before[..off]
    ensures Slot(after, ptr, ts, j, limit)
  {
    hide HoldsArg, Host, HostData;
    SliceWithin(before, off, ptr, ptr + |Host(ts[j])|);
    SliceWithin(after, off, ptr, ptr + |Host(ts[j])|);
  }

  lemma SliceWithin(b: seq<byte>, off: nat, i: nat, j: nat)
    requires i <= j <= off <= |b|
    ensures b[..off][i..j] == b[i..j]
  {
  }

  lemma LaidNext(before: seq<byte>, after: seq<byte>, argv: seq<nat>, ts: seq<Arg>)
    requires Laid(before, argv, ts) && |argv| < |ts| && |HostData(ts)| <= |after| == |before|
    requires var off, t := |HostData(ts[..|argv|])|, ts[|argv|];
             off + |Host(t)| <= |after| && after[..off] == before[..off] && HoldsArg(after[off..off + |Host(t)|], t)
    ensures Laid(after, argv + [|HostData(ts[..|argv|])|], ts)
  {
    hide HoldsArg, Host, HostData, Slot, Net, NetData;
    var i, off := |argv|, |HostData(ts[..|argv|])|;
    HostDataAt(ts, i);
    forall j | 0 <= j < i
      ensures Slot(after, argv[j], ts, j, off + |Host(ts[i])|)
    {
      SlotStays(before, after, argv[j], ts, j, off, off + |Host(ts[i])|);
    }
    SlotNew(after, ts, i);
  }

  lemma SlotNew(b: seq<byte>, ts: seq<Arg>, i: nat)
    requires i < |ts|
    requires var ptr, n := |HostData(ts[..i])|, |Host(ts[i])|; ptr + n <= |b| && HoldsArg(b[ptr..ptr + n], ts[i])
    ensures Slot(b, |HostData(ts[..i])|, ts, i, |HostData(ts[..i])| + |Host(ts[i])|)
  {
  }

  /** Both passes: the arguments of a message coerced to the types of `spec`. */
  method CoerceArgs(convert: Conversion, m: LoMessage, spec: CString) returns (co: array<byte>, argv: seq<nat>)
    requires m.Valid() && Coercible(Tags(m.args), spec)
    ensures fresh(co) && |argv| == |m.args|
    ensures var ts := Targets(convert, m.args, spec);
            co.Length == |HostData(ts)| && Laid(co[..], argv, ts)
  {
    var opsize := CoercedSize(convert, m, spec);
    co := new byte[opsize];
    argv := LayArgs(convert, m, spec, co);
  }

  /** Second pass: coerces one argument after the other into `co`. */
  method LayArgs(convert: Conversion, m: LoMessage, spec: CString, co: array<byte>) returns (argv: seq<nat>)
    requires m.Valid() && Coercible(Tags(m.args), spec) && co != m.types && co != m.data
    requires co.Length == |HostData(Targets(convert, m.args, spec))|
    modifies co
    ensures |argv| == |m.args| && Laid(co[..], argv, Targets(convert, m.args, spec))
  {
    hide *;
    ghost var ts := Targets(convert, m.args, spec);
    argv := [];
    var i, ptr, off: nat := 0, 0, 0;
    ArgumentsStart(m, ts);
    LaidStart(co[..], ts);
    while i < m.typelen - 1
      invariant i <= |m.args| == m.typelen - 1 && |ts| == |m.args| && m.Valid()
      invariant ptr == |HostData(m.args[..i])| && off == |HostData(ts[..i])|
      invariant |argv| == i && Laid(co[..], argv, ts)
    {
      ArgumentAt(convert, m, spec, i, ptr);
      ghost var before := co[..];
      var _ := LoCoerce(convert, spec[i], co, off, m.types[i + 1], m.data[ptr..m.datalen], m.args[i],
                        HostData(m.args[i + 1..]));
      LaidNext(before, co[..], argv, ts);
      HeldAt(co[..], off, ts[i]);
      argv := argv + [off];
      off := off + ArgSize(spec[i], co[off..]);
      var len := m.SizeAt(i, ptr);
      ptr := ptr + len;
      i := i + 1;
    }
  }

  lemma LaidStart(b: seq<byte>, ts: seq<Arg>)
    ensures Laid(b, [], ts)
  {
    assert ts[..0] == [];
  }

  lemma HeldAt(b: seq<byte>, off: nat, t: Arg)
    requires off + |Host(t)| <= |b| && HoldsArg(b[off..off + |Host(t)|], t)
    ensures Tag(t) == LO_BLOB ==> |b| - off >= 4
    ensures ArgSize(Tag(t), b[off..]) == |Host(t)|
  {
    hide HoldsArg, Host, ArgSize;
    HeldSize(b[off..off + |Host(t)|], t, b[off + |Host(t)|..]);
    assert b[off..] == b[off..off + |Host(t)|] + b[off + |Host(t)|..];
    BlobHasCount(t);
  }
}
