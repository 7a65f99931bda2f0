/** Message objects: building, serialising and deserialising. */
module Messages {
  import opened Bytes
  import opened OscArgs
  import opened Varargs
  import opened Memory
  import opened ArgMemory
  import opened Validators
  import opened Packets

  const LO_DEF_TYPE_SIZE := 8
  const LO_DEF_DATA_SIZE := 8

  /** Offset of each argument in the data of a message; none for an argument without data. */
  function Offsets(args: seq<Arg>): (r: seq<Option<nat>>)
    ensures |r| == |args|
  {
    seq(|args|, i requires 0 <= i < |args| =>
      if |Host(args[i])| == 0 then None else Some(|HostData(args[..i])|))
  }

  lemma OffsetsAppend(args: seq<Arg>, a: Arg)
    ensures Offsets(args + [a]) ==
            Offsets(args) + [if |Host(a)| == 0 then None else Some(|HostData(args)|)]
  {
    hide HostData, Host;
    var xs := args + [a];
    assert xs[..|args|] == args;
    forall i | 0 <= i < |args|
      ensures Offsets(xs)[i] == Offsets(args)[i]
    {
      assert xs[..i] == args[..i];
    }
  }

  /** The data of a message, cut at its i-th argument. */
  lemma HostDataAt(args: seq<Arg>, i: nat)
    requires i < |args|
    ensures HostData(args) == HostData(args[..i]) + HostData(args[i..])
    ensures HostData(args[i..]) == Host(args[i]) + HostData(args[i + 1..])
    ensures HostData(args[..i + 1]) == HostData(args[..i]) + Host(args[i])
  {
    hide Host, Net, HostData, NetData;
    DataAppendOne(args[..i], args[i]);
    assert args[..i + 1] == args[..i] + [args[i]];
    assert args == args[..i] + args[i..];
    HostAppend(args[..i], args[i..]);
    HostDataHead(args[i..]);
    assert args[i..][1..] == args[i + 1..];
  }

  lemma HostDataHead(args: seq<Arg>)
    requires args != []
    ensures HostData(args) == Host(args[0]) + HostData(args[1..])
  {
    hide Host;
  }

  lemma NetDataAt(args: seq<Arg>, i: nat)
    requires i < |args|
    ensures NetData(args[..i + 1]) == NetData(args[..i]) + Net(args[i])
  {
    hide Host, Net, HostData, NetData;
    DataAppendOne(args[..i], args[i]);
    assert args[..i + 1] == args[..i] + [args[i]];
  }

  /** A buffer whose first `i` arguments are in network order. */
  ghost function HalfConverted(pre: seq<byte>, args: seq<Arg>, i: nat, post: seq<byte>): seq<byte>
    requires i <= |args|
  {
    pre + NetData(args[..i]) + (HostData(args[i..]) + post)
  }

  lemma HalfConvertedStep(pre: seq<byte>, args: seq<Arg>, i: nat, post: seq<byte>)
    requires i < |args|
    ensures var done, rest := pre + NetData(args[..i]), HostData(args[i + 1..]) + post;
            HalfConverted(pre, args, i, post) == done + (Host(args[i]) + rest) &&
            HalfConverted(pre, args, i + 1, post) == done + (Net(args[i]) + rest) &&
            |NetData(args[..i + 1])| == |NetData(args[..i])| + |Net(args[i])|
  {
    hide Host, Net, HostData, NetData;
    HostDataAt(args, i);
    NetDataAt(args, i);
  }

  lemma HalfConvertedEnds(pre: seq<byte>, args: seq<Arg>, post: seq<byte>)
    ensures HalfConverted(pre, args, 0, post) == pre + HostData(args) + post
    ensures HalfConverted(pre, args, |args|, post) == pre + NetData(args) + post
  {
    hide HostData, NetData;
    NoData();
    assert args[..0] == [] && args[0..] == args && args[..|args|] == args && args[|args|..] == [];
    Associated(pre, [], HostData(args), post);
    Associated(pre, NetData(args), [], post);
  }

  lemma Associated(a: seq<byte>, b: seq<byte>, c: seq<byte>, d: seq<byte>)
    ensures a + b + (c + d) == a + (b + c) + d
    ensures b == [] ==> b + c == c
    ensures c == [] ==> b + c == b
  {
  }

  class LoMessage {
    var types: array<byte>
    var typelen: nat
    var data: array<byte>
    var datalen: nat
    var argv: Option<seq<Option<nat>>>
    var refcount: int
    ghost var args: seq<Arg>

    /** The type string and the data in host order are those of the arguments added so far. */
    ghost predicate Valid()
      reads this, types, data
    {
      && types != data
      && typelen < types.Length && types[typelen] == 0
      && types[..typelen] == TypeString(args)
      && datalen <= data.Length
      && data[..datalen] == HostData(args)
      && (argv.Some? ==> argv.value == Offsets(args))
    }

    constructor New()
      ensures Valid() && args == [] && refcount == 0 && fresh(types) && fresh(data)
    {
      types := new byte[LO_DEF_TYPE_SIZE](i => if i == 0 then COMMA else 0);
      typelen := 1;
      data := new byte[0];
      datalen := 0;
      argv := None;
      refcount := 0;
      args := [];
    }

    constructor FromParts(types: array<byte>, typelen: nat, data: array<byte>, datalen: nat,
                          argv: Option<seq<Option<nat>>>, ghost args: seq<Arg>)
      ensures this.types == types && this.typelen == typelen
      ensures this.data == data && this.datalen == datalen
      ensures this.argv == argv && this.args == args && this.refcount == 0
    {
      this.types, this.typelen := types, typelen;
      this.data, this.datalen := data, datalen;
      this.argv, this.args := argv, args;
      this.refcount := 0;
    }

    /** Appends a type character, doubling the type buffer when only its terminator fits. */
    method AddTypechar(t: byte)
      requires types != data && 0 < typelen < types.Length
      modifies this`types, this`typelen, this`argv, types
      ensures types == old(types) || fresh(types)
      ensures typelen == old(typelen) + 1 < types.Length && types[typelen] == 0
      ensures types[..typelen] == old(types[..typelen]) + [t]
      ensures argv == None
    {
      if typelen + 1 >= types.Length {
        var n := types.Length * 2;
        if n == 0 {
          n := LO_DEF_TYPE_SIZE;
        }
        types := Realloc(types, n);
      }
      types[typelen] := t;
      typelen := typelen + 1;
      types[typelen] := 0;
      argv := None;
    }

    /** Makes room for `n` more bytes of data, at the returned offset. */
    method AddData(n: nat) returns (nptr: nat)
      requires datalen <= data.Length
      modifies this`data, this`datalen, this`argv
      ensures fresh(data)
      ensures nptr == old(datalen) && datalen == nptr + n <= data.Length
      ensures data[..nptr] == old(data[..datalen])
      ensures argv == None
    {
      var size := if data.Length == 0 then LO_DEF_DATA_SIZE else data.Length;
      while datalen + n > size
        invariant size >= data.Length && size > 0
      {
        size := size * 2;
      }
      nptr := datalen;
      datalen := datalen + n;
      data := Realloc(data, size);
      argv := None;
    }

    /** The part common to all arguments with data: room, then the type. */
    method Reserve(ghost a: Arg, tag: byte, n: nat) returns (nptr: nat)
      requires Valid() && tag == Tag(a) && n == |Host(a)|
      modifies this, types
      ensures (types == old(types) || fresh(types)) && fresh(data) && types != data
      ensures nptr + n == datalen <= data.Length
      ensures typelen < types.Length && types[typelen] == 0
      ensures types[..typelen] == TypeString(old(args) + [a])
      ensures nptr == |HostData(old(args))| && data[..nptr] == HostData(old(args))
      ensures args == old(args) && argv == None && refcount == old(refcount)
    {
      nptr := AddData(n);
      AddTypechar(tag);
      TypesAppendOne(args, a);
    }

    /** The argument whose data has just been written belongs to the message. */
    method Commit(ghost a: Arg)
      requires types != data && typelen < types.Length && types[typelen] == 0
      requires types[..typelen] == TypeString(args + [a])
      requires datalen <= data.Length && data[..datalen] == HostData(args) + Host(a)
      requires argv == None
      modifies this`args
      ensures Valid() && args == old(args) + [a]
    {
      DataAppendOne(args, a);
      args := args + [a];
    }

    method AddFlag(ghost a: Arg, tag: byte)
      requires Valid() && tag == Tag(a) && Host(a) == []
      modifies this, types
      ensures Valid() && args == old(args) + [a] && refcount == old(refcount)
      ensures (types == old(types) || fresh(types)) && data == old(data)
    {
      AddTypechar(tag);
      TypesAppendOne(args, a);
      Commit(a);
    }

    /** Room, type and bytes of an argument that is copied as a whole. */
    method AddBytes(ghost a: Arg, tag: byte, bytes: seq<byte>)
      requires Valid() && tag == Tag(a) && bytes == Host(a)
      modifies this, types
      ensures Valid() && args == old(args) + [a] && refcount == old(refcount)
      ensures (types == old(types) || fresh(types)) && fresh(data)
    {
      var nptr := Reserve(a, tag, |bytes|);
      Memcpy(data, nptr, bytes);
      Commit(a);
    }

    method AddInt32(w: Word)
      requires Valid()
      modifies this, types
      ensures Valid() && args == old(args) + [Int32(w)] && refcount == old(refcount)
      ensures (types == old(types) || fresh(types)) && fresh(data)
    {
      AddBytes(Int32(w), LO_INT32, Le32(w));
    }

    method AddFloat(w: Word)
      requires Valid()
      modifies this, types
      ensures Valid() && args == old(args) + [Float(w)] && refcount == old(refcount)
      ensures (types == old(types) || fresh(types)) && fresh(data)
    {
      AddBytes(Float(w), LO_FLOAT, Le32(w));
    }

    method AddString(s: CString)
      requires Valid()
      modifies this, types
      ensures Valid() && args == old(args) + [String(s)] && refcount == old(refcount)
      ensures (types == old(types) || fresh(types)) && fresh(data)
    {
      // strncpy fills the rest of the padded size with NULs
      AddBytes(String(s), LO_STRING, s + Zeros(StrSize(s) - |s|));
    }

    method AddBlob(b: BlobData)
      requires Valid()
      modifies this, types
      ensures Valid() && args == old(args) + [Blob(b)] && refcount == old(refcount)
      ensures (types == old(types) || fresh(types)) && fresh(data)
    {
      var nptr := Reserve(Blob(b), LO_BLOB, BlobSize(|b|));
      WriteBlob(data, nptr, b);
      Commit(Blob(b));
    }

    method AddInt64(w: DoubleWord)
      requires Valid()
      modifies this, types
      ensures Valid() && args == old(args) + [Int64(w)] && refcount == old(refcount)
      ensures (types == old(types) || fresh(types)) && fresh(data)
    {
      AddBytes(Int64(w), LO_INT64, Le64(w));
    }

    method AddTimetag(sec: Word, frac: Word)
      requires Valid()
      modifies this, types
      ensures Valid() && args == old(args) + [TimetagArg(sec, frac)] && refcount == old(refcount)
      ensures (types == old(types) || fresh(types)) && fresh(data)
    {
      AddBytes(TimetagArg(sec, frac), LO_TIMETAG, Le32(sec) + Le32(frac));
    }

    method AddDouble(w: DoubleWord)
      requires Valid()
      modifies this, types
      ensures Valid() && args == old(args) + [Double(w)] && refcount == old(refcount)
      ensures (types == old(types) || fresh(types)) && fresh(data)
    {
      AddBytes(Double(w), LO_DOUBLE, Le64(w));
    }

    method AddSymbol(s: CString)
      requires Valid()
      modifies this, types
      ensures Valid() && args == old(args) + [Symbol(s)] && refcount == old(refcount)
      ensures (types == old(types) || fresh(types)) && fresh(data)
    {
      AddBytes(Symbol(s), LO_SYMBOL, s + Zeros(StrSize(s) - |s|));
    }

    method AddChar(c: byte)
      requires Valid()
      modifies this, types
      ensures Valid() && args == old(args) + [Char(Word(0, 0, 0, c))] && refcount == old(refcount)
      ensures (types == old(types) || fresh(types)) && fresh(data)
    {
      AddBytes(Char(Word(0, 0, 0, c)), LO_CHAR, [c, 0, 0, 0]);
    }

    method AddMidi(m: MidiPacket)
      requires Valid()
      modifies this, types
      ensures Valid() && args == old(args) + [Midi(m)] && refcount == old(refcount)
      ensures (types == old(types) || fresh(types)) && fresh(data)
    {
      AddBytes(Midi(m), LO_MIDI, m);
    }

    method AddTrue()
      requires Valid()
      modifies this, types
      ensures Valid() && args == old(args) + [True] && refcount == old(refcount)
      ensures (types == old(types) || fresh(types)) && data == old(data)
    {
      AddFlag(True, LO_TRUE);
    }

    method AddFalse()
      requires Valid()
      modifies this, types
      ensures Valid() && args == old(args) + [False] && refcount == old(refcount)
      ensures (types == old(types) || fresh(types)) && data == old(data)
    {
      AddFlag(False, LO_FALSE);
    }

    method AddNil()
      requires Valid()
      modifies this, types
      ensures Valid() && args == old(args) + [Nil] && refcount == old(refcount)
      ensures (types == old(types) || fresh(types)) && data == old(data)
    {
      AddFlag(Nil, LO_NIL);
    }

    method AddInfinitum()
      requires Valid()
      modifies this, types
      ensures Valid() && args == old(args) + [Infinitum] && refcount == old(refcount)
      ensures (types == old(types) || fresh(types)) && data == old(data)
    {
      AddFlag(Infinitum, LO_INFINITUM);
    }

    /** The add call for the type of the argument. */
    method AddArg(a: Arg)
      requires Valid() && IsSent(a)
      modifies this, types
      ensures Valid() && args == old(args) + [a] && refcount == old(refcount)
      ensures (types == old(types) || fresh(types)) && (data == old(data) || fresh(data))
    {
      hide Valid;
      match a {
        case Int32(w) => AddInt32(w);
        case Float(w) => AddFloat(w);
        case String(s) => AddString(s);
        case Blob(b) => AddBlob(b);
        case Int64(w) => AddInt64(w);
        case TimetagArg(sec, frac) => AddTimetag(sec, frac);
        case Double(w) => AddDouble(w);
        case Symbol(s) => AddSymbol(s);
        case Char(w) => AddChar(w.b0);
        case Midi(m) => AddMidi(m);
        case True => AddTrue();
        case False => AddFalse();
        case Nil => AddNil();
        case Infinitum => AddInfinitum();
      }
    }

    /** One value for each type character that needs one, then the markers; a missing string is empty. */
    method AddVarargs(tags: CString, ap: seq<Vararg>) returns (ret: int)
      requires Valid() && Supplied(tags, ap)
      modifies this, types
      ensures Valid() && refcount == old(refcount)
      ensures Added(args, ret) == Behind(old(args), AddedBy(tags, ap, 0))
      ensures (types == old(types) || fresh(types)) && (data == old(data) || fresh(data))
    {
      hide Valid, Supplied, AddedBy, TakesData, Bare;
      var k, j := 0, 0;
      ret := 0;
      assert tags[0..] == tags && ap[0..] == ap;
      while k < |tags|
        invariant k <= |tags| && j <= |ap| && Supplied(tags[k..], ap[j..])
        invariant Valid() && refcount == old(refcount)
        invariant Behind(old(args), AddedBy(tags, ap, 0)) == Behind(args, AddedBy(tags[k..], ap[j..], ret))
        invariant (types == old(types) || fresh(types)) && (data == old(data) || fresh(data))
      {
        var t := tags[k];
        if t == DOLLAR && k + 1 < |tags| && tags[k + 1] == DOLLAR {
          AddedEnds(tags[k..], ap[j..], ret);
          return 0;
        }
        AddedStep(tags, k, ap, j, ret);
        BehindBehind(args);
        k := k + 1;
        if TakesData(t) {
          if t == LO_SYMBOL && ap[j].MarkerA? {
            return -2;
          }
          AddArg(ap[j].arg);
          j := j + 1;
        } else if Bare(t).Some? {
          BareIsSent(t);
          AddArg(Bare(t).value);
        } else {
          ret := -1;
        }
      }
      AddedEnds(tags[k..], ap[j..], ret);
      if !ap[j].MarkerA? || !ap[j + 1].MarkerB? {
        ret := -2;
      }
    }

    /** Padded length of the message in a packet. */
    method Length(path: CString) returns (n: nat)
      requires Valid()
      ensures n == |Wire(path, args)|
    {
      StrLenUnique(types[..], typelen);
      n := StrSize(path) + 4 * (StrLen(types[..]) / 4 + 1) + datalen;
    }

    /** Size of the i-th argument, which starts at `ptr`. */
    method SizeAt(i: nat, ptr: nat) returns (len: nat)
      requires Valid() && i < |args| && ptr == |HostData(args[..i])|
      ensures len == |Host(args[i])| && |HostData(args[..i + 1])| == ptr + len
    {
      hide Host, HostData, Net, NetData, ArgSize, Tag;
      HostDataAt(args, i);
      ArgSizeHost(args[i], HostData(args[i + 1..]));
      BlobHasCount(args[i]);
      assert data[ptr..datalen] == data[..datalen][ptr..] == HostData(args[i..]);
      assert types[i + 1] == types[..typelen][i + 1] == Tag(args[i]);
      len := ArgSize(types[i + 1], data[ptr..datalen]);
    }

    method GetArgv() returns (r: seq<Option<nat>>)
      requires Valid()
      modifies this`argv
      ensures Valid() && argv == Some(r) && r == Offsets(args)
    {
      hide Offsets, HostData, TypeString, ArgSize, Host;
      if argv.Some? {
        return argv.value;
      }
      r := [];
      var i, ptr := 0, 0;
      ArgumentsOf(this);
      NoData();
      while i < typelen - 1
        invariant Valid() && argv == None
        invariant i <= |args| && r == Offsets(args[..i])
        invariant ptr == |HostData(args[..i])|
      {
        var len := SizeAt(i, ptr);
        OffsetsAppend(args[..i], args[i]);
        assert args[..i + 1] == args[..i] + [args[i]];
        r := r + [if len != 0 then Some(ptr) else None];
        ptr := ptr + len;
        i := i + 1;
      }
      assert args[..i] == args;
      argv := Some(r);
    }

    /** Writes the message at `off`, converting its arguments to network order in place. */
    method Serialise(path: CString, to: array<byte>, off: nat) returns (size: nat)
      requires Valid() && to != types && to != data
      requires off + |Wire(path, args)| <= to.Length
      modifies to
      ensures size == |Wire(path, args)|
      ensures to[..] == old(Splice(to[..], off, Wire(path, args)))
    {
      size := Length(path);
      ghost var before := to[..];
      assert types[..typelen] == TypeString(args) && data[..datalen] == HostData(args);
      hide *;
      var ptr := WriteParts(to, off, path, types[..typelen], data[..datalen]);
      ghost var pre, post := WireLayout(before, off, path, args);
      ConvertArgs(to, ptr, pre, post);
    }

    method ConvertArgs(to: array<byte>, start: nat, ghost pre: seq<byte>, ghost post: seq<byte>)
      requires Valid() && to != types && to != data
      requires start == |pre| && to[..] == HalfConverted(pre, args, 0, post)
      modifies to
      ensures to[..] == HalfConverted(pre, args, |args|, post)
    {
      hide Host, Net, HostData, NetData, HalfConverted;
      var i, ptr := 0, start;
      assert args[..0] == [];
      NoData();
      while i < typelen - 1
        invariant i <= |args| && ptr == |pre| + |NetData(args[..i])|
        invariant to[..] == HalfConverted(pre, args, i, post)
      {
        HalfConvertedStep(pre, args, i, post);
        assert types[i + 1] == types[..typelen][i + 1] == Tag(args[i]);
        var len := ConvertArg(types[i + 1], to, ptr, args[i],
                              pre + NetData(args[..i]), HostData(args[i + 1..]) + post);
        ptr := ptr + len;
        i := i + 1;
      }
    }
  }

  /** Path, types and unconverted data, one after the other. */
  method WriteParts(to: array<byte>, off: nat, path: CString, tags: CString, bytes: seq<byte>)
    returns (ptr: nat)
    requires off + StrSize(path) + StrSize(tags) + |bytes| <= to.Length
    modifies to
    ensures ptr == off + StrSize(path) + StrSize(tags)
    ensures to[..] == old(Splice(Splice(Splice(to[..], off, Pad(path)), off + StrSize(path), Pad(tags)), ptr, bytes))
  {
    hide Splice, StrSize, Pad;
    WriteString(to, off, path);
    WriteString(to, off + StrSize(path), tags);
    ptr := off + StrSize(path) + StrSize(tags);
    Memcpy(to, ptr, bytes);
  }

  lemma ArgumentsOf(m: LoMessage)
    requires m.Valid()
    ensures |m.args| == m.typelen - 1 && m.args[..0] == []
  {
  }

  lemma NoData()
    ensures HostData([]) == NetData([]) == []
  {
  }

  /** The three copies of the serialiser, put together. */
  lemma WireLayout(b: seq<byte>, off: nat, path: CString, args: seq<Arg>)
    returns (pre: seq<byte>, post: seq<byte>)
    requires off + |Wire(path, args)| <= |b|
    ensures var t := TypeString(args);
            |pre| == off + StrSize(path) + StrSize(t) &&
            Splice(Splice(Splice(b, off, Pad(path)), off + StrSize(path), Pad(t)),
                   |pre|, HostData(args)) == HalfConverted(pre, args, 0, post) &&
            Splice(b, off, Wire(path, args)) == HalfConverted(pre, args, |args|, post)
  {
    hide Splice, HostData, NetData, StrSize, Pad, HalfConverted;
    var t := TypeString(args);
    pre, post := b[..off] + Pad(path) + Pad(t), b[off + |Wire(path, args)|..];
    HalfConvertedEnds(pre, args, post);
    SpliceSplice(b, off, Pad(path), Pad(t));
    SpliceSplice(b, off, Pad(path) + Pad(t), HostData(args));
    SpliceIs(b, off, Pad(path) + Pad(t) + HostData(args));
    SpliceIs(b, off, Wire(path, args));
  }

  lemma SpliceIs(b: seq<byte>, off: nat, s: seq<byte>)
    requires off + |s| <= |b|
    ensures Splice(b, off, s) == b[..off] + s + b[off + |s|..]
  {
  }

  /** One argument, wherever it is in the buffer. */
  method ConvertArg(tag: byte, to: array<byte>, ptr: nat,
                    ghost a: Arg, ghost done: seq<byte>, ghost rest: seq<byte>) returns (len: nat)
    requires tag == Tag(a) && ptr == |done| && to[..] == done + (Host(a) + rest)
    modifies to
    ensures len == |Net(a)| && to[..] == done + (Net(a) + rest)
  {
    hide ArgSize, SwapSize, Swapped, Host, Net, Tag;
    ArgSizeHost(a, rest);
    SwappedArg(a, rest);
    BlobHasCount(a);
    assert to[ptr..] == Host(a) + rest && to[..ptr] == done;
    len := ArgSize(tag, to[ptr..]);
    LoArgSwapEndian(tag, to, ptr);
  }

  lemma BlobHasCount(a: Arg)
    ensures Tag(a) == LO_BLOB ==> |Host(a)| >= 4
  {
  }

  function Prepend(done: seq<Arg>, r: Result<seq<Arg>>): Result<seq<Arg>> {
    match r
    case Failure(e) => Failure(e)
    case Success(args) => Success(done + args)
  }

  lemma ParseArgsStep(tags: seq<byte>, i: nat, net: seq<byte>, ptr: nat, done: seq<Arg>)
    requires i < |tags| && ptr <= |net|
    ensures var len := ValidateArg(tags[i], net[ptr..]);
            if len < 0 then
              Prepend(done, ParseArgs(tags[i..], net[ptr..])) == Failure(LO_EINVALIDARG)
            else
              ptr + len <= |net| &&
              Prepend(done, ParseArgs(tags[i..], net[ptr..])) ==
              Prepend(done + [DecodeArg(tags[i], net[ptr..])], ParseArgs(tags[i + 1..], net[ptr + len..]))
  {
    hide ValidateArg, DecodeArg;
    var len := ValidateArg(tags[i], net[ptr..]);
    assert tags[i..][1..] == tags[i + 1..];
    if len >= 0 {
      DecodeArgSound(tags[i], net[ptr..]);
      assert net[ptr..][len..] == net[ptr + len..];
      var a, r := DecodeArg(tags[i], net[ptr..]), ParseArgs(tags[i + 1..], net[ptr + len..]);
      if r.Success? {
        assert done + ([a] + r.value) == done + [a] + r.value;
      }
    }
  }

  /** A validated argument is brought into host order where it lies. */
  method HostArg(tag: byte, data: array<byte>, ptr: nat, len: nat) returns (ghost a: Arg)
    requires ptr <= data.Length && len == ValidateArg(tag, data[ptr..])
    modifies data
    ensures a == old(DecodeArg(tag, data[ptr..]))
    ensures len == |Host(a)| && ptr + len <= data.Length
    ensures data[..ptr + len] == old(data[..ptr]) + Host(a)
    ensures data[ptr + len..] == old(data[..])[ptr + len..]
  {
    hide ValidateArg, DecodeArg, Swapped, SwapSize, Tag, Host, Net;
    ghost var net := data[ptr..];
    a := DecodeArg(tag, net);
    DecodeArgSound(tag, net);
    ghost var tail := net[len..];
    SwappedArg(a, tail);
    assert net == Net(a) + tail;
    LoArgSwapEndian(tag, data, ptr);
  }

  /** The buffer `now` and the results when the first `i` arguments of the packet's data `net` are done. */
  ghost predicate Hosted(tags: seq<byte>, i: nat, net: seq<byte>, ptr: nat, args: seq<Arg>,
                         argv: seq<Option<nat>>, now: seq<byte>)
  {
    && i <= |tags| && ptr <= |net| == |now|
    && now[..ptr] == HostData(args) && now[ptr..] == net[ptr..]
    && argv == Offsets(args)
    && ParseArgs(tags, net) == Prepend(args, ParseArgs(tags[i..], net[ptr..]))
  }

  lemma HostedStarts(tags: seq<byte>, net: seq<byte>)
    ensures Hosted(tags, 0, net, 0, [], [], net)
  {
    hide ParseArgs, HostData;
    assert tags[0..] == tags && net[0..] == net;
    assert forall r: seq<Arg> :: [] + r == r;
    NoData();
  }

  lemma HostedNext(tags: seq<byte>, i: nat, net: seq<byte>, ptr: nat, args: seq<Arg>,
                   argv: seq<Option<nat>>, now: seq<byte>, a: Arg, next: seq<byte>)
    requires Hosted(tags, i, net, ptr, args, argv, now) && i < |tags| && |next| == |now|
    requires ValidateArg(tags[i], net[ptr..]) == |Host(a)| && a == DecodeArg(tags[i], net[ptr..])
    requires ptr + |Host(a)| <= |net| && next[..ptr + |Host(a)|] == now[..ptr] + Host(a)
    requires next[ptr + |Host(a)|..] == now[ptr + |Host(a)|..]
    ensures Hosted(tags, i + 1, net, ptr + |Host(a)|, args + [a],
                   argv + [if |Host(a)| != 0 then Some(ptr) else None], next)
  {
    hide ValidateArg, DecodeArg, Host, HostData, ParseArgs, Prepend;
    var len := |Host(a)|;
    ParseArgsStep(tags, i, net, ptr, args);
    OffsetsAppend(args, a);
    DataAppendOne(args, a);
    assert now[ptr + len..] == now[ptr..][len..] == net[ptr..][len..] == net[ptr + len..];
  }

  /** The loop of the deserialiser: validates and converts one argument after the other. */
  method HostArgs(tags: seq<byte>, data: array<byte>)
    returns (error: int, argv: seq<Option<nat>>, ghost args: seq<Arg>)
    modifies data
    ensures match ParseArgs(tags, old(data[..]))
            case Failure(e) => error == e != 0
            case Success(all) => error == 0 && args == all && argv == Offsets(all) && data[..] == HostData(all)
  {
    hide ValidateArg, DecodeArg, Host, HostData, ParseArgs, Offsets;
    ghost var net := data[..];
    var i, ptr: nat, remain: nat := 0, 0, data.Length;
    argv, args := [], [];
    HostedStarts(tags, net);
    while i < |tags|
      invariant i <= |tags| && ptr + remain == data.Length
      invariant Hosted(tags, i, net, ptr, args, argv, data[..])
    {
      ParseArgsStep(tags, i, net, ptr, args);
      ghost var now := data[..];
      assert data[ptr..] == now[ptr..] == net[ptr..];
      var len := LoValidateArg(tags[i], data[ptr..]);
      if len < 0 {
        return LO_EINVALIDARG, argv, args;
      }
      ghost var a := HostArg(tags[i], data, ptr, len);
      HostedNext(tags, i, net, ptr, args, argv, now, a, data[..]);
      argv := argv + [if len != 0 then Some(ptr) else None];
      args := args + [a];
      i, ptr, remain := i + 1, ptr + len, remain - len;
    }
    ParseArgsEnd(tags[i..], net[ptr..]);
    error := if remain != 0 then LO_ESIZE else 0;
  }

  lemma ParseArgsEnd(tags: seq<byte>, b: seq<byte>)
    requires tags == []
    ensures ParseArgs(tags, b) == if b == [] then Success([]) else Failure(LO_ESIZE)
  {
  }

  /** What the deserialiser makes of a packet, in terms of its parse. */
  twostate predicate Deserialised(packet: seq<byte>, new m: LoMessage?, error: int)
    reads if m == null then {} else {m, m.types, m.data}
  {
    match Parse(packet)
    case Failure(e) => m == null && error == e
    case Success(p) =>
      && m != null && error == 0
      && fresh(m) && fresh(m.types) && fresh(m.data)
      && m.Valid() && m.args == p.args && m.refcount == 0
      && m.argv == if p.args == [] then None else Some(Offsets(p.args))
  }

  method Deserialise(packet: seq<byte>) returns (m: LoMessage?, error: int)
    ensures Deserialised(packet, m, error)
  {
    if |packet| == 0 {
      return null, LO_ESIZE;
    }
    var len := LoValidateString(packet);
    if len < 0 {
      return null, LO_EINVALIDPATH;
    }
    ValidateStringAccepts(packet);
    var rest := packet[len..];
    if |rest| == 0 {
      return null, LO_ENOTYPE;
    }
    len := LoValidateString(rest);
    if len < 0 {
      return null, LO_EINVALIDTYPE;
    }
    if rest[0] != COMMA {
      return null, LO_EBADTYPE;
    }
    ValidateStringAccepts(rest);
    m, error := DeserialiseArgs(rest, len);
  }

  /** The second half: type string and arguments, once the headers are known to be sound. */
  method DeserialiseArgs(rest: seq<byte>, len: nat) returns (m: LoMessage?, error: int)
    requires StrLen(rest) < len <= |rest| && rest != [] && rest[0] == COMMA
    requires rest[..len] == Pad(rest[..StrLen(rest)])
    ensures match ParseArgs(rest[1..StrLen(rest)], rest[len..])
            case Failure(e) => m == null && error == e
            case Success(args) =>
              && m != null && error == 0
              && fresh(m) && fresh(m.types) && fresh(m.data)
              && m.Valid() && m.args == args && m.refcount == 0
              && m.argv == if args == [] then None else Some(Offsets(args))
  {
    var typelen := StrLen(rest);
    var types := new byte[len](k requires 0 <= k < len => rest[k]);
    var data := new byte[|rest| - len](k requires 0 <= k < |rest| - len => rest[len + k]);
    var tags := rest[1..typelen];
    assert data[..] == rest[len..] && types[..] == rest[..len];
    assert types[..typelen] == [COMMA] + tags && types[typelen] == 0;
    hide *;
    var argv;
    ghost var args;
    error, argv, args := HostArgs(tags, data);
    if error != 0 {
      return null, error;
    }
    ParseArgsSound(tags, rest[len..]);
    m := new LoMessage.FromParts(types, typelen, data, data.Length,
                                 if typelen > 1 then Some(argv) else None, args);
    PartsAreValid(m, tags);
  }

  lemma PartsAreValid(m: LoMessage, tags: seq<byte>)
    requires m.types != m.data && m.datalen == m.data.Length && m.data[..] == HostData(m.args)
    requires m.typelen == |tags| + 1 < m.types.Length && m.types[m.typelen] == 0
    requires m.types[..m.typelen] == [COMMA] + tags && tags == Tags(m.args)
    requires m.argv.Some? ==> m.argv.value == Offsets(m.args)
    ensures m.Valid()
  {
    hide Tags, HostData, Offsets;
    assert m.data[..m.datalen] == m.data[..];
  }

  /** Zero the last word of the padded size, then copy the count and the data. */
  method WriteBlob(a: array<byte>, off: nat, b: BlobData)
    requires off + BlobSize(|b|) <= a.Length
    modifies a
    ensures a[..off + BlobSize(|b|)] == old(a[..off]) + Host(Blob(b))
  {
    hide BlobSize, WordOf, Splice, Le32, Host;
    var size := BlobSize(|b|);
    BlobInThreeSteps(a[..], off, b);
    Memcpy(a, off + size - 4, Zeros(4));
    Memcpy(a, off, Le32(WordOf(|b|)));
    Memcpy(a, off + 4, b);
  }

  lemma BlobInThreeSteps(d: seq<byte>, off: nat, b: BlobData)
    requires off + BlobSize(|b|) <= |d|
    ensures var size := BlobSize(|b|);
            var written := Splice(Splice(Splice(d, off + size - 4, Zeros(4)), off, Le32(WordOf(|b|))), off + 4, b);
            written[..off + size] == d[..off] + Host(Blob(b))
  {
    BlobLayout(b);
    hide *;
    var size, count := BlobSize(|b|), Le32(WordOf(|b|));
    var zeroed := Splice(d, off + size - 4, Zeros(4));
    ZeroTail(d, off, size, 4 + |b|);
    SpliceSplice(zeroed, off, count, b);
    SpliceUpTo(zeroed, off, count + b, size);
  }

  lemma BlobLayout(b: BlobData)
    ensures var n := BlobSize(|b|);
            n - 4 < 4 + |b| <= n && Host(Blob(b)) == Le32(WordOf(|b|)) + b + Zeros(n - 4 - |b|)
  {
  }

  /** What is left of the zeroed last word of the `size` bytes at `off`. */
  lemma ZeroTail(d: seq<byte>, off: nat, size: nat, k: nat)
    requires 4 <= size && off + size <= |d| && size - 4 <= k <= size
    ensures var zeroed := Splice(d, off + size - 4, Zeros(4));
            zeroed[..off] == d[..off] && zeroed[off + k..off + size] == Zeros(size - k)
  {
  }

  lemma SpliceUpTo(b: seq<byte>, off: nat, s: seq<byte>, n: nat)
    requires |s| <= n && off + n <= |b|
    ensures Splice(b, off, s)[..off + n] == b[..off] + (s + b[off + |s|..off + n])
  {
  }
}
