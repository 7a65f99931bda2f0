/** The error codes of received bytes, by the defect that causes them, and the bytes of valid bundles. */
module Refusals {
  import opened Bytes
  import opened Timetags
  import opened OscArgs
  import opened ArgMemory
  import opened Validators
  import opened Packets
  import opened Trees
  import opened Dispatching
  import opened Traces
  import opened Streams
  import opened WireBytes

  // Strings

  ghost predicate StartsWithString(b: seq<byte>) { exists s: CString :: Pad(s) <= b }

  lemma StringOrNot(b: seq<byte>)
    ensures ValidateString(b) >= 0 <==> StartsWithString(b)
  {
    hide Pad, StrLen, ValidateString;
    ValidateStringAccepts(b);
    if ValidateString(b) >= 0 {
      var s: CString := b[..StrLen(b)];
      assert b[..StrSize(s)] == Pad(s);
    }
    forall s: CString | Pad(s) <= b
      ensures ValidateString(b) >= 0
    {
      assert b == Pad(s) + b[|Pad(s)|..];
      ValidateStringPad(s, b[|Pad(s)|..]);
    }
  }

  /** The characters before the first zero. */
  ghost predicate Begins(b: seq<byte>, s: CString) { |s| < |b| && b[..|s|] == s && b[|s|] == 0 }

  /** No terminating zero; a padding that is cut short; a padding that is not zero. */
  lemma StringCodes(b: seq<byte>)
    ensures ValidateString(b) == -9913 <==> 0 !in b
    ensures ValidateString(b) == -9911 <==> exists s: CString :: Begins(b, s) && |b| < (|s| + 4) / 4 * 4
    ensures ValidateString(b) == -9914 <==>
            exists s: CString, i :: Begins(b, s) && |s| < i < (|s| + 4) / 4 * 4 <= |b| && b[i] != 0
    ensures ValidateString(b) < 0 ==> ValidateString(b) in {-9913, -9911, -9914}
  {
    hide ValidateString, StrLen;
    FirstZero(b);
    StringIs(b);
  }

  lemma FirstZero(b: seq<byte>)
    ensures StrLen(b) == |b| <==> 0 !in b
    ensures StrLen(b) < |b| ==> Begins(b, b[..StrLen(b)])
    ensures forall s: CString :: Begins(b, s) ==> |s| == StrLen(b) < |b|
  {
    if StrLen(b) == |b| {
      assert b[..|b|] == b;
    }
    forall s: CString | Begins(b, s)
      ensures |s| == StrLen(b) < |b|
    {
      StrLenUnique(b, |s|);
    }
  }

  lemma StringIs(b: seq<byte>)
    ensures var n, len := StrLen(b), (StrLen(b) + 4) / 4 * 4;
            ValidateString(b) ==
            if n == |b| then -9913
            else if len > |b| then -9911
            else if exists i :: n < i < len && b[i] != 0 then -9914
            else len
  {
    hide StrLen;
    var n, len := StrLen(b), (StrLen(b) + 4) / 4 * 4;
    assert len == 4 * (n / 4 + 1);
    if n < |b| && len <= |b| {
      PadCheck(b, n, len);
    }
  }

  lemma PadCheck(b: seq<byte>, n: nat, len: nat)
    requires n < len <= |b| && b[n] == 0
    ensures b[n..len] != Zeros(len - n) <==> exists i :: n < i < len && b[i] != 0
  {
    if i :| n < i < len && b[i] != 0 {
      assert b[n..len][i - n] != 0;
    } else {
      assert b[n..len] == Zeros(len - n);
    }
  }

  // Messages

  /** No argument of the type is at the start of the bytes, except perhaps a blob that is too large. */
  ghost predicate NoArgument(tag: byte, b: seq<byte>) {
    forall a | Tag(a) == tag && (a.Blob? ==> |a.b| <= 32768) :: !(Net(a) <= b)
  }

  lemma ArgumentOrNot(tag: byte, b: seq<byte>)
    ensures ValidateArg(tag, b) < 0 <==> NoArgument(tag, b)
  {
    hide ValidateArg, Net, DecodeArg;
    if ValidateArg(tag, b) >= 0 {
      DecodeArgSound(tag, b);
      assert Net(DecodeArg(tag, b)) <= b;
    }
    forall a | Tag(a) == tag && Sendable(a) && Net(a) <= b
      ensures ValidateArg(tag, b) >= 0
    {
      assert b == Net(a) + b[|Net(a)|..];
      DecodeArgNet(a, b[|Net(a)|..]);
    }
  }

  /** Well-formed arguments, and then what is wrong: bytes that are left over, or no argument. */
  ghost predicate GoesWrong(tags: seq<byte>, b: seq<byte>, args: seq<Arg>, code: int) {
    && AllSendable(args) && |args| <= |tags| && tags[..|args|] == Tags(args) && NetData(args) <= b
    && var rest := b[|NetData(args)|..];
       if |args| == |tags| then code == 9911 && rest != []
       else code == 9912 && NoArgument(tags[|args|], rest)
  }

  lemma {:induction false} ArgsGoWrong(tags: seq<byte>, b: seq<byte>, code: int) returns (args: seq<Arg>)
    requires ParseArgs(tags, b) == Failure(code)
    ensures GoesWrong(tags, b, args, code)
    decreases |tags|
  {
    hide ValidateArg, Net, DecodeArg, NoArgument;
    args := [];
    if tags != [] {
      ArgumentOrNot(tags[0], b);
      if ValidateArg(tags[0], b) >= 0 {
        DecodeArgSound(tags[0], b);
        var a, len := DecodeArg(tags[0], b), ValidateArg(tags[0], b);
        var rest := ArgsGoWrong(tags[1..], b[len..], code);
        args := [a] + rest;
        assert args[1..] == rest && tags[..|args|] == [tags[0]] + tags[1..][..|rest|];
        assert NetData(args) == b[..len] + NetData(rest);
        assert b[..|NetData(args)|] == b[..len] + b[len..][..|NetData(rest)|];
        assert b[|NetData(args)|..] == b[len..][|NetData(rest)|..];
      }
    }
  }

  lemma {:induction false} ArgsThatGoWrong(tags: seq<byte>, b: seq<byte>, args: seq<Arg>, code: int)
    requires GoesWrong(tags, b, args, code)
    ensures ParseArgs(tags, b) == Failure(code)
    decreases |tags|
  {
    hide ValidateArg, Net, DecodeArg, NoArgument;
    if args == [] {
      assert b[0..] == b;
      if tags != [] {
        ArgumentOrNot(tags[0], b);
      }
    } else {
      var a, later, tail := args[0], args[1..], b[|Net(args[0])|..];
      assert NetData(args) == Net(a) + NetData(later);
      assert NetData(args)[..|Net(a)|] == Net(a) && NetData(args)[|Net(a)|..] == NetData(later);
      assert b == Net(a) + tail;
      DecodeArgNet(a, tail);
      assert Tags(args) == [Tag(a)] + Tags(later) && tags[0] == tags[..|args|][0];
      assert tags[1..][..|later|] == tags[..|args|][1..];
      assert tail[..|NetData(later)|] == b[..|NetData(args)|][|Net(a)|..];
      assert tail[|NetData(later)|..] == b[|NetData(args)|..];
      ArgsThatGoWrong(tags[1..], tail, later, code);
    }
  }

  /**
   * What is wrong with a message: nothing at all (9911); no path (9908); nothing behind the path (9902), or no
   * string (9909), or one without a comma (9910); arguments that go wrong (9912), or bytes behind them (9911).
   */
  ghost predicate Defect(b: seq<byte>, code: int) {
    || (code == 9911 && b == [])
    || (code == 9908 && b != [] && !StartsWithString(b))
    || (code == 9902 && exists path: CString :: b == Pad(path))
    || (code == 9909 && exists path: CString :: TypesDefect(b, path))
    || (code == 9910 && exists path: CString, t: CString :: Pad(path) + Pad(t) <= b && (t == [] || t[0] != 44))
    || exists path: CString, t: CString, args :: DataDefect(b, path, t, args, code)
  }

  ghost predicate TypesDefect(b: seq<byte>, path: CString) {
    Pad(path) <= b && b != Pad(path) && !StartsWithString(b[|Pad(path)|..])
  }

  ghost predicate DataDefect(b: seq<byte>, path: CString, t: CString, args: seq<Arg>, code: int) {
    Pad(path) + Pad(t) <= b && t != [] && t[0] == 44 &&
    GoesWrong(t[1..], b[|Pad(path)| + |Pad(t)|..], args, code)
  }

  /** Every refusal has its defect. */
  lemma RefusedFor(b: seq<byte>, code: int)
    requires Parse(b) == Failure(code)
    ensures Defect(b, code)
  {
    hide Pad, StrLen, ValidateString, ParseArgs, StartsWithString, GoesWrong;
    StringOrNot(b);
    if b != [] && ValidateString(b) >= 0 {
      ValidateStringAccepts(b);
      var path: CString := b[..StrLen(b)];
      assert b == Pad(path) + b[ValidateString(b)..];
      RefusedBehindPath(b, path, b[ValidateString(b)..], code);
    }
  }

  lemma RefusedBehindPath(b: seq<byte>, path: CString, types: seq<byte>, code: int)
    requires b == Pad(path) + types && Parse(b) == Failure(code)
    ensures Defect(b, code)
  {
    hide Pad, StrLen, ValidateString, Parse, StartsWithString, DataDefect;
    BehindPath(b, path, types);
    StringOrNot(types);
    if types == [] {
      assert b == Pad(path);
    } else if ValidateString(types) < 0 {
      assert TypesDefect(b, path);
    } else {
      ValidateStringAccepts(types);
      var t: CString, data := types[..StrLen(types)], types[ValidateString(types)..];
      assert types == Pad(t) + data;
      assert b == Pad(path) + Pad(t) + data;
      RefusedBehindTypes(b, path, t, data, code);
    }
  }

  lemma BehindPath(b: seq<byte>, path: CString, types: seq<byte>)
    requires b == Pad(path) + types
    ensures b[|Pad(path)|..] == types && Pad(path) <= b && (types != [] ==> b != Pad(path))
    ensures types == [] ==> Parse(b) == Failure(9902)
    ensures types != [] && ValidateString(types) < 0 ==> Parse(b) == Failure(9909)
  {
    hide Pad, StrLen, ValidateString, ParseArgs;
    WithPath(path, types);
  }

  lemma RefusedBehindTypes(b: seq<byte>, path: CString, t: CString, data: seq<byte>, code: int)
    requires b == Pad(path) + Pad(t) + data && Parse(b) == Failure(code)
    ensures Defect(b, code)
  {
    hide Pad, Parse, ParseArgs, StartsWithString, GoesWrong;
    WithTypes(b, path, t);
    assert b[|Pad(path)| + |Pad(t)|..] == data;
    if t != [] && t[0] == 44 {
      var args := ArgsGoWrong(t[1..], data, code);
      assert DataDefect(b, path, t, args, code);
    }
  }

  lemma PadStarts(t: CString)
    ensures Pad(t)[0] == if t == [] then 0 else t[0]
  {
  }

  /** Every defect has its code. */
  lemma RefusedWith(b: seq<byte>, code: int)
    requires Defect(b, code)
    ensures Parse(b) == Failure(code)
  {
    hide Pad, StrLen, ValidateString, ParseArgs, StartsWithString, GoesWrong;
    StringOrNot(b);
    if path: CString :| code == 9902 && b == Pad(path) {
      WithPath(path, []);
      assert b == Pad(path) + [];
    } else if path: CString :| code == 9909 && TypesDefect(b, path) {
      var types := b[|Pad(path)|..];
      assert b == Pad(path) + types;
      WithPath(path, types);
      StringOrNot(types);
    } else if path: CString, t: CString :|
      code == 9910 && Pad(path) + Pad(t) <= b && (t == [] || t[0] != 44)
    {
      WithTypes(b, path, t);
    } else if path: CString, t: CString, args :| DataDefect(b, path, t, args, code) {
      WithTypes(b, path, t);
      ArgsThatGoWrong(t[1..], b[|Pad(path)| + |Pad(t)|..], args, code);
    }
  }

  lemma WithPath(path: CString, types: seq<byte>)
    ensures var b := Pad(path) + types;
            b != [] && ValidateString(b) == |Pad(path)| && b[|Pad(path)|..] == types && b[..StrLen(b)] == path
  {
    hide Pad, StrLen, ValidateString;
    ValidateStringPad(path, types);
  }

  lemma WithTypes(b: seq<byte>, path: CString, t: CString)
    requires Pad(path) + Pad(t) <= b
    ensures Parse(b) ==
            if t == [] || t[0] != 44 then Failure(9910)
            else
              match ParseArgs(t[1..], b[|Pad(path)| + |Pad(t)|..])
              case Failure(e) => Failure(e)
              case Success(args) => Success(Message(path, args))
  {
    hide Pad, StrLen, ValidateString, ParseArgs;
    var data := b[|Pad(path)| + |Pad(t)|..];
    var types := Pad(t) + data;
    assert b == Pad(path) + types;
    WithPath(path, types);
    WithPath(t, data);
    ValidateStringPad(t, data);
    PadStarts(t);
    assert t != [] ==> types[1..StrLen(types)] == t[1..];
  }

  /** A message is refused with a code exactly for the defect that has it. */
  lemma RefusedExactly(b: seq<byte>, code: int)
    ensures Parse(b) == Failure(code) <==> Defect(b, code)
  {
    hide Parse, Defect;
    if Parse(b) == Failure(code) {
      RefusedFor(b, code);
    }
    if Defect(b, code) {
      RefusedWith(b, code);
    }
  }

  /** A blob: no size, one above the limit, or one that does not fit (9911); a padding that is not zero (9914). */
  lemma BlobCodes(b: seq<byte>)
    ensures |b| < 4 ==> ValidateArg(98, b) == -9911
    ensures |b| >= 4 ==>
              var n := b[0] as int * 0x100_0000 + b[1] as int * 0x1_0000 + b[2] as int * 0x100 + b[3];
              ValidateArg(98, b) ==
              if n > 32768 || (n + 7) / 4 * 4 > |b| then -9911
              else if exists i :: 4 + n <= i < (n + 7) / 4 * 4 && b[i] != 0 then -9914
              else (n + 7) / 4 * 4
  {
    if |b| >= 4 {
      var n: nat := FromBe32(b).Value();
      assert BlobSize(n) == (n + 7) / 4 * 4;
      if n <= 32768 && BlobSize(n) <= |b| {
        BlobPadCheck(b, 4 + n, BlobSize(n));
      }
    }
  }

  lemma BlobPadCheck(b: seq<byte>, n: nat, len: nat)
    requires n <= len <= |b|
    ensures b[n..len] != Zeros(len - n) <==> exists i :: n <= i < len && b[i] != 0
  {
    if i :| n <= i < len && b[i] != 0 {
      assert b[n..len][i - n] != 0;
    } else {
      assert b[n..len] == Zeros(len - n);
    }
  }

  /** The other arguments: four or eight bytes, a string, or nothing; and a type that does not exist (9909). */
  lemma ArgumentCodes(tag: byte, b: seq<byte>)
    ensures tag in [105, 102, 109, 99] ==> ValidateArg(tag, b) == if |b| >= 4 then 4 else -9911
    ensures tag in [104, 116, 100] ==> ValidateArg(tag, b) == if |b| >= 8 then 8 else -9911
    ensures tag in [84, 70, 78, 73] ==> ValidateArg(tag, b) == 0
    ensures tag in [115, 83] ==> ValidateArg(tag, b) == ValidateString(b)
    ensures tag !in [105, 102, 109, 99, 104, 116, 100, 84, 70, 78, 73, 115, 83, 98] ==> ValidateArg(tag, b) == -9909
  {
    hide ValidateString, ValidateBlob;
  }

  // Bundles

  ghost predicate AreElements(b: seq<byte>, elems: seq<seq<byte>>) {
    StreamOf(elems) == b && forall i | 0 <= i < |elems| :: |elems[i]| < 0x1_0000_0000
  }

  /** Elements fit exactly if the bytes are some packets, each behind its size. */
  lemma {:induction false} ElementsFitExactly(b: seq<byte>)
    ensures ElementsFit(b) <==> exists elems :: AreElements(b, elems)
    decreases |b|
  {
    if |b| < 4 {
      if b == [] {
        assert AreElements(b, []);
      }
      forall elems | AreElements(b, elems)
        ensures b == []
      {
      }
    } else {
      var n := FromBe32(b).Value();
      if 4 + n <= |b| {
        ElementsFitExactly(b[4 + n..]);
      }
      forall elems | AreElements(b, elems)
        ensures ElementsFit(b)
      {
        FirstOfElements(b, elems);
        assert AreElements(b[4 + n..], elems[1..]);
      }
      if ElementsFit(b) {
        var others :| AreElements(b[4 + n..], others);
        WithFirstElement(b, n, others);
      }
    }
  }

  lemma FirstOfElements(b: seq<byte>, elems: seq<seq<byte>>)
    requires |b| >= 4 && AreElements(b, elems)
    ensures elems != [] && var n := FromBe32(b).Value();
            n == |elems[0]| && 4 + n <= |b| && b[4 + n..] == StreamOf(elems[1..])
  {
    FrameCount(elems[0], StreamOf(elems[1..]));
  }

  lemma WithFirstElement(b: seq<byte>, n: nat, others: seq<seq<byte>>)
    requires |b| >= 4 && n == FromBe32(b).Value() && 4 + n <= |b| && AreElements(b[4 + n..], others)
    ensures AreElements(b, [b[4..4 + n]] + others)
  {
    hide WordOf;
    var first := b[4..4 + n];
    WordOfValue(FromBe32(b));
    NoWrap(n);
    assert Framed(first) == b[..4 + n];
    assert ([first] + others)[1..] == others;
    assert b == b[..4 + n] + b[4 + n..];
  }

  /** A bundle: not a string at all, or elements that do not fit (9911); another string (9915). */
  lemma BundleCodes(b: seq<byte>)
    ensures ValidateBundle(b) == -9915 <==> StartsWithString(b) && !([35, 98, 117, 110, 100, 108, 101, 0] <= b)
    ensures ValidateBundle(b) >= 0 <==> exists ts, elems :: IsBundleOf(b, ts, elems)
    ensures ValidateBundle(b) >= 0 ==> ValidateBundle(b) == |b|
    ensures ValidateBundle(b) < 0 ==> ValidateBundle(b) in {-9911, -9915}
  {
    hide StartsWithString, ValidateString, StreamOf;
    StringOrNot(b);
    MarkerBytes();
    if IsBundle(b) {
      BundleMarker(b);
      if |b| >= 16 {
        ElementsFitExactly(b[16..]);
        HeaderOf(b);
        if ElementsFit(b[16..]) {
          var elems :| AreElements(b[16..], elems);
          assert IsBundleOf(b, TimetagIn(b[8..]), elems);
        }
      }
    }
    forall ts, elems | IsBundleOf(b, ts, elems)
      ensures ValidateBundle(b) >= 0
    {
      BundleIsBundle(ts, b[16..]);
      assert b == BundleHeader(ts) + b[16..];
      assert AreElements(b[16..], elems);
    }
  }

  ghost predicate IsBundleOf(b: seq<byte>, ts: Timetag, elems: seq<seq<byte>>) {
    |b| >= 16 && b[..16] == BundleHeader(ts) && AreElements(b[16..], elems)
  }

  lemma HeaderOf(b: seq<byte>)
    requires IsBundle(b) && |b| >= 16
    ensures b[..16] == BundleHeader(TimetagIn(b[8..]))
  {
    hide WordOf;
    WordOfValue(FromBe32(b[8..]));
    WordOfValue(FromBe32(b[8..][4..]));
    assert b[..16] == b[..8] + b[8..16];
  }

  // What the server throws

  /** For bytes that are no packet: the error of the string, of the bundle or of the message, and nothing else. */
  lemma ThrownExactly(c: Setting, s: State, b: seq<byte>, rest: seq<byte>)
    ensures var o, marked := DispatchData(c, s, b + rest, |b|), [35, 98, 117, 110, 100, 108, 101, 0] <= b + rest;
            var code := if !StartsWithString(b) then -ValidateString(b)
                        else if marked then -ValidateBundle(b)
                        else match Parse(b) case Failure(e) => e case Success(_) => 0;
            code > 0 ==> o == Outcome(s.(events := s.events + [Throw(code)]), -code)
  {
    hide ValidateString, StartsWithString, ValidateBundle, Parse, DispatchElements;
    assert (b + rest)[..|b|] == b;
    StringOrNot(b);
    MarkerBytes();
    assert IsBundle(b + rest) <==> [35, 98, 117, 110, 100, 108, 101, 0] <= b + rest;
  }
}
