/** The message parser as a function of the received bytes, and its inverse, `Wire`. */
module Packets {
  import opened Bytes
  import opened OscArgs
  import opened Validators

  datatype Result<+T> = Success(value: T) | Failure(error: int)

  datatype Message = Message(path: CString, args: seq<Arg>)

  /** Only these messages can be received. */
  ghost predicate AllSendable(args: seq<Arg>) {
    forall i | 0 <= i < |args| :: Sendable(args[i])
  }

  /** The arguments of the given types that make up the whole of `b`. */
  function ParseArgs(tags: seq<byte>, b: seq<byte>): Result<seq<Arg>>
    decreases |tags|
  {
    if tags == [] then
      if b == [] then Success([]) else Failure(LO_ESIZE)
    else if ValidateArg(tags[0], b) < 0 then
      Failure(LO_EINVALIDARG)
    else
      DecodeArgSound(tags[0], b);
      match ParseArgs(tags[1..], b[ValidateArg(tags[0], b)..])
      case Failure(e) => Failure(e)
      case Success(rest) => Success([DecodeArg(tags[0], b)] + rest)
  }

  function Parse(b: seq<byte>): Result<Message> {
    if b == [] then
      Failure(LO_ESIZE)
    else if ValidateString(b) < 0 then
      Failure(LO_EINVALIDPATH)
    else
      ValidateStringAccepts(b);
      var types := b[ValidateString(b)..];
      if types == [] then
        Failure(LO_ENOTYPE)
      else if ValidateString(types) < 0 then
        Failure(LO_EINVALIDTYPE)
      else if types[0] != COMMA then
        Failure(LO_EBADTYPE)
      else
        ValidateStringAccepts(types);
        match ParseArgs(types[1..StrLen(types)], types[ValidateString(types)..])
        case Failure(e) => Failure(e)
        case Success(args) => Success(Message(b[..StrLen(b)], args))
  }

  lemma {:induction false} ParseArgsSound(tags: seq<byte>, b: seq<byte>)
    requires ParseArgs(tags, b).Success?
    ensures var args := ParseArgs(tags, b).value;
            Tags(args) == tags && NetData(args) == b && AllSendable(args)
    decreases |tags|
  {
    hide ValidateArg, DecodeArg, Net;
    if tags != [] {
      var len := ValidateArg(tags[0], b);
      DecodeArgSound(tags[0], b);
      ParseArgsSound(tags[1..], b[len..]);
      assert b == b[..len] + b[len..];
      assert tags == [tags[0]] + tags[1..];
      var a, rest := DecodeArg(tags[0], b), ParseArgs(tags[1..], b[len..]).value;
      assert ([a] + rest)[1..] == rest;
    }
  }

  lemma {:induction false} ArgsErrors(tags: seq<byte>, b: seq<byte>)
    ensures ParseArgs(tags, b).Failure? ==> ParseArgs(tags, b).error > 0
    decreases |tags|
  {
    if tags != [] && ValidateArg(tags[0], b) >= 0 {
      DecodeArgSound(tags[0], b);
      ArgsErrors(tags[1..], b[ValidateArg(tags[0], b)..]);
    }
  }

  /** Errors are positive codes, and the path is the string the packet starts with. */
  lemma ParsedPath(b: seq<byte>)
    ensures match Parse(b)
            case Failure(e) => e > 0
            case Success(m) => m.path == b[..StrLen(b)]
  {
    if b != [] && ValidateString(b) >= 0 {
      ValidateStringAccepts(b);
      var types := b[ValidateString(b)..];
      if types != [] && ValidateString(types) >= 0 && types[0] == COMMA {
        ValidateStringAccepts(types);
        ArgsErrors(types[1..StrLen(types)], types[ValidateString(types)..]);
      }
    }
    hide ValidateString, ParseArgs, StrLen;
  }

  lemma {:induction false} ParseArgsNet(args: seq<Arg>)
    requires AllSendable(args)
    ensures ParseArgs(Tags(args), NetData(args)) == Success(args)
  {
    hide ValidateArg, DecodeArg, Net;
    if args != [] {
      var b := NetData(args);
      DecodeArgNet(args[0], NetData(args[1..]));
      ParseArgsNet(args[1..]);
      assert args == [args[0]] + args[1..];
      assert Tags(args)[1..] == Tags(args[1..]);
      assert b[|Net(args[0])|..] == NetData(args[1..]);
    }
  }

  lemma {:induction false} ParseArgsRefuses(args: seq<Arg>)
    requires !AllSendable(args)
    ensures ParseArgs(Tags(args), NetData(args)) == Failure(LO_EINVALIDARG)
  {
    hide ValidateArg, DecodeArg, Net;
    var a, rest := args[0], NetData(args[1..]);
    if Sendable(a) {
      DecodeArgNet(a, rest);
      ParseArgsRefuses(args[1..]);
      assert Tags(args)[1..] == Tags(args[1..]);
      assert NetData(args)[|Net(a)|..] == rest;
    } else {
      OversizedBlobRefused(a.b, rest);
    }
  }

  /** Canonical form: an accepted packet is exactly the serialisation of its message. */
  lemma ParseSound(b: seq<byte>)
    requires Parse(b).Success?
    ensures var m := Parse(b).value;
            Wire(m.path, m.args) == b && AllSendable(m.args)
  {
    hide ValidateString, StrLen, ParseArgs, NetData, Tags, Pad, StrSize;
    ValidateStringAccepts(b);
    var types := b[ValidateString(b)..];
    ValidateStringAccepts(types);
    var data := types[ValidateString(types)..];
    var tags := types[1..StrLen(types)];
    ParseArgsSound(tags, data);
    assert types[..StrLen(types)] == [COMMA] + tags;
    assert b == b[..ValidateString(b)] + types;
    assert types == types[..ValidateString(types)] + data;
  }

  lemma WireParts(path: CString, args: seq<Arg>)
    ensures var b, t := Wire(path, args), TypeString(args);
            ValidateString(b) == StrSize(path) && b[..StrLen(b)] == path &&
            b[StrSize(path)..] == Pad(t) + NetData(args) &&
            ValidateString(b[StrSize(path)..]) == StrSize(t) &&
            b[StrSize(path)..][1..StrLen(b[StrSize(path)..])] == Tags(args) &&
            b[StrSize(path)..][StrSize(t)..] == NetData(args)
  {
    hide ValidateString, StrLen, NetData, Tags, Pad, StrSize;
    var b, t := Wire(path, args), TypeString(args);
    var tail := Pad(t) + NetData(args);
    assert b == Pad(path) + tail;
    ValidateStringPad(path, tail);
    assert b[StrSize(path)..] == tail;
    ValidateStringPad(t, NetData(args));
    assert tail[1..|t|] == tail[..|t|][1..] == t[1..] == Tags(args);
    assert tail[StrSize(t)..] == NetData(args);
  }

  /** Round trip: the serialisation is accepted unless some blob is too large. */
  lemma ParseWire(path: CString, args: seq<Arg>)
    ensures Parse(Wire(path, args)) ==
            if AllSendable(args) then Success(Message(path, args)) else Failure(LO_EINVALIDARG)
  {
    WireParts(path, args);
    if AllSendable(args) {
      ParseArgsNet(args);
    } else {
      ParseArgsRefuses(args);
    }
  }

  /** Accepted packets and sendable messages are in bijection. */
  lemma PacketsAreMessages(b: seq<byte>)
    ensures Parse(b).Success? <==>
            exists path: CString, args :: AllSendable(args) && Wire(path, args) == b
  {
    if Parse(b).Success? {
      ParseSound(b);
      var m := Parse(b).value;
      assert AllSendable(m.args) && Wire(m.path, m.args) == b;
    }
    forall path: CString, args | AllSendable(args) && Wire(path, args) == b
      ensures Parse(b).Success?
    {
      ParseWire(path, args);
    }
  }

  lemma WireInjective(p: CString, xs: seq<Arg>, q: CString, ys: seq<Arg>)
    requires AllSendable(xs) && AllSendable(ys) && Wire(p, xs) == Wire(q, ys)
    ensures p == q && xs == ys
  {
    ParseWire(p, xs);
    ParseWire(q, ys);
  }
}
