/**
 * The atomic data types of OSC, with their type tags and their two representations:
 * host byte order inside a message, network byte order in a packet.
 */
module OscArgs {
  import opened Bytes

  const LO_INT32: byte := 'i' as int
  const LO_FLOAT: byte := 'f' as int
  const LO_STRING: byte := 's' as int
  const LO_BLOB: byte := 'b' as int
  const LO_INT64: byte := 'h' as int
  const LO_TIMETAG: byte := 't' as int
  const LO_DOUBLE: byte := 'd' as int
  const LO_SYMBOL: byte := 'S' as int
  const LO_CHAR: byte := 'c' as int
  const LO_MIDI: byte := 'm' as int
  const LO_TRUE: byte := 'T' as int
  const LO_FALSE: byte := 'F' as int
  const LO_NIL: byte := 'N' as int
  const LO_INFINITUM: byte := 'I' as int
  const COMMA: byte := ',' as int

  const LO_MAX_MSG_SIZE := 32768

  type MidiPacket = m: seq<byte> | |m| == 4 witness [0, 0, 0, 0]
  type BlobData = b: seq<byte> | |b| < 0x8000_0000 - 8

  /** An argument; floats and doubles are the words that represent them. */
  datatype Arg =
    | Int32(i: Word)
    | Float(f: Word)
    | String(s: CString)
    | Blob(b: BlobData)
    | Int64(h: DoubleWord)
    | TimetagArg(sec: Word, frac: Word)
    | Double(d: DoubleWord)
    | Symbol(s: CString)
    | Char(c: Word)
    | Midi(m: MidiPacket)
    | True
    | False
    | Nil
    | Infinitum

  function Tag(a: Arg): (t: byte)
    ensures t != 0
  {
    match a
    case Int32(_) => LO_INT32
    case Float(_) => LO_FLOAT
    case String(_) => LO_STRING
    case Blob(_) => LO_BLOB
    case Int64(_) => LO_INT64
    case TimetagArg(_, _) => LO_TIMETAG
    case Double(_) => LO_DOUBLE
    case Symbol(_) => LO_SYMBOL
    case Char(_) => LO_CHAR
    case Midi(_) => LO_MIDI
    case True => LO_TRUE
    case False => LO_FALSE
    case Nil => LO_NIL
    case Infinitum => LO_INFINITUM
  }

  /** Size of `n` bytes after a count word, padded to a multiple of four. */
  function BlobSize(n: nat): (r: nat)
    ensures 4 + n <= r < 8 + n && r % 4 == 0
  {
    4 * ((4 + n + 3) / 4)
  }

  function BlobPad(b: BlobData): seq<byte> { Zeros(BlobSize(|b|) - 4 - |b|) }

  /** The argument in a packet: big-endian words. */
  function Net(a: Arg): (b: seq<byte>) {
    match a
    case Int32(w) => Be32(w)
    case Float(w) => Be32(w)
    case String(s) => Pad(s)
    case Blob(b) => Be32(WordOf(|b|)) + b + BlobPad(b)
    case Int64(w) => Be64(w)
    case TimetagArg(sec, frac) => Be32(sec) + Be32(frac)
    case Double(w) => Be64(w)
    case Symbol(s) => Pad(s)
    case Char(w) => Be32(w)
    case Midi(m) => m
    case _ => []
  }

  /** The argument in the data of a message on a little-endian host. */
  function Host(a: Arg): (b: seq<byte>)
    ensures |b| == |Net(a)|
  {
    match a
    case Int32(w) => Le32(w)
    case Float(w) => Le32(w)
    case String(s) => Pad(s)
    case Blob(b) => Le32(WordOf(|b|)) + b + BlobPad(b)
    case Int64(w) => Le64(w)
    case TimetagArg(sec, frac) => Le32(sec) + Le32(frac)
    case Double(w) => Le64(w)
    case Symbol(s) => Pad(s)
    case Char(w) => Le32(w)
    case Midi(m) => m
    case _ => []
  }

  // Sequences of arguments

  function Tags(args: seq<Arg>): (t: CString)
    ensures |t| == |args|
    ensures forall i | 0 <= i < |args| :: t[i] == Tag(args[i])
  {
    if args == [] then [] else [Tag(args[0])] + Tags(args[1..])
  }

  function NetData(args: seq<Arg>): (b: seq<byte>) {
    if args == [] then [] else Net(args[0]) + NetData(args[1..])
  }

  function HostData(args: seq<Arg>): (b: seq<byte>)
    ensures |b| == |NetData(args)|
  {
    if args == [] then [] else Host(args[0]) + HostData(args[1..])
  }

  function TypeString(args: seq<Arg>): (t: CString)
    ensures |t| == |args| + 1
  {
    [COMMA] + Tags(args)
  }

  /** An OSC message as the bytes of a packet. */
  function Wire(path: CString, args: seq<Arg>): (b: seq<byte>)
    ensures |b| == StrSize(path) + StrSize(TypeString(args)) + |NetData(args)|
  {
    Pad(path) + Pad(TypeString(args)) + NetData(args)
  }

  /** The content of a message object: its type string and its data in host order. */
  datatype Image = Image(types: CString, data: seq<byte>)

  function ImageOf(args: seq<Arg>): Image { Image(TypeString(args), HostData(args)) }

  lemma {:induction false} TagsAppend(xs: seq<Arg>, ys: seq<Arg>)
    ensures Tags(xs + ys) == Tags(xs) + Tags(ys)
  {
  }

  lemma {:induction false} NetAppend(xs: seq<Arg>, ys: seq<Arg>)
    ensures NetData(xs + ys) == NetData(xs) + NetData(ys)
  {
    if xs == [] {
      assert xs + ys == ys;
    } else {
      assert (xs + ys)[1..] == xs[1..] + ys;
      NetAppend(xs[1..], ys);
    }
  }

  lemma {:induction false} HostAppend(xs: seq<Arg>, ys: seq<Arg>)
    ensures HostData(xs + ys) == HostData(xs) + HostData(ys)
  {
    if xs == [] {
      assert xs + ys == ys;
    } else {
      assert (xs + ys)[1..] == xs[1..] + ys;
      HostAppend(xs[1..], ys);
    }
  }

  lemma DataAppendOne(xs: seq<Arg>, a: Arg)
    ensures NetData(xs + [a]) == NetData(xs) + Net(a)
    ensures HostData(xs + [a]) == HostData(xs) + Host(a)
  {
    NetAppend(xs, [a]);
    HostAppend(xs, [a]);
    DataOne(a);
  }

  lemma DataOne(a: Arg)
    ensures NetData([a]) == Net(a) && HostData([a]) == Host(a)
  {
    assert [a][1..] == [];
  }

  lemma TypesAppendOne(xs: seq<Arg>, a: Arg)
    ensures TypeString(xs + [a]) == TypeString(xs) + [Tag(a)]
  {
    TagsAppend(xs, [a]);
  }

  /** Every part of a message occupies a multiple of four bytes. */
  lemma WireAligned(path: CString, args: seq<Arg>)
    ensures |Wire(path, args)| % 4 == 0
  {
    NetDataAligned(args);
    SumAligned(StrSize(path), StrSize(TypeString(args)));
    SumAligned(StrSize(path) + StrSize(TypeString(args)), |NetData(args)|);
  }

  lemma {:induction false} NetDataAligned(args: seq<Arg>)
    ensures |NetData(args)| % 4 == 0
  {
    if args != [] {
      NetDataAligned(args[1..]);
      NetAligned(args[0]);
      SumAligned(|Net(args[0])|, |NetData(args[1..])|);
    }
  }

  lemma SumAligned(m: nat, n: nat)
    requires m % 4 == 0 && n % 4 == 0
    ensures (m + n) % 4 == 0
  {
  }

  lemma NetAligned(a: Arg)
    ensures |Net(a)| % 4 == 0
  {
    match a
    case Blob(b) => assert |Net(a)| == BlobSize(|b|);
    case _ =>
  }
}
