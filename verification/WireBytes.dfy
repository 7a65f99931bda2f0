/** The bytes on the wire, position by position, as section "OSC Syntax" of the OSC 1.0 specification gives them. */
module WireBytes {
  import opened Bytes
  import opened Timetags
  import opened OscArgs
  import opened ArgMemory
  import opened Messages
  import opened Trees

  /** A number of 32 bits, most significant byte first. */
  lemma WordBytes(n: u32)
    ensures Be32(WordOf(n)) == [n / 0x100_0000, n / 0x1_0000 % 0x100, n / 0x100 % 0x100, n % 0x100]
    ensures Le32(WordOf(n)) == [n % 0x100, n / 0x100 % 0x100, n / 0x1_0000 % 0x100, n / 0x100_0000]
  {
    Quotients(n);
  }

  lemma Quotients(n: nat)
    ensures n / 0x1_0000 / 0x100 == n / 0x100_0000
    ensures n % 0x1_0000 / 0x100 == n / 0x100 % 0x100
    ensures n % 0x1_0000 % 0x100 == n % 0x100
  {
    var q, r := n / 0x1_0000, n % 0x1_0000;
    assert n == q * 0x1_0000 + r;
    assert n / 0x100 == q * 0x100 + r / 0x100;
  }

  /** A packet on a stream, or an element of a bundle, behind its size. */
  lemma FramedBytes(b: seq<byte>)
    requires |b| < 0x1_0000_0000
    ensures var n := |b|;
            Framed(b) == [n / 0x100_0000, n / 0x1_0000 % 0x100, n / 0x100 % 0x100, n % 0x100] + b
  {
    NoWrap(|b|);
    WordBytes(|b|);
  }

  /** A blob: its size, its bytes, and up to three zeros. */
  lemma BlobBytes(d: BlobData)
    ensures var n, b := |d|, Net(Blob(d));
            |b| == (n + 7) / 4 * 4 &&
            b[..4] == [n / 0x100_0000, n / 0x1_0000 % 0x100, n / 0x100 % 0x100, n % 0x100] && b[4..4 + n] == d &&
            forall i | 4 + n <= i < |b| :: b[i] == 0
  {
    WordBytes(|d|);
    hide WordOf;
  }

  /** A string: its characters, and one to four zeros. */
  lemma StringBytes(s: CString)
    ensures Net(String(s)) == Net(Symbol(s)) == Pad(s)
    ensures |Pad(s)| == (|s| + 4) / 4 * 4 && Pad(s)[..|s|] == s && forall i | |s| <= i < |Pad(s)| :: Pad(s)[i] == 0
  {
  }

  /** The numbers: the more significant word, or the seconds, first. */
  lemma NumberBytes(m: u32, n: u32)
    ensures var high := [m / 0x100_0000, m / 0x1_0000 % 0x100, m / 0x100 % 0x100, m % 0x100];
            var low := [n / 0x100_0000, n / 0x1_0000 % 0x100, n / 0x100 % 0x100, n % 0x100];
            Net(Int32(WordOf(n))) == Net(Float(WordOf(n))) == Net(Char(WordOf(n))) == low &&
            Net(Int64(DoubleWord(WordOf(m), WordOf(n)))) == Net(Double(DoubleWord(WordOf(m), WordOf(n)))) ==
            Net(TimetagArg(WordOf(m), WordOf(n))) == high + low
  {
    WordBytes(m);
    WordBytes(n);
    hide WordOf;
  }

  /** The same in the memory of a message on a little-endian host: a 64-bit number is turned round as a whole. */
  lemma HostBytes(m: u32, n: u32)
    ensures var high := [m % 0x100, m / 0x100 % 0x100, m / 0x1_0000 % 0x100, m / 0x100_0000];
            var low := [n % 0x100, n / 0x100 % 0x100, n / 0x1_0000 % 0x100, n / 0x100_0000];
            Host(Int32(WordOf(n))) == Host(Float(WordOf(n))) == Host(Char(WordOf(n))) == low &&
            Host(Int64(DoubleWord(WordOf(m), WordOf(n)))) == Host(Double(DoubleWord(WordOf(m), WordOf(n)))) ==
            low + high &&
            Host(TimetagArg(WordOf(m), WordOf(n))) == high + low
  {
    WordBytes(m);
    WordBytes(n);
    hide WordOf;
  }

  /** Offsets of an int32, of true, of a string of two characters, and of a double: the sizes before them. */
  lemma OffsetsExample(w: Word, s: CString, d: DoubleWord)
    requires |s| == 2
    ensures Offsets([Int32(w), True, String(s), Double(d)]) == [Some(0), None, Some(4), Some(8)]
  {
    var args := [Int32(w), True, String(s), Double(d)];
    DataOne(args[0]);
    DataAppendOne(args[..1], args[1]);
    DataAppendOne(args[..2], args[2]);
    assert args[..0] == [] && args[..1] == [args[0]];
    assert args[..2] == args[..1] + [args[1]] && args[..3] == args[..2] + [args[2]];
    hide HostData;
    NoData();
  }

  /** The type tags, `i f s b h t d S c m T F N I`, and what has no data. */
  lemma TagBytes(w: Word, v: Word, s: CString, b: BlobData, m: MidiPacket)
    ensures Tag(Int32(w)) == 105 && Tag(Float(w)) == 102 && Tag(String(s)) == 115 && Tag(Blob(b)) == 98
    ensures Tag(Int64(DoubleWord(v, w))) == 104 && Tag(Double(DoubleWord(v, w))) == 100
    ensures Tag(TimetagArg(v, w)) == 116
    ensures Tag(Symbol(s)) == 83 && Tag(Char(w)) == 99 && Tag(Midi(m)) == 109
    ensures Tag(True) == 84 && Tag(False) == 70 && Tag(Nil) == 78 && Tag(Infinitum) == 73
    ensures Net(Midi(m)) == m && Net(True) == Net(False) == Net(Nil) == Net(Infinitum) == []
  {
  }

  /** A message: path, comma and tags, data. */
  lemma MessageBytes(path: CString, args: seq<Arg>)
    ensures TypeString(args)[0] == 44 && forall i | 0 <= i < |args| :: TypeString(args)[1 + i] == Tag(args[i])
    ensures Wire(path, args) == Pad(path) + Pad(TypeString(args)) + NetData(args)
  {
    hide Pad, NetData;
  }

  /** The beginning of a bundle: `#bundle`, the seconds, the fraction. */
  lemma HeaderBytes(ts: Timetag)
    ensures var s, f := ts.sec, ts.frac;
            BundleHeader(ts) ==
            [35, 98, 117, 110, 100, 108, 101, 0] +
            [s / 0x100_0000, s / 0x1_0000 % 0x100, s / 0x100 % 0x100, s % 0x100] +
            [f / 0x100_0000, f / 0x1_0000 % 0x100, f / 0x100 % 0x100, f % 0x100]
  {
    WordBytes(ts.sec);
    WordBytes(ts.frac);
    hide WordOf;
    MarkerBytes();
  }

  lemma MarkerBytes()
    ensures Pad(BUNDLE) == [35, 98, 117, 110, 100, 108, 101, 0]
  {
  }

  lemma SmallBytes(n: nat)
    requires n < 0x1_0000
    ensures Be32(WordOf(n)) == [0, 0, n / 0x100, n % 0x100]
  {
    hide WordOf;
    WordBytes(n);
    assert n / 0x100 % 0x100 == n / 0x100;
  }

  /** The time tag for "immediately" is 63 zero bits and a one. */
  lemma ImmediateBytes()
    ensures IMMEDIATE == Timetag(0, 1) && TimetagWire(IMMEDIATE) == [0, 0, 0, 0, 0, 0, 0, 1]
  {
    hide WordOf, Be32;
    SmallBytes(0);
    SmallBytes(1);
  }

  /** A whole message: `/a` with the int32 1000, the string `hi`, the blob 7 8 9, and true. */
  lemma MessageExample()
    ensures var args := [Int32(WordOf(1000)), String([104, 105]), Blob([7, 8, 9]), True];
            Wire([47, 97], args) ==
            [47, 97, 0, 0] + [44, 105, 115, 98, 84, 0, 0, 0] +
            [0, 0, 3, 232] + [104, 105, 0, 0] + [0, 0, 0, 3, 7, 8, 9, 0]
  {
    hide WordOf, NetData, TypeString, Pad, Net, Be32;
    var args := [Int32(WordOf(1000)), String([104, 105]), Blob([7, 8, 9]), True];
    ExampleArgs();
    ExampleData(args);
    ExampleTypes(args);
    ShortString(47, 97);
    MessageBytes([47, 97], args);
  }

  lemma ShortString(a: byte, b: byte)
    requires a != 0 && b != 0
    ensures Pad([a, b]) == [a, b, 0, 0]
  {
    assert StrSize([a, b]) == 4;
  }

  lemma ExampleArgs()
    ensures Net(Int32(WordOf(1000))) == [0, 0, 3, 232] && Net(String([104, 105])) == [104, 105, 0, 0]
    ensures Net(Blob([7, 8, 9])) == [0, 0, 0, 3, 7, 8, 9, 0] && Net(True) == []
  {
    hide WordOf, Be32;
    SmallBytes(1000);
    SmallBytes(3);
    ShortString(104, 105);
    assert BlobPad([7, 8, 9]) == [0];
  }

  lemma ExampleTypes(args: seq<Arg>)
    requires |args| == 4 && args[0].Int32? && args[1].String? && args[2].Blob? && args[3].True?
    ensures Pad(TypeString(args)) == [44, 105, 115, 98, 84, 0, 0, 0]
  {
    assert TypeString(args) == [44, 105, 115, 98, 84];
  }

  lemma ExampleData(args: seq<Arg>)
    requires |args| == 4
    ensures NetData(args) == Net(args[0]) + Net(args[1]) + Net(args[2]) + Net(args[3])
  {
    hide Net;
    assert args[1..][1..] == args[2..] && args[2..][1..] == args[3..] && args[3..][1..] == [];
    assert NetData(args[3..]) == Net(args[3]) + [];
    assert NetData(args[2..]) == Net(args[2]) + NetData(args[3..]);
    assert NetData(args[1..]) == Net(args[1]) + NetData(args[2..]);
  }

  /** A whole bundle: at 1 second and 2^-31, the message `/a` with the int32 5. */
  lemma BundleExample()
    ensures TreeWire(BundleTree(Timetag(1, 2), [MessageTree([47, 97], [Int32(WordOf(5))])])) ==
            [35, 98, 117, 110, 100, 108, 101, 0] + [0, 0, 0, 1] + [0, 0, 0, 2] +
            [0, 0, 0, 12] + [47, 97, 0, 0] + [44, 105, 0, 0] + [0, 0, 0, 5]
  {
    hide WordOf, Wire, BundleHeader, Framed, Be32, TreeWire;
    var args := [Int32(WordOf(5))];
    HeaderBytes(Timetag(1, 2));
    ExampleElement(args);
    FramedBytes(Wire([47, 97], args));
    OneElement(Timetag(1, 2), [47, 97], args);
  }

  lemma OneElement(ts: Timetag, path: CString, args: seq<Arg>)
    ensures TreeWire(BundleTree(ts, [MessageTree(path, args)])) == BundleHeader(ts) + Framed(Wire(path, args))
  {
    hide Wire, BundleHeader, Framed;
    var elems := [MessageTree(path, args)];
    assert elems[1..] == [] && ElemsWire([]) == [];
    assert ElemsWire(elems) == Framed(TreeWire(elems[0])) + [];
  }

  lemma ExampleElement(args: seq<Arg>)
    requires args == [Int32(WordOf(5))]
    ensures Wire([47, 97], args) == [47, 97, 0, 0] + [44, 105, 0, 0] + [0, 0, 0, 5]
  {
    hide WordOf, Be32, Pad, NetData, TypeString, Net;
    FiveBytes();
    DataOne(args[0]);
    OneType(args);
    ShortString(44, 105);
    ShortString(47, 97);
    MessageBytes([47, 97], args);
  }

  lemma FiveBytes()
    ensures Net(Int32(WordOf(5))) == [0, 0, 0, 5]
  {
    hide WordOf, Be32;
    SmallBytes(5);
  }

  lemma OneType(args: seq<Arg>)
    requires |args| == 1 && args[0].Int32?
    ensures TypeString(args) == [44, 105]
  {
  }
}
