/** Arguments in a buffer: their size, and conversion of their byte order in place. */
module ArgMemory {
  import opened Bytes
  import opened OscArgs
  import opened Memory

  /** Unsigned 32-bit arithmetic. */
  function Wrap32(n: nat): nat { n % 0x1_0000_0000 }

  lemma NoWrap(n: nat)
    requires n < 0x1_0000_0000
    ensures Wrap32(n) == n
  {
  }

  /** Size of the host-order argument at the start of `b`, in the source's 32-bit arithmetic. */
  function ArgSize(tag: byte, b: seq<byte>): nat
    requires tag == LO_BLOB ==> |b| >= 4
  {
    if tag in {LO_TRUE, LO_FALSE, LO_NIL, LO_INFINITUM} then 0
    else if tag in {LO_INT32, LO_FLOAT, LO_MIDI, LO_CHAR} then 4
    else if tag in {LO_INT64, LO_TIMETAG, LO_DOUBLE} then 8
    else if tag in {LO_STRING, LO_SYMBOL} then 4 * (StrLen(b) / 4 + 1)
    else if tag == LO_BLOB then
      var len := Wrap32(4 + FromLe32(b).Value());
      4 * (Wrap32(len + 3) / 4)
    else 0
  }

  lemma ArgSizeBlob(d: BlobData, rest: seq<byte>)
    ensures ArgSize(LO_BLOB, Host(Blob(d)) + rest) == |Host(Blob(d))|
  {
    hide WordOf, Wrap32;
    assert FromLe32(Host(Blob(d)) + rest) == WordOf(|d|);
    NoWrap(4 + |d|);
    NoWrap(4 + |d| + 3);
  }

  lemma ArgSizeHost(a: Arg, rest: seq<byte>)
    ensures ArgSize(Tag(a), Host(a) + rest) == |Host(a)|
  {
    hide WordOf, StrLen;
    match a
    case String(s) => StrLenPad(s, rest);
    case Symbol(s) => StrLenPad(s, rest);
    case Blob(d) => ArgSizeBlob(d, rest);
    case _ =>
  }

  /** Number of leading bytes whose order depends on the host. */
  function SwapSize(tag: byte): nat {
    if tag in {LO_INT32, LO_FLOAT, LO_BLOB, LO_CHAR} then 4
    else if tag in {LO_TIMETAG, LO_INT64, LO_DOUBLE} then 8
    else 0
  }

  function Reverse4(b: seq<byte>): (r: seq<byte>)
    requires |b| >= 4
    ensures |r| == |b|
  {
    [b[3], b[2], b[1], b[0]] + b[4..]
  }

  function Reverse8(b: seq<byte>): (r: seq<byte>)
    requires |b| >= 8
    ensures |r| == |b|
  {
    [b[7], b[6], b[5], b[4], b[3], b[2], b[1], b[0]] + b[8..]
  }

  /** `b` with the byte order of its leading argument changed. */
  function Swapped(tag: byte, b: seq<byte>): (r: seq<byte>)
    requires SwapSize(tag) <= |b|
    ensures |r| == |b|
  {
    if tag in {LO_INT32, LO_FLOAT, LO_BLOB, LO_CHAR} then Reverse4(b)
    else if tag == LO_TIMETAG then Reverse4(b)[..4] + Reverse4(b[4..])
    else if tag in {LO_INT64, LO_DOUBLE} then
      Reverse8(b)
    else b
  }

  lemma ReverseWord(w: Word, rest: seq<byte>)
    ensures Reverse4(Le32(w) + rest) == Be32(w) + rest
    ensures Reverse4(Be32(w) + rest) == Le32(w) + rest
  {
  }

  lemma ReverseDoubleWord(w: DoubleWord, rest: seq<byte>)
    ensures Reverse8(Le64(w) + rest) == Be64(w) + rest
    ensures Reverse8(Be64(w) + rest) == Le64(w) + rest
  {
  }

  lemma SwappedTimetag(sec: Word, frac: Word, rest: seq<byte>)
    ensures Swapped(LO_TIMETAG, Le32(sec) + Le32(frac) + rest) == Be32(sec) + Be32(frac) + rest
    ensures Swapped(LO_TIMETAG, Be32(sec) + Be32(frac) + rest) == Le32(sec) + Le32(frac) + rest
  {
    assert (Le32(sec) + Le32(frac) + rest)[4..] == Le32(frac) + rest;
    assert (Be32(sec) + Be32(frac) + rest)[4..] == Be32(frac) + rest;
  }

  lemma SwappedBlob(d: BlobData, rest: seq<byte>)
    ensures Swapped(LO_BLOB, Host(Blob(d)) + rest) == Net(Blob(d)) + rest
    ensures Swapped(LO_BLOB, Net(Blob(d)) + rest) == Host(Blob(d)) + rest
  {
    hide WordOf, Reverse4;
    var w, tail := WordOf(|d|), d + BlobPad(d) + rest;
    assert Host(Blob(d)) + rest == Le32(w) + tail;
    assert Net(Blob(d)) + rest == Be32(w) + tail;
    ReverseWord(w, tail);
  }

  /** Changing the byte order takes one representation to the other, and back. */
  lemma SwappedArg(a: Arg, rest: seq<byte>)
    ensures SwapSize(Tag(a)) <= |Host(a)|
    ensures Swapped(Tag(a), Host(a) + rest) == Net(a) + rest
    ensures Swapped(Tag(a), Net(a) + rest) == Host(a) + rest
  {
    hide WordOf, StrSize, Reverse4, Reverse8, Be32, Le32, Be64, Le64, Pad;
    match a
    case Int32(w) => ReverseWord(w, rest);
    case Float(w) => ReverseWord(w, rest);
    case Char(w) => ReverseWord(w, rest);
    case Int64(w) => ReverseDoubleWord(w, rest);
    case Double(w) => ReverseDoubleWord(w, rest);
    case TimetagArg(sec, frac) => SwappedTimetag(sec, frac, rest);
    case Blob(d) => SwappedBlob(d, rest);
    case _ =>
  }

  /**
   * lo_arg_network_endian and lo_arg_host_endian, which on a little-endian host are the same
   * change of byte order.
   */
  method LoArgSwapEndian(tag: byte, a: array<byte>, off: nat)
    requires off + SwapSize(tag) <= a.Length
    modifies a
    ensures a[..] == old(a[..off] + Swapped(tag, a[off..]))
  {
    if tag == LO_INT32 || tag == LO_FLOAT || tag == LO_BLOB || tag == LO_CHAR {
      Swap4(a, off);
    } else if tag == LO_TIMETAG {
      ghost var before := a[..];
      Swap4(a, off);
      assert a[off + 4..] == before[off + 4..] == before[off..][4..];
      Swap4(a, off + 4);
    } else if tag == LO_INT64 || tag == LO_DOUBLE {
      Swap8(a, off);
    }
  }

  method Swap4(a: array<byte>, off: nat)
    requires off + 4 <= a.Length
    modifies a
    ensures a[..] == old(a[..off] + Reverse4(a[off..]))
  {
    Memcpy(a, off, Reverse4(a[off..off + 4]));
  }

  method Swap8(a: array<byte>, off: nat)
    requires off + 8 <= a.Length
    modifies a
    ensures a[..] == old(a[..off] + Reverse8(a[off..]))
  {
    Memcpy(a, off, Reverse8(a[off..off + 8]));
  }
}
