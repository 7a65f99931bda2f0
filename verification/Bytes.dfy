/** Bytes, machine words and zero-padded strings as they lie in memory and on the wire. */
module Bytes {
  datatype Option<+T> = None | Some(value: T) {
    function GetOr(default: T): T { if Some? then value else default }
  }

  type byte = b: int | 0 <= b < 0x100
  type u32 = w: int | 0 <= w < 0x1_0000_0000

  /** The characters of a C string, without its terminating NUL. */
  type CString = s: seq<byte> | 0 !in s

  // Words: big-endian on the wire, little-endian in the memory of the host.

  /** A 32-bit word as its four bytes, most significant first. */
  datatype Word = Word(b3: byte, b2: byte, b1: byte, b0: byte) {
    /** The unsigned number the word stands for. */
    function Value(): u32 {
      b3 as int * 0x100_0000 + b2 as int * 0x1_0000 + b1 as int * 0x100 + b0 as int
    }
  }

  /** A 64-bit word. */
  datatype DoubleWord = DoubleWord(hi: Word, lo: Word)

  function WordOf(n: u32): (w: Word)
    ensures w.Value() == n
  {
    var hi, lo := n / 0x1_0000, n % 0x1_0000;
    Word(hi / 0x100, hi % 0x100, lo / 0x100, lo % 0x100)
  }

  lemma WordOfValue(w: Word)
    ensures WordOf(w.Value()) == w
  {
    assert w.Value() == (w.b3 as int * 0x100 + w.b2 as int) * 0x1_0000 + (w.b1 as int * 0x100 + w.b0 as int);
  }

  function Be32(w: Word): (b: seq<byte>)
    ensures |b| == 4
  {
    [w.b3, w.b2, w.b1, w.b0]
  }

  function Le32(w: Word): (b: seq<byte>)
    ensures |b| == 4
  {
    [w.b0, w.b1, w.b2, w.b3]
  }

  function Be64(w: DoubleWord): (b: seq<byte>)
    ensures |b| == 8
  {
    Be32(w.hi) + Be32(w.lo)
  }

  function Le64(w: DoubleWord): (b: seq<byte>)
    ensures |b| == 8
  {
    Le32(w.lo) + Le32(w.hi)
  }

  /** The word in the first four bytes of `b`, in network order. */
  function FromBe32(b: seq<byte>): Word
    requires |b| >= 4
  {
    Word(b[0], b[1], b[2], b[3])
  }

  /** The word in the first four bytes of `b`, in the order of the host. */
  function FromLe32(b: seq<byte>): Word
    requires |b| >= 4
  {
    Word(b[3], b[2], b[1], b[0])
  }

  function FromBe64(b: seq<byte>): DoubleWord
    requires |b| >= 8
  {
    DoubleWord(FromBe32(b), FromBe32(b[4..]))
  }

  // Strings

  function Zeros(n: nat): (z: seq<byte>)
    ensures |z| == n && forall i | 0 <= i < n :: z[i] == 0
  {
    seq(n, _ => 0)
  }

  /** Size of a string once padded with one to four NULs to a multiple of four. */
  function StrSize(s: CString): (n: nat)
    ensures |s| < n <= |s| + 4 && n % 4 == 0
  {
    4 * (|s| / 4 + 1)
  }

  function Pad(s: CString): (b: seq<byte>)
    ensures |b| == StrSize(s)
  {
    s + Zeros(StrSize(s) - |s|)
  }

  /** Index of the first NUL of `b`, or its length. */
  function StrLen(b: seq<byte>): (n: nat)
    ensures n <= |b| && 0 !in b[..n]
    ensures n < |b| ==> b[n] == 0
  {
    if b == [] || b[0] == 0 then 0 else
      var n := StrLen(b[1..]);
      assert b[..n + 1] == [b[0]] + b[1..][..n];
      1 + n
  }

  lemma {:induction false} StrLenUnique(b: seq<byte>, n: nat)
    requires n < |b| && b[n] == 0 && 0 !in b[..n]
    ensures StrLen(b) == n
  {
    if n > 0 {
      assert b[..n][0] == b[0] && b[1..][..n - 1] == b[..n][1..];
      StrLenUnique(b[1..], n - 1);
    }
  }

  lemma StrLenPad(s: CString, rest: seq<byte>)
    ensures StrLen(Pad(s) + rest) == |s|
    ensures (Pad(s) + rest)[..|s|] == s
  {
    assert (Pad(s) + rest)[..|s|] == s;
    StrLenUnique(Pad(s) + rest, |s|);
  }
}
