/** Checks on received bytes, and what the accepted bytes stand for. */
module Validators {
  import opened Bytes
  import opened OscArgs

  const LO_ENOTYPE := 9902
  const LO_INT_ERR := 9906
  const LO_EINVALIDPATH := 9908
  const LO_EINVALIDTYPE := 9909
  const LO_EBADTYPE := 9910
  const LO_ESIZE := 9911
  const LO_EINVALIDARG := 9912
  const LO_ETERM := 9913
  const LO_EPAD := 9914
  const LO_EINVALIDBUND := 9915

  /** Padded size of the string at the start of `b`, or minus an error code. */
  function ValidateString(b: seq<byte>): int {
    var n := StrLen(b);
    if n == |b| then -LO_ETERM
    else if 4 * (n / 4 + 1) > |b| then -LO_ESIZE
    else if b[n..4 * (n / 4 + 1)] != Zeros(4 * (n / 4 + 1) - n) then -LO_EPAD
    else 4 * (n / 4 + 1)
  }

  method LoValidateString(data: seq<byte>) returns (r: int)
    ensures r == ValidateString(data)
  {
    var i, len := 0, 0;
    while i < |data|
      invariant i <= |data| && len == 0
      invariant 0 !in data[..i]
    {
      if data[i] == 0 {
        len := 4 * (i / 4 + 1);
        break;
      }
      i := i + 1;
    }
    ghost var n := i;
    if len == 0 {
      assert data[..i] == data;
      assert StrLen(data) == |data|;
      return -LO_ETERM;
    }
    StrLenUnique(data, n);
    if len > |data| {
      return -LO_ESIZE;
    }
    while i < len
      invariant n <= i <= len
      invariant forall k | n <= k < i :: data[k] == 0
    {
      if data[i] != 0 {
        assert data[n..len][i - n] != 0;
        return -LO_EPAD;
      }
      i := i + 1;
    }
    assert data[n..len] == Zeros(len - n);
    return len;
  }

  /** A string is accepted exactly when it is the padding of its own characters. */
  lemma ValidateStringAccepts(b: seq<byte>)
    ensures ValidateString(b) >= 0 ==>
              var s: CString := b[..StrLen(b)];
              ValidateString(b) == StrSize(s) <= |b| && b[..StrSize(s)] == Pad(s)
  {
    if ValidateString(b) >= 0 {
      var n := StrLen(b);
      var len := ValidateString(b);
      assert b[..len] == b[..n] + b[n..len];
    }
  }

  lemma ValidateStringPad(s: CString, rest: seq<byte>)
    ensures ValidateString(Pad(s) + rest) == StrSize(s)
    ensures StrLen(Pad(s) + rest) == |s| && (Pad(s) + rest)[..|s|] == s
  {
    var b := Pad(s) + rest;
    StrLenPad(s, rest);
    assert b[|s|..StrSize(s)] == Zeros(StrSize(s) - |s|);
  }

  /**
   * Padded size of the blob at the start of `b`, or minus an error code.  With less than a
   * count word left the source reads past the end, but refuses whatever count it finds.
   */
  function ValidateBlob(b: seq<byte>): int {
    if |b| < 4 then -LO_ESIZE else
    var dsize := FromBe32(b).Value();
    if dsize > LO_MAX_MSG_SIZE then -LO_ESIZE
    else if BlobSize(dsize) > |b| then -LO_ESIZE
    else if b[4 + dsize..BlobSize(dsize)] != Zeros(BlobSize(dsize) - 4 - dsize) then -LO_EPAD
    else BlobSize(dsize)
  }

  method LoValidateBlob(data: seq<byte>) returns (r: int)
    ensures r == ValidateBlob(data)
  {
    if |data| < 4 {
      return -LO_ESIZE;
    }
    var dsize := FromBe32(data).Value();
    if dsize > LO_MAX_MSG_SIZE {
      return -LO_ESIZE;
    }
    var end := 4 + dsize;
    var len := 4 * ((end + 3) / 4);
    if len > |data| {
      return -LO_ESIZE;
    }
    var i := end;
    while i < len
      invariant end <= i <= len
      invariant forall k | end <= k < i :: data[k] == 0
    {
      if data[i] != 0 {
        assert data[end..len][i - end] != 0;
        return -LO_EPAD;
      }
      i := i + 1;
    }
    assert data[end..len] == Zeros(len - end);
    return len;
  }

  /** Size of the argument of type `tag` at the start of `b`, or minus an error code. */
  function ValidateArg(tag: byte, b: seq<byte>): int {
    if tag in {LO_TRUE, LO_FALSE, LO_NIL, LO_INFINITUM} then 0
    else if tag in {LO_INT32, LO_FLOAT, LO_MIDI, LO_CHAR} then
      if |b| >= 4 then 4 else -LO_ESIZE
    else if tag in {LO_INT64, LO_TIMETAG, LO_DOUBLE} then
      if |b| >= 8 then 8 else -LO_ESIZE
    else if tag in {LO_STRING, LO_SYMBOL} then ValidateString(b)
    else if tag == LO_BLOB then ValidateBlob(b)
    else -LO_EINVALIDTYPE
  }

  method LoValidateArg(tag: byte, data: seq<byte>) returns (r: int)
    ensures r == ValidateArg(tag, data)
  {
    if tag == LO_TRUE || tag == LO_FALSE || tag == LO_NIL || tag == LO_INFINITUM {
      return 0;
    } else if tag == LO_INT32 || tag == LO_FLOAT || tag == LO_MIDI || tag == LO_CHAR {
      return if |data| >= 4 then 4 else -LO_ESIZE;
    } else if tag == LO_INT64 || tag == LO_TIMETAG || tag == LO_DOUBLE {
      return if |data| >= 8 then 8 else -LO_ESIZE;
    } else if tag == LO_STRING || tag == LO_SYMBOL {
      r := LoValidateString(data);
    } else if tag == LO_BLOB {
      r := LoValidateBlob(data);
    } else {
      return -LO_EINVALIDTYPE;
    }
  }

  /** The argument the accepted bytes stand for. */
  function DecodeArg(tag: byte, b: seq<byte>): Arg
    requires ValidateArg(tag, b) >= 0
  {
    if tag == LO_TRUE then True
    else if tag == LO_FALSE then False
    else if tag == LO_NIL then Nil
    else if tag == LO_INFINITUM then Infinitum
    else if tag == LO_INT32 then Int32(FromBe32(b))
    else if tag == LO_FLOAT then Float(FromBe32(b))
    else if tag == LO_MIDI then Midi(b[..4])
    else if tag == LO_CHAR then Char(FromBe32(b))
    else if tag == LO_INT64 then Int64(FromBe64(b))
    else if tag == LO_TIMETAG then TimetagArg(FromBe32(b), FromBe32(b[4..]))
    else if tag == LO_DOUBLE then Double(FromBe64(b))
    else if tag == LO_STRING then String(b[..StrLen(b)])
    else if tag == LO_SYMBOL then Symbol(b[..StrLen(b)])
    else Blob(b[4..4 + FromBe32(b).Value()])
  }

  /** Blobs above the message size limit are the only arguments the validators refuse. */
  predicate Sendable(a: Arg) {
    a.Blob? ==> |a.b| <= LO_MAX_MSG_SIZE
  }

  // Decoding inverts `Net`.

  lemma DecodeBlob(b: seq<byte>)
    requires ValidateBlob(b) >= 0
    ensures Net(DecodeArg(LO_BLOB, b)) == b[..ValidateBlob(b)]
  {
    var n := FromBe32(b).Value();
    var len := ValidateBlob(b);
    WordOfValue(FromBe32(b));
    assert b[..len] == b[..4] + b[4..4 + n] + b[4 + n..len];
  }

  /** Accepted bytes are the network form of what they decode to. */
  lemma DecodeArgSound(tag: byte, b: seq<byte>)
    requires ValidateArg(tag, b) >= 0
    ensures var a := DecodeArg(tag, b);
            Tag(a) == tag && Sendable(a) && ValidateArg(tag, b) <= |b| &&
            Net(a) == b[..ValidateArg(tag, b)]
  {
    if tag in {LO_STRING, LO_SYMBOL} {
      ValidateStringAccepts(b);
    } else if tag == LO_BLOB {
      DecodeBlob(b);
    }
  }

  lemma DecodeNetBlob(d: BlobData, rest: seq<byte>)
    requires |d| <= LO_MAX_MSG_SIZE
    ensures ValidateArg(LO_BLOB, Net(Blob(d)) + rest) == |Net(Blob(d))|
    ensures DecodeArg(LO_BLOB, Net(Blob(d)) + rest) == Blob(d)
  {
    hide WordOf;
    var b := Net(Blob(d)) + rest;
    assert FromBe32(b) == WordOf(|d|);
    assert b[4..4 + |d|] == d;
    assert b[4 + |d|..BlobSize(|d|)] == BlobPad(d);
  }

  /** The network form of a sendable argument is accepted, and decodes to the argument. */
  lemma DecodeArgNet(a: Arg, rest: seq<byte>)
    requires Sendable(a)
    ensures ValidateArg(Tag(a), Net(a) + rest) == |Net(a)|
    ensures DecodeArg(Tag(a), Net(a) + rest) == a
  {
    hide WordOf, StrLen, Pad, ValidateString, ValidateBlob;
    match a
    case String(s) => ValidateStringPad(s, rest);
    case Symbol(s) => ValidateStringPad(s, rest);
    case Blob(d) => DecodeNetBlob(d, rest);
    case Midi(m) => assert (m + rest)[..4] == m;
    case _ =>
  }

  /** An oversized blob is refused, whatever follows it. */
  lemma OversizedBlobRefused(d: BlobData, rest: seq<byte>)
    requires |d| > LO_MAX_MSG_SIZE
    ensures ValidateArg(LO_BLOB, Net(Blob(d)) + rest) == -LO_ESIZE
  {
    hide WordOf;
    assert FromBe32(Net(Blob(d)) + rest) == WordOf(|d|);
  }
}
