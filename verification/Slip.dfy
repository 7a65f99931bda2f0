/** The serial line framing of RFC 1055: the encoder, the decoder of the RFC, and the source's decoder. */
module Slip {
  import opened Bytes

  const END: byte := 0xC0
  const ESC: byte := 0xDB
  const ESC_END: byte := 0xDC
  const ESC_ESC: byte := 0xDD

  // Encoding

  function Escaped(c: byte): (r: seq<byte>)
    ensures |r| == (if c in {ESC, END} then 2 else 1) && END !in r
  {
    if c == ESC then [ESC, ESC_ESC] else if c == END then [ESC, ESC_END] else [c]
  }

  function EscapedAll(data: seq<byte>): seq<byte> {
    if data == [] then [] else Escaped(data[0]) + EscapedAll(data[1..])
  }

  function Encode(data: seq<byte>): seq<byte> { EscapedAll(data) + [END] }

  lemma {:induction false} EscapedAppend(data: seq<byte>, c: byte)
    ensures EscapedAll(data + [c]) == EscapedAll(data) + Escaped(c)
  {
    if data == [] {
      assert [c][1..] == [];
    } else {
      assert (data + [c])[1..] == data[1..] + [c];
      EscapedAppend(data[1..], c);
    }
  }

  method SlipEncode(data: seq<byte>) returns (slipdata: seq<byte>)
    ensures slipdata == Encode(data)
  {
    hide Escaped, EscapedAll;
    slipdata := [];
    NothingEscaped();
    var i := 0;
    while i < |data|
      invariant i <= |data| && slipdata == EscapedAll(data[..i])
    {
      EscapedAppend(data[..i], data[i]);
      assert data[..i + 1] == data[..i] + [data[i]];
      EscapedByte(data[i]);
      if data[i] == ESC {
        slipdata := slipdata + [ESC, ESC_ESC];
      } else if data[i] == END {
        slipdata := slipdata + [ESC, ESC_END];
      } else {
        slipdata := slipdata + [data[i]];
      }
      i := i + 1;
    }
    assert data[..i] == data;
    slipdata := slipdata + [END];
  }

  /** Byte by byte: END and ESC become two bytes, and a last END is added. */
  lemma EncodedBytes(c: byte, rest: seq<byte>)
    ensures Encode([]) == [0xC0]
    ensures Encode([c] + rest) ==
            (if c == 0xC0 then [0xDB, 0xDC] else if c == 0xDB then [0xDB, 0xDD] else [c]) + Encode(rest)
  {
    assert ([c] + rest)[1..] == rest;
  }

  /** Data without these two is sent as it is. */
  lemma {:induction false} PlainEncoded(data: seq<byte>)
    requires 0xC0 !in data && 0xDB !in data
    ensures Encode(data) == data + [0xC0]
  {
    if data != [] {
      PlainEncoded(data[1..]);
      assert data == [data[0]] + data[1..];
      EncodedBytes(data[0], data[1..]);
    }
  }

  lemma NothingEscaped()
    ensures EscapedAll([]) == []
  {
  }

  lemma EscapedByte(c: byte)
    ensures Escaped(c) == if c == ESC then [ESC, ESC_ESC] else if c == END then [ESC, ESC_END] else [c]
  {
  }

  /** Number of bytes that are escaped. */
  function Special(data: seq<byte>): nat {
    if data == [] then 0 else (if data[0] in {ESC, END} then 1 else 0) + Special(data[1..])
  }

  /** The end marker is the last byte and no other; every escaped byte takes two. */
  lemma {:induction false} EncodeShape(data: seq<byte>)
    ensures var r := Encode(data);
            |r| == |data| + Special(data) + 1 && END !in r[..|r| - 1] && r[|r| - 1] == END
  {
    var e := EscapedAll(data);
    EscapedShape(data);
    assert Encode(data)[..|e|] == e;
  }

  lemma {:induction false} EscapedShape(data: seq<byte>)
    ensures |EscapedAll(data)| == |data| + Special(data) && END !in EscapedAll(data)
  {
    if data != [] {
      EscapedShape(data[1..]);
    }
  }

  // The decoder of RFC 1055

  /** Whether an escape has been read, the bytes of the packet so far, and the packets before it. */
  datatype Decoder = Decoder(escape: bool, packet: seq<byte>, packets: seq<seq<byte>>)

  /** After an escape; any other byte violates the protocol and is kept as it is. */
  function Unescaped(c: byte): byte {
    if c == ESC_END then END else if c == ESC_ESC then ESC else c
  }

  /** One byte; empty packets are dropped. */
  function Feed(d: Decoder, c: byte): Decoder {
    if d.escape then d.(escape := false, packet := d.packet + [Unescaped(c)])
    else if c == END then
      if d.packet == [] then d else Decoder(false, [], d.packets + [d.packet])
    else if c == ESC then d.(escape := true)
    else d.(packet := d.packet + [c])
  }

  function FeedAll(d: Decoder, b: seq<byte>): Decoder
    decreases |b|
  {
    if b == [] then d else FeedAll(Feed(d, b[0]), b[1..])
  }

  function FeedChunks(d: Decoder, chunks: seq<seq<byte>>): Decoder
    decreases |chunks|
  {
    if chunks == [] then d else FeedChunks(FeedAll(d, chunks[0]), chunks[1..])
  }

  function Concat(bs: seq<seq<byte>>): seq<byte> {
    if bs == [] then [] else bs[0] + Concat(bs[1..])
  }

  lemma {:induction false} FeedAppend(d: Decoder, a: seq<byte>, b: seq<byte>)
    ensures FeedAll(d, a + b) == FeedAll(FeedAll(d, a), b)
    decreases |a|
  {
    if a == [] {
      assert a + b == b;
    } else {
      assert (a + b)[1..] == a[1..] + b;
      FeedAppend(Feed(d, a[0]), a[1..], b);
    }
  }

  /** How the bytes are cut into chunks does not matter. */
  lemma {:induction false} ChunksDoNotMatter(d: Decoder, chunks: seq<seq<byte>>)
    ensures FeedChunks(d, chunks) == FeedAll(d, Concat(chunks))
    decreases |chunks|
  {
    if chunks != [] {
      FeedAppend(d, chunks[0], Concat(chunks[1..]));
      ChunksDoNotMatter(FeedAll(d, chunks[0]), chunks[1..]);
    }
  }

  lemma FeedEscaped(d: Decoder, c: byte)
    requires !d.escape
    ensures FeedAll(d, Escaped(c)) == d.(packet := d.packet + [c])
  {
    if c in {ESC, END} {
      assert Escaped(c)[1..] == [Escaped(c)[1]];
      assert FeedAll(d, Escaped(c)) == FeedAll(Feed(d, ESC), [Escaped(c)[1]]);
      FeedOne(Feed(d, ESC), Escaped(c)[1]);
    } else {
      FeedOne(d, c);
    }
  }

  lemma FeedOne(d: Decoder, c: byte)
    ensures FeedAll(d, [c]) == Feed(d, c)
  {
    assert [c][1..] == [];
  }

  lemma {:induction false} FeedData(d: Decoder, data: seq<byte>)
    requires !d.escape
    ensures FeedAll(d, EscapedAll(data)) == d.(packet := d.packet + data)
    decreases |data|
  {
    if data == [] {
      assert d.packet + [] == d.packet;
    } else {
      var d' := d.(packet := d.packet + [data[0]]);
      FeedEscaped(d, data[0]);
      FeedAppend(d, Escaped(data[0]), EscapedAll(data[1..]));
      FeedData(d', data[1..]);
      assert d.packet + [data[0]] + data[1..] == d.packet + data;
    }
  }

  /** The RFC's decoder inverts the encoder. */
  lemma DecodeEncode(d: Decoder, data: seq<byte>)
    requires !d.escape && d.packet == [] && data != []
    ensures FeedAll(d, Encode(data)) == Decoder(false, [], d.packets + [data])
  {
    FeedAppend(d, EscapedAll(data), [END]);
    FeedData(d, data);
    assert d.packet + data == data;
    FeedOne(d.(packet := data), END);
  }

  function EncodeAll(ps: seq<seq<byte>>): seq<byte> {
    if ps == [] then [] else Encode(ps[0]) + EncodeAll(ps[1..])
  }

  lemma {:induction false} DecodeEncodeAll(d: Decoder, ps: seq<seq<byte>>)
    requires !d.escape && d.packet == [] && forall i | 0 <= i < |ps| :: ps[i] != []
    ensures FeedAll(d, EncodeAll(ps)) == Decoder(false, [], d.packets + ps)
    decreases |ps|
  {
    if ps == [] {
      assert d.packets + ps == d.packets;
    } else {
      DecodeEncode(d, ps[0]);
      FeedAppend(d, Encode(ps[0]), EncodeAll(ps[1..]));
      DecodeEncodeAll(Decoder(false, [], d.packets + [ps[0]]), ps[1..]);
      assert d.packets + [ps[0]] + ps[1..] == d.packets + ps;
    }
  }

  /** Whatever packets are encoded, and however the bytes are cut, the packets are decoded. */
  lemma SlipRoundTrip(ps: seq<seq<byte>>, chunks: seq<seq<byte>>)
    requires Concat(chunks) == EncodeAll(ps) && forall i | 0 <= i < |ps| :: ps[i] != []
    ensures FeedChunks(Decoder(false, [], []), chunks) == Decoder(false, [], ps)
  {
    ChunksDoNotMatter(Decoder(false, [], []), chunks);
    DecodeEncodeAll(Decoder(false, [], []), ps);
  }
}
