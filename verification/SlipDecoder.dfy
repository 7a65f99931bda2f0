/** The SLIP decoder of the source against that of RFC 1055: one call, and calls with the state threaded. */
module SlipDecoder {
  import opened Bytes
  import opened Slip

  /** Result of decoding a chunk: whether the end was seen, what was written, the state, bytes read. */
  datatype Scan = Scan(ended: bool, out: seq<byte>, escape: bool, bytesread: nat)

  function Preceded(out: seq<byte>, s: Scan): Scan {
    s.(out := out + s.out, bytesread := 1 + s.bytesread)
  }

  /** A chunk up to the end of a packet, as the RFC decodes it. */
  function RfcScan(escape: bool, b: seq<byte>): Scan
    decreases |b|
  {
    if b == [] then Scan(false, [], escape, 0)
    else if escape then Preceded([Unescaped(b[0])], RfcScan(false, b[1..]))
    else if b[0] == END then Scan(true, [], false, 1)
    else if b[0] == ESC then Preceded([], RfcScan(true, b[1..]))
    else Preceded([b[0]], RfcScan(false, b[1..]))
  }

  /** This is the decoder of RFC 1055 up to the end of the packet. */
  lemma {:induction false} ScanIsRfc(d: Decoder, b: seq<byte>)
    ensures var t := RfcScan(d.escape, b);
            t.bytesread <= |b| &&
            if t.ended then
              d.packet + t.out != [] ==>
                FeedAll(d, b[..t.bytesread]) == Decoder(false, [], d.packets + [d.packet + t.out])
            else
              t.bytesread == |b| && FeedAll(d, b) == Decoder(t.escape, d.packet + t.out, d.packets)
    decreases |b|
  {
    if b == [] {
      assert d.packet + [] == d.packet;
    } else {
      var n, t := Feed(d, b[0]), RfcScan(d.escape, b);
      if !d.escape && b[0] == END {
        FeedOne(d, b[0]);
        assert b[..1] == [b[0]] && d.packet + [] == d.packet;
      } else {
        ScanIsRfc(n, b[1..]);
        var k := RfcScan(n.escape, b[1..]);
        assert d.packet + t.out == n.packet + k.out;
        assert b[..t.bytesread] == [b[0]] + b[1..][..k.bytesread];
        assert ([b[0]] + b[1..][..k.bytesread])[1..] == b[1..][..k.bytesread];
      }
    }
  }

  /** What the source makes of `size` rounds; the position stays at an escape. */
  function SourceScan(escape: bool, b: seq<byte>, size: nat): Scan
    requires size <= |b|
    decreases size
  {
    if size == 0 then Scan(false, [], escape, 0)
    else if escape then
      Preceded(if b[0] == ESC_END then [END] else if b[0] == ESC_ESC then [ESC] else [],
              SourceScan(false, b, size - 1))
    else if b[0] == END then Scan(true, [], false, 1)
    else if b[0] == ESC then Preceded([], SourceScan(true, b, size - 1))
    else Preceded([b[0]], SourceScan(false, b[1..], size - 1))
  }

  method SlipDecode(data: seq<byte>, state: bool) returns (ended: bool, out: seq<byte>, escape: bool, bytesread: nat)
    ensures Scan(ended, out, escape, bytesread) == SourceScan(state, data, |data|)
  {
    var from: nat, size: nat := 0, |data|;
    ended, out, escape, bytesread := false, [], state, 0;
    assert data[0..] == data;
    while size > 0
      invariant from + size <= |data|
      invariant SourceScan(state, data, |data|) == Onward(out, bytesread, SourceScan(escape, data[from..], size))
    {
      ghost var rest := data[from..];
      assert rest[1..] == data[from + 1..] && rest[0] == data[from];
      OnwardPreceded(out, bytesread);
      size := size - 1;
      bytesread := bytesread + 1;
      if !escape {
        if data[from] == END {
          return true, out, escape, bytesread;
        } else if data[from] == ESC {
          escape := true;
        } else {
          out := out + [data[from]];
          from := from + 1;
        }
      } else {
        if data[from] == ESC_END {
          out := out + [END];
        } else if data[from] == ESC_ESC {
          out := out + [ESC];
        }
        escape := false;
      }
    }
  }

  function Onward(out: seq<byte>, bytesread: nat, s: Scan): Scan {
    s.(out := out + s.out, bytesread := bytesread + s.bytesread)
  }

  lemma OnwardPreceded(out: seq<byte>, bytesread: nat)
    ensures forall o: seq<byte>, s: Scan ::
              Onward(out, bytesread, Preceded(o, s)) == Onward(out + o, bytesread + 1, s)
    ensures out + [] == out
  {
    forall o: seq<byte>, s: Scan
      ensures Onward(out, bytesread, Preceded(o, s)) == Onward(out + o, bytesread + 1, s)
    {
      assert out + (o + s.out) == out + o + s.out;
    }
  }

  /** Once at an escape the source writes nothing more and sees no end, whatever follows. */
  lemma {:induction false} StuckAtEscape(escape: bool, b: seq<byte>, size: nat)
    requires size <= |b| && b != [] && b[0] == ESC
    ensures var s := SourceScan(escape, b, size);
            !s.ended && s.out == [] && s.bytesread == size && s.escape == (escape != (size % 2 == 1))
    decreases size
  {
    if size > 0 {
      StuckAtEscape(!escape, b, size - 1);
    }
  }

  lemma PrecededInjective(out: seq<byte>, s: Scan, t: Scan)
    ensures Preceded(out, s) == Preceded(out, t) <==> s == t
  {
    assert (out + s.out)[|out|..] == s.out && (out + t.out)[|out|..] == t.out;
  }

  // One call, from either state

  predicate IsCode(c: byte) { c == ESC_END || c == ESC_ESC }

  /** No escape before the end of the packet, except as the very last byte. */
  predicate Plain(b: seq<byte>) {
    b == [] || b[0] == END || (if b[0] == ESC then |b| == 1 else Plain(b[1..]))
  }

  /** Nothing, or one escape code, however often. */
  predicate Repeats(b: seq<byte>) {
    b == [] || (IsCode(b[0]) && forall i | 0 <= i < |b| :: b[i] == b[0])
  }

  /** The chunks the source decodes as the RFC does, depending on the state it is in. */
  predicate Safe(escape: bool, b: seq<byte>) { if escape then Repeats(b) else Plain(b) }

  /** One call agrees with the RFC, in everything it returns, exactly for these chunks. */
  lemma AgreesExactly(escape: bool, b: seq<byte>)
    ensures SourceScan(escape, b, |b|) == RfcScan(escape, b) <==> Safe(escape, b)
  {
    if escape {
      AgreesEscaped(b);
    } else {
      AgreesPlain(b);
    }
  }

  lemma {:induction false} AgreesPlain(b: seq<byte>)
    ensures SourceScan(false, b, |b|) == RfcScan(false, b) <==> Plain(b)
    decreases |b|
  {
    if b != [] && b[0] != END {
      if b[0] == ESC {
        StuckAtEscape(true, b, |b| - 1);
        if |b| > 1 {
          assert RfcScan(true, b[1..]).out[0] == Unescaped(b[1]);
        }
      } else {
        AgreesPlain(b[1..]);
        PrecededInjective([b[0]], SourceScan(false, b[1..], |b| - 1), RfcScan(false, b[1..]));
      }
    }
  }

  /** In the other state the read position lags one byte behind: that shows unless the bytes are equal. */
  lemma AgreesEscaped(b: seq<byte>)
    ensures SourceScan(true, b, |b|) == RfcScan(true, b) <==> Repeats(b)
  {
    hide SourceScan, RfcScan, Preceded;
    if b == [] {
      NothingRead(true);
    } else {
      var lagging, rest := SourceScan(false, b, |b| - 1), RfcScan(false, b[1..]);
      EscapedFirst(b);
      if IsCode(b[0]) {
        PrecededInjective([Unescaped(b[0])], lagging, rest);
        LagsExactly(b);
      } else {
        NotACode(b);
      }
    }
  }

  lemma NothingRead(escape: bool)
    ensures SourceScan(escape, [], 0) == RfcScan(escape, []) == Scan(false, [], escape, 0)
  {
  }

  lemma EscapedFirst(b: seq<byte>)
    requires b != []
    ensures SourceScan(true, b, |b|) ==
            Preceded(if IsCode(b[0]) then [Unescaped(b[0])] else [], SourceScan(false, b, |b| - 1))
    ensures RfcScan(true, b) == Preceded([Unescaped(b[0])], RfcScan(false, b[1..]))
  {
  }

  lemma NotACode(b: seq<byte>)
    requires b != [] && !IsCode(b[0])
    ensures SourceScan(true, b, |b|) != RfcScan(true, b)
  {
    if b[0] == ESC {
      StuckAtEscape(true, b, |b|);
      assert RfcScan(true, b).out[0] == ESC;
    } else if b[0] == END {
      assert SourceScan(true, b, |b|).out == [];
      assert RfcScan(true, b).out[0] == END;
    } else {
      LagShows(b);
    }
  }

  /** One byte behind after an escape code: unnoticed only as long as that code is repeated. */
  lemma {:induction false} LagsExactly(b: seq<byte>)
    requires b != [] && IsCode(b[0])
    ensures SourceScan(false, b, |b| - 1) == RfcScan(false, b[1..]) <==> forall i | 0 <= i < |b| :: b[i] == b[0]
    decreases |b|
  {
    if |b| > 1 {
      if b[1] == b[0] {
        LagsExactly(b[1..]);
        PrecededInjective([b[0]], SourceScan(false, b[1..], |b| - 2), RfcScan(false, b[2..]));
        assert b[1..][1..] == b[2..];
        assert forall i | 0 < i < |b| :: b[i] == b[1..][i - 1];
      } else {
        assert SourceScan(false, b, |b| - 1).out[0] == b[0];
      }
    }
  }

  /** One byte behind after a byte that has written nothing: always noticed. */
  lemma {:induction false} LagShows(b: seq<byte>)
    requires b != []
    ensures Preceded([], SourceScan(false, b, |b| - 1)) != RfcScan(false, b)
    decreases |b|
  {
    if |b| == 1 {
      OneByteLag(b);
    } else {
      if b[0] == ESC {
        StuckAtEscape(false, b, |b| - 1);
        assert RfcScan(true, b[1..]).out[0] == Unescaped(b[1]);
      } else if b[0] != END {
        LagShows(b[1..]);
        var s, t := SourceScan(false, b[1..], |b| - 2), RfcScan(false, b[1..]);
        assert Preceded([], Preceded([b[0]], s)) == Preceded([b[0]], Preceded([], s)) by {
          assert [] + ([b[0]] + s.out) == [b[0]] + ([] + s.out);
        }
        assert SourceScan(false, b, |b| - 1) == Preceded([b[0]], s) && RfcScan(false, b) == Preceded([b[0]], t);
        PrecededInjective([b[0]], Preceded([], s), t);
      }
    }
  }

  lemma OneByteLag(b: seq<byte>)
    requires |b| == 1
    ensures Preceded([], SourceScan(false, b, 0)) != RfcScan(false, b)
  {
    assert b[1..] == [];
    assert SourceScan(false, b, 0) == Scan(false, [], false, 0);
    if b[0] == ESC {
      assert RfcScan(true, []) == Scan(false, [], true, 0);
      assert RfcScan(false, b).escape;
    } else if b[0] != END {
      assert RfcScan(false, []) == Scan(false, [], false, 0);
      assert |RfcScan(false, b).out| == 1;
    }
  }
}
