/** SLIP over several chunks: the source's decoder with its state threaded from call to call. */
module SlipThreads {
  import opened Bytes
  import opened Slip
  import opened SlipDecoder

  // Any chunks

  /** What the calls return, one for each chunk. */
  function SourceCalls(escape: bool, chunks: seq<seq<byte>>): seq<Scan>
    decreases |chunks|
  {
    if chunks == [] then []
    else
      var s := SourceScan(escape, chunks[0], |chunks[0]|);
      [s] + SourceCalls(s.escape, chunks[1..])
  }

  /** What they would return if each decoded as the RFC does. */
  function RfcCalls(escape: bool, chunks: seq<seq<byte>>): seq<Scan>
    decreases |chunks|
  {
    if chunks == [] then []
    else
      var s := RfcScan(escape, chunks[0]);
      [s] + RfcCalls(s.escape, chunks[1..])
  }

  /** Every chunk is safe in the state it is met in. */
  predicate SafelyCut(escape: bool, chunks: seq<seq<byte>>)
    decreases |chunks|
  {
    chunks == [] ||
    (Safe(escape, chunks[0]) && SafelyCut(RfcScan(escape, chunks[0]).escape, chunks[1..]))
  }

  /** For all bytes, all chunkings and both states: every call agrees exactly if every chunk is safe. */
  lemma {:induction false} CallsAgreeExactly(escape: bool, chunks: seq<seq<byte>>)
    ensures SourceCalls(escape, chunks) == RfcCalls(escape, chunks) <==> SafelyCut(escape, chunks)
    decreases |chunks|
  {
    hide SourceScan, RfcScan, Safe;
    if chunks != [] {
      var s, t := SourceScan(escape, chunks[0], |chunks[0]|), RfcScan(escape, chunks[0]);
      AgreesExactly(escape, chunks[0]);
      if s == t {
        CallsAgreeExactly(s.escape, chunks[1..]);
        assert SourceCalls(escape, chunks)[1..] == SourceCalls(s.escape, chunks[1..]);
        assert RfcCalls(escape, chunks)[1..] == RfcCalls(s.escape, chunks[1..]);
      } else {
        assert SourceCalls(escape, chunks)[0] == s && RfcCalls(escape, chunks)[0] == t;
      }
    }
  }

  // The chunks of one encoded packet

  /** The calls up to the one that sees the end of a packet, taken together. */
  function SourceRun(escape: bool, chunks: seq<seq<byte>>): Scan
    decreases |chunks|
  {
    if chunks == [] then Scan(false, [], escape, 0)
    else
      var s := SourceScan(escape, chunks[0], |chunks[0]|);
      if s.ended then s else Onward(s.out, s.bytesread, SourceRun(s.escape, chunks[1..]))
  }

  method SlipDecodeAll(chunks: seq<seq<byte>>, state: bool)
    returns (ended: bool, out: seq<byte>, escape: bool, bytesread: nat)
    ensures Scan(ended, out, escape, bytesread) == SourceRun(state, chunks)
  {
    ended, out, escape, bytesread := false, [], state, 0;
    var i := 0;
    assert chunks[0..] == chunks;
    while i < |chunks|
      invariant i <= |chunks| && !ended
      invariant SourceRun(state, chunks) == Onward(out, bytesread, SourceRun(escape, chunks[i..]))
    {
      assert chunks[i..][1..] == chunks[i + 1..] && chunks[i..][0] == chunks[i];
      var part, n;
      ended, part, escape, n := SlipDecode(chunks[i], escape);
      OnwardOnward(out, bytesread, part, n);
      out := out + part;
      bytesread := bytesread + n;
      if ended {
        return;
      }
      i := i + 1;
    }
  }

  lemma OnwardOnward(out: seq<byte>, m: nat, part: seq<byte>, n: nat)
    ensures forall s: Scan :: Onward(out, m, Onward(part, n, s)) == Onward(out + part, m + n, s)
    ensures out + part + [] == out + part
  {
    forall s: Scan
      ensures Onward(out, m, Onward(part, n, s)) == Onward(out + part, m + n, s)
    {
      assert out + (part + s.out) == out + part + s.out;
    }
  }

  /** The end of the packet was seen, and the data is what was written. */
  predicate Gives(s: Scan, data: seq<byte>) { s.ended && s.out == data }

  /** In the given state the bytes `r` are what is left of the encoding of `rest`. */
  predicate Stream(escape: bool, r: seq<byte>, rest: seq<byte>) {
    (if escape then [ESC] + r else r) == Encode(rest)
  }

  predicate IsSpecial(c: byte) { c == ESC || c == END }

  lemma StreamFirst(escape: bool, r: seq<byte>, rest: seq<byte>)
    requires Stream(escape, r, rest)
    ensures r != []
    ensures escape ==> rest != [] && IsCode(r[0]) && rest[0] == Unescaped(r[0]) && IsSpecial(rest[0]) &&
                       Stream(false, r[1..], rest[1..])
    ensures !escape && r[0] == END ==> rest == [] && r == [END]
    ensures !escape && r[0] == ESC ==> rest != [] && IsSpecial(rest[0]) && Stream(true, r[1..], rest)
    ensures !escape && !IsSpecial(r[0]) ==> rest != [] && rest[0] == r[0] && Stream(false, r[1..], rest[1..])
  {
    if escape {
      StreamEscaped(r, rest);
    } else if rest != [] {
      StreamPlain(r, rest);
    }
  }

  lemma StreamEscaped(r: seq<byte>, rest: seq<byte>)
    requires Stream(true, r, rest)
    ensures r != [] && rest != [] && IsCode(r[0]) && rest[0] == Unescaped(r[0]) && IsSpecial(rest[0])
    ensures Stream(false, r[1..], rest[1..])
  {
    var b := [ESC] + r;
    assert b[0] == ESC && b[1..] == r && b[2..] == r[1..];
    assert rest != [] && b == Escaped(rest[0]) + Encode(rest[1..]);
    assert b[|Escaped(rest[0])|..] == Encode(rest[1..]) && b[1] == r[0];
  }

  lemma StreamPlain(r: seq<byte>, rest: seq<byte>)
    requires Stream(false, r, rest) && rest != []
    ensures r != [] && r[0] != END
    ensures r[0] == ESC ==> IsSpecial(rest[0]) && Stream(true, r[1..], rest)
    ensures !IsSpecial(r[0]) ==> rest[0] == r[0] && Stream(false, r[1..], rest[1..])
  {
    assert r == Escaped(rest[0]) + Encode(rest[1..]);
    assert r[|Escaped(rest[0])|..] == Encode(rest[1..]) && r == [r[0]] + r[1..];
  }

  /** What the RFC's decoder makes of the first chunk of a stream. */
  lemma {:induction false} StreamScan(escape: bool, b: seq<byte>, r: seq<byte>, rest: seq<byte>)
    requires Stream(escape, b + r, rest)
    ensures var t := RfcScan(escape, b);
            t.out <= rest &&
            if t.ended then t.out == rest && r == []
            else Stream(t.escape, r, rest[|t.out|..])
    decreases |b|
  {
    hide Stream, Unescaped, IsSpecial;
    if b == [] {
      assert b + r == r && rest[0..] == rest;
    } else {
      StreamFirst(escape, b + r, rest);
      assert (b + r)[0] == b[0] && (b + r)[1..] == b[1..] + r;
      if escape {
        StreamScan(false, b[1..], r, rest[1..]);
      } else if b[0] == ESC {
        StreamScan(true, b[1..], r, rest);
      } else if b[0] != END {
        NotSpecial(b[0]);
        StreamScan(false, b[1..], r, rest[1..]);
      }
    }
  }

  lemma NotSpecial(c: byte)
    ensures IsSpecial(c) <==> c == ESC || c == END
  {
  }

  /** From its first state the source never writes more than the RFC's decoder, and less after an escape. */
  lemma {:induction false} NoMoreThanRfc(escape: bool, b: seq<byte>, r: seq<byte>, rest: seq<byte>)
    requires Stream(escape, b + r, rest)
    ensures var s, t := SourceScan(false, b, |b|), RfcScan(escape, b);
            |s.out| <= |t.out| && (s.ended ==> t.ended && |s.out| == |t.out|) &&
            (!escape && !Plain(b) ==> !s.ended && |s.out| < |t.out|)
    decreases |b|
  {
    hide Stream;
    if b != [] {
      StreamFirst(escape, b + r, rest);
      assert (b + r)[0] == b[0] && (b + r)[1..] == b[1..] + r;
      if escape {
        NoMoreThanRfc(false, b[1..], r, rest[1..]);
      } else if b[0] == ESC {
        StuckAtEscape(false, b, |b|);
        if |b| > 1 {
          StreamFirst(true, b[1..] + r, rest);
        }
      } else if b[0] != END {
        NoMoreThanRfc(false, b[1..], r, rest[1..]);
      }
    }
  }

  /** Lagging one byte behind, it may skip a last escape. */
  lemma {:induction false} LagWritesNoMore(b: seq<byte>, r: seq<byte>, rest: seq<byte>)
    requires b != [] && Stream(false, b + r, rest)
    ensures var u, t := SourceScan(false, b, |b| - 1), RfcScan(false, b);
            !u.ended && |u.out| <= |t.out| &&
            (|u.out| == |t.out| ==> t.ended || (t.escape && !u.escape))
    decreases |b|
  {
    hide Stream;
    StreamFirst(false, b + r, rest);
    assert (b + r)[0] == b[0] && (b + r)[1..] == b[1..] + r;
    if |b| == 1 {
      assert b[1..] == [];
    } else if b[0] == ESC {
      StuckAtEscape(false, b, |b| - 1);
    } else if b[0] != END {
      LagWritesNoMore(b[1..], r, rest[1..]);
    }
  }

  /** From its second state the source sees no end, and writes at most one byte more. */
  lemma AtMostOneMore(escape: bool, b: seq<byte>, r: seq<byte>, rest: seq<byte>)
    requires b != [] && Stream(escape, b + r, rest)
    ensures var s, t := SourceScan(true, b, |b|), RfcScan(escape, b);
            !s.ended && |s.out| <= |t.out| + 1 &&
            (|s.out| == |t.out| + 1 ==> t.ended || (t.escape && !s.escape))
  {
    hide Stream;
    StreamFirst(escape, b + r, rest);
    assert (b + r)[0] == b[0] && (b + r)[1..] == b[1..] + r;
    EscapedFirst(b);
    if escape {
      AsIfPlain(b, r, rest);
      LagWritesNoMore(b, r, [b[0]] + rest[1..]);
      PlainFirst(b);
    } else {
      LagWritesNoMore(b, r, rest);
    }
  }

  /** An escape code read as an ordinary byte. */
  lemma AsIfPlain(b: seq<byte>, r: seq<byte>, rest: seq<byte>)
    requires b != [] && IsCode(b[0]) && rest != [] && Stream(false, b[1..] + r, rest[1..])
    ensures Stream(false, b + r, [b[0]] + rest[1..])
  {
    assert ([b[0]] + rest[1..])[1..] == rest[1..];
    assert b + r == [b[0]] + (b[1..] + r);
  }

  lemma PlainFirst(b: seq<byte>)
    requires b != [] && IsCode(b[0])
    ensures RfcScan(false, b) == Preceded([b[0]], RfcScan(false, b[1..]))
  {
  }

  /** Nothing left: no end is seen any more. */
  lemma {:induction false} NothingLeft(escape: bool, other: bool, chunks: seq<seq<byte>>)
    requires Concat(chunks) == []
    ensures !SourceRun(escape, chunks).ended && SafelyCut(other, chunks)
    decreases |chunks|
  {
    if chunks != [] {
      assert chunks[0] == [];
      NothingLeft(escape, other, chunks[1..]);
    }
  }

  /** What is left to be written begins with what a call writes. */
  lemma RunGives(escape: bool, chunks: seq<seq<byte>>, want: seq<byte>)
    requires chunks != [] && Gives(SourceRun(escape, chunks), want)
    ensures var s := SourceScan(escape, chunks[0], |chunks[0]|);
            s.out <= want &&
            if s.ended then s.out == want else Gives(SourceRun(s.escape, chunks[1..]), want[|s.out|..])
  {
  }

  /** The source is behind the RFC's decoder, or level with it but without the escape just read. */
  predicate Behind(source: bool, want: seq<byte>, rfc: bool, rest: seq<byte>) {
    && |want| >= |rest| && want[|want| - |rest|..] == rest
    && (|want| == |rest| ==> !source && rfc)
  }

  /** Once behind, the source cannot catch up before the end of the packet. */
  lemma {:induction false} BehindFails(source: bool, want: seq<byte>, rfc: bool, rest: seq<byte>,
                                       chunks: seq<seq<byte>>)
    requires Stream(rfc, Concat(chunks), rest) && Behind(source, want, rfc, rest)
    ensures !Gives(SourceRun(source, chunks), want)
    decreases |chunks|
  {
    hide Stream, SourceScan, RfcScan, Unescaped, Concat;
    if chunks != [] && Gives(SourceRun(source, chunks), want) {
      var b, r := chunks[0], Concat(chunks[1..]);
      ConcatFirst(chunks);
      RunGives(source, chunks, want);
      if b == [] {
        NothingRead(source);
        assert [] + r == r && want[0..] == want;
        BehindFails(source, want, rfc, rest, chunks[1..]);
      } else {
        StreamScan(rfc, b, r, rest);
        var s, t := SourceScan(source, b, |b|), RfcScan(rfc, b);
        if source {
          AtMostOneMore(rfc, b, r, rest);
        } else {
          NoMoreThanRfc(rfc, b, r, rest);
        }
        if |want| == |rest| {
          LevelMismatch(b, r, rest);
        } else if t.ended {
          NothingLeft(s.escape, false, chunks[1..]);
        } else if !s.ended {
          StillBehind(want, rest, |s.out|, |t.out|);
          BehindFails(s.escape, want[|s.out|..], t.escape, rest[|t.out|..], chunks[1..]);
        }
      }
    }
  }

  lemma ConcatFirst(chunks: seq<seq<byte>>)
    requires chunks != []
    ensures Concat(chunks) == chunks[0] + Concat(chunks[1..])
  {
  }

  /** Level, but without the escape: the next byte is written as it is. */
  lemma LevelMismatch(b: seq<byte>, r: seq<byte>, rest: seq<byte>)
    requires b != [] && Stream(true, b + r, rest)
    ensures !(SourceScan(false, b, |b|).out <= rest)
  {
    StreamFirst(true, b + r, rest);
    assert (b + r)[0] == b[0];
    assert SourceScan(false, b, |b|).out[0] == b[0];
  }

  lemma StillBehind(want: seq<byte>, rest: seq<byte>, m: nat, n: nat)
    requires m <= |want| && n <= |rest| < |want| && m <= n + 1 && want[|want| - |rest|..] == rest
    ensures |want[m..]| >= |rest[n..]| && want[m..][|want[m..]| - |rest[n..]|..] == rest[n..]
  {
  }

  /** One byte behind after an escape code, on a chunk that does not just repeat it: a byte is wrong. */
  lemma {:induction false} LagMismatch(b: seq<byte>, r: seq<byte>, rest: seq<byte>)
    requires b != [] && IsCode(b[0]) && Stream(false, b[1..] + r, rest)
    requires exists i :: 0 <= i < |b| && b[i] != b[0]
    ensures !(SourceScan(false, b, |b| - 1).out <= rest)
    decreases |b|
  {
    hide Stream;
    StreamFirst(false, b[1..] + r, rest);
    var i :| 0 <= i < |b| && b[i] != b[0];
    assert (b[1..] + r)[0] == b[1] && (b[1..] + r)[1..] == b[2..] + r;
    if b[1] == b[0] {
      assert b[1..][1..] == b[2..] && b[1..][i - 1] == b[i];
      LagMismatch(b[1..], r, rest[1..]);
    }
    assert SourceScan(false, b, |b| - 1).out[0] == b[0];
  }

  /** A chunk that is not safe: what the source writes is wrong, or it is behind from then on. */
  lemma UnsafeFails(escape: bool, rest: seq<byte>, chunks: seq<seq<byte>>)
    requires chunks != [] && Stream(escape, Concat(chunks), rest) && !Safe(escape, chunks[0])
    ensures !Gives(SourceRun(escape, chunks), rest)
  {
    hide Stream, SourceScan, RfcScan, Plain, Concat, Unescaped;
    if Gives(SourceRun(escape, chunks), rest) {
      var b, r := chunks[0], Concat(chunks[1..]);
      ConcatFirst(chunks);
      RunGives(escape, chunks, rest);
      var s, t := SourceScan(escape, b, |b|), RfcScan(escape, b);
      if escape {
        StreamFirst(true, b + r, rest);
        assert (b + r)[0] == b[0] && (b + r)[1..] == b[1..] + r;
        EscapedFirst(b);
        LagMismatch(b, r, rest[1..]);
        TailWithin([Unescaped(b[0])], SourceScan(false, b, |b| - 1), rest);
      } else {
        StreamScan(false, b, r, rest);
        NoMoreThanRfc(false, b, r, rest);
        if t.ended {
          NothingLeft(s.escape, false, chunks[1..]);
        } else {
          FallsBehind(rest, |s.out|, |t.out|);
          BehindFails(s.escape, rest[|s.out|..], t.escape, rest[|t.out|..], chunks[1..]);
        }
      }
    }
  }

  lemma TailWithin(out: seq<byte>, s: Scan, rest: seq<byte>)
    ensures Preceded(out, s).out <= rest ==> |out| <= |rest| && s.out <= rest[|out|..]
  {
    if Preceded(out, s).out <= rest {
      assert rest[|out|..][..|s.out|] == s.out;
    }
  }

  lemma FallsBehind(rest: seq<byte>, m: nat, n: nat)
    requires m < n <= |rest|
    ensures |rest[m..]| > |rest[n..]| && rest[m..][|rest[m..]| - |rest[n..]|..] == rest[n..]
  {
  }

  lemma {:induction false} RunDecodesExactly(escape: bool, rest: seq<byte>, chunks: seq<seq<byte>>)
    requires Stream(escape, Concat(chunks), rest)
    ensures Gives(SourceRun(escape, chunks), rest) <==> SafelyCut(escape, chunks)
    decreases |chunks|
  {
    hide Stream, SourceScan, RfcScan, Safe, Concat;
    if chunks == [] {
      NothingToRead(escape, rest);
    } else if !Safe(escape, chunks[0]) {
      UnsafeFails(escape, rest, chunks);
    } else {
      var b, r := chunks[0], Concat(chunks[1..]);
      var t := RfcScan(escape, b);
      ConcatFirst(chunks);
      AgreesExactly(escape, b);
      StreamScan(escape, b, r, rest);
      if t.ended {
        NothingLeft(false, t.escape, chunks[1..]);
      } else {
        RunDecodesExactly(t.escape, rest[|t.out|..], chunks[1..]);
        GivesOnward(t.out, t.bytesread, SourceRun(t.escape, chunks[1..]), rest);
      }
    }
  }

  lemma NothingToRead(escape: bool, rest: seq<byte>)
    ensures !Stream(escape, Concat([]), rest)
  {
    if Stream(escape, [], rest) {
      StreamFirst(escape, [], rest);
    }
  }

  lemma GivesOnward(out: seq<byte>, n: nat, s: Scan, rest: seq<byte>)
    requires out <= rest
    ensures Gives(Onward(out, n, s), rest) <==> Gives(s, rest[|out|..])
  {
    assert rest == out + rest[|out|..];
    assert (out + s.out)[|out|..] == s.out;
  }

  /**
   * However an encoded packet is cut, the source decodes it to the data exactly if every escape is
   * the last byte of its chunk and the next one repeats nothing but the escape code.
   */
  lemma ThreadedDecodesExactly(data: seq<byte>, chunks: seq<seq<byte>>)
    requires Concat(chunks) == Encode(data)
    ensures Gives(SourceRun(false, chunks), data) <==> SafelyCut(false, chunks)
  {
    RunDecodesExactly(false, data, chunks);
  }

  /** The packet in one chunk: exactly if it has neither special byte. */
  lemma WholeDecodesExactly(data: seq<byte>)
    ensures Gives(SourceScan(false, Encode(data), |Encode(data)|), data) <==> ESC !in data && END !in data
  {
    var b := Encode(data);
    var chunks: seq<seq<byte>> := [b];
    assert chunks[1..] == [];
    ThreadedDecodesExactly(data, chunks);
    PlainExactly(data);
    OneRun(b);
    hide SourceScan, RfcScan, Encode, Plain;
    assert SafelyCut(false, chunks) == Plain(b);
  }

  lemma OneRun(b: seq<byte>)
    ensures var chunks: seq<seq<byte>> := [b];
            SourceRun(false, chunks).ended == SourceScan(false, b, |b|).ended &&
            SourceRun(false, chunks).out == SourceScan(false, b, |b|).out
  {
    var s, chunks: seq<seq<byte>> := SourceScan(false, b, |b|), [b];
    assert chunks[1..] == [] && s.out + [] == s.out;
  }

  lemma {:induction false} PlainExactly(data: seq<byte>)
    ensures Plain(Encode(data)) <==> ESC !in data && END !in data
  {
    var b := Encode(data);
    if data == [] {
      assert b == [END];
    } else {
      assert b == Escaped(data[0]) + Encode(data[1..]);
      assert data == [data[0]] + data[1..];
      if data[0] !in {ESC, END} {
        assert b[1..] == Encode(data[1..]);
        PlainExactly(data[1..]);
      }
    }
  }

  /** Byte by byte every packet is decoded. */
  lemma ByteByByteDecodes(data: seq<byte>)
    ensures Gives(SourceRun(false, Bytewise(Encode(data))), data)
  {
    ConcatBytewise(Encode(data));
    StreamBytewise(false, Encode(data), data);
    ThreadedDecodesExactly(data, Bytewise(Encode(data)));
  }

  function Bytewise(b: seq<byte>): seq<seq<byte>> {
    if b == [] then [] else [[b[0]]] + Bytewise(b[1..])
  }

  lemma {:induction false} ConcatBytewise(b: seq<byte>)
    ensures Concat(Bytewise(b)) == b
  {
    if b != [] {
      ConcatBytewise(b[1..]);
      assert Bytewise(b)[1..] == Bytewise(b[1..]);
      assert b == [b[0]] + b[1..];
    }
  }

  lemma {:induction false} StreamBytewise(escape: bool, r: seq<byte>, rest: seq<byte>)
    requires Stream(escape, r, rest)
    ensures SafelyCut(escape, Bytewise(r))
    decreases |r|
  {
    hide Stream;
    StreamFirst(escape, r, rest);
    ScanOne(escape, r[0]);
    assert Bytewise(r)[0] == [r[0]] && Bytewise(r)[1..] == Bytewise(r[1..]);
    if !escape && r[0] == END {
      assert r[1..] == [];
    } else if !escape && r[0] == ESC {
      StreamBytewise(true, r[1..], rest);
    } else {
      NotSpecial(r[0]);
      StreamBytewise(false, r[1..], rest[1..]);
    }
  }

  lemma ScanOne(escape: bool, c: byte)
    ensures RfcScan(escape, [c]).escape == (!escape && c == ESC)
    ensures Safe(escape, [c]) <==> !escape || IsCode(c)
  {
    var b: seq<byte> := [c];
    assert b[1..] == [] && Plain([]);
    assert Repeats(b) <==> IsCode(b[0]);
  }
}
