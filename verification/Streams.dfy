/** Packets over a stream socket: count-prefixed frames, cut anywhere, put together again. */
module Streams {
  import opened Bytes
  import opened OscArgs
  import opened Memory
  import opened ArgMemory
  import opened Messages
  import opened Trees

  const HALF := 16384

  /** What the sender writes for some packets: each after its length. */
  function StreamOf(ps: seq<seq<byte>>): seq<byte> {
    if ps == [] then [] else Framed(ps[0]) + StreamOf(ps[1..])
  }

  /** Length of the packet whose frame is complete in `b`, or 0. */
  function ContainsMsg(b: seq<byte>): (n: nat)
    ensures n > 0 ==> 4 + n <= |b|
  {
    if |b| > 4 then
      var n := FromBe32(b).Value();
      if n + 4 <= |b| then n else 0
    else 0
  }

  /** Packets that survive every segmentation. */
  predicate Fits(p: seq<byte>) { 0 < |p| && 4 + |p| <= HALF + 1 }

  /** The packet that comes next can be received. */
  predicate FirstFits(ps: seq<seq<byte>>) { ps != [] ==> Fits(ps[0]) }

  ghost predicate AllFit(ps: seq<seq<byte>>) {
    forall i | 0 <= i < |ps| :: Fits(ps[i])
  }

  lemma FrameCount(p: seq<byte>, rest: seq<byte>)
    requires |p| < 0x1_0000_0000
    ensures FromBe32(Framed(p) + rest).Value() == |p|
    ensures (Framed(p) + rest)[4..][..|p|] == p && (Framed(p) + rest)[4 + |p|..] == rest
  {
    hide WordOf;
    NoWrap(|p|);
    assert FromBe32(Framed(p) + rest) == WordOf(|p|);
  }

  /** A frame is found once the whole of it is there, and not before. */
  lemma FrameFound(p: seq<byte>, rest: seq<byte>, b: seq<byte>)
    requires 0 < |p| < 0x1_0000_0000 && b <= Framed(p) + rest
    ensures ContainsMsg(b) == if |b| >= 4 + |p| then |p| else 0
  {
    FrameCount(p, rest);
    if |b| > 4 {
      assert FromBe32(b) == FromBe32(Framed(p) + rest);
    }
  }

  /** What is buffered of a frame that is not complete leaves half of the largest buffer free. */
  lemma IncompleteIsShort(p: seq<byte>, rest: seq<byte>, b: seq<byte>)
    requires Fits(p) && b <= Framed(p) + rest && ContainsMsg(b) == 0
    ensures |b| <= HALF && b != Framed(p) + rest
  {
    FrameFound(p, rest, b);
  }

  lemma StreamFirst(ps: seq<seq<byte>>)
    ensures StreamOf(ps) == if ps == [] then [] else Framed(ps[0]) + StreamOf(ps[1..])
    ensures ContainsMsg([]) == 0
  {
    hide Framed, Fits;
  }

  // Growth of the buffer

  /** One round of the growth loop. */
  function Doubled(size: nat): nat {
    if 2 * size > LO_MAX_MSG_SIZE then LO_MAX_MSG_SIZE else 2 * size
  }

  /** Size and bytes left after `n` rounds. */
  function Grown(cap: nat, offset: nat, n: nat): (nat, int) {
    if n == 0 then (if cap < 64 then 64 else cap, cap - offset)
    else
      var size := Doubled(Grown(cap, offset, n - 1).0);
      (size, size - offset)
  }

  /** The loop is left after `n` rounds, or earlier. */
  predicate Enough(cap: nat, offset: nat, n: nat) {
    var (size, left) := Grown(cap, offset, n);
    left >= size / 2
  }

  lemma {:induction false} GrownBound(cap: nat, offset: nat, n: nat)
    requires offset <= cap <= LO_MAX_MSG_SIZE
    ensures 64 <= Grown(cap, offset, n).0 <= LO_MAX_MSG_SIZE &&
            Grown(cap, offset, n).1 <= Grown(cap, offset, n).0 - offset
    ensures Grown(cap, offset, n).0 < LO_MAX_MSG_SIZE ==> Grown(cap, offset, n).0 >= 64 + n
  {
    if n > 0 {
      GrownBound(cap, offset, n - 1);
    }
  }

  ghost predicate GrowthEnds(cap: nat, offset: nat) { exists n :: Enough(cap, offset, n) }

  /** The growth loop ends exactly if no more than half of the largest buffer is taken. */
  lemma GrowthEndsExactly(cap: nat, offset: nat)
    requires offset <= cap <= 32768
    ensures GrowthEnds(cap, offset) <==> offset <= 16384
  {
    if offset <= HALF {
      GrownBound(cap, offset, LO_MAX_MSG_SIZE);
      var n := LO_MAX_MSG_SIZE;
      assert Grown(cap, offset, n).1 == Grown(cap, offset, n).0 - offset;
      assert Enough(cap, offset, n);
    }
    forall n | Enough(cap, offset, n)
      ensures offset <= HALF
    {
      GrownBound(cap, offset, n);
    }
  }

  /** Whatever the size of the buffer, its growth ends. */
  ghost predicate CanGrow(offset: nat) {
    forall cap: nat | offset <= cap <= LO_MAX_MSG_SIZE :: GrowthEnds(cap, offset)
  }

  /**
   * A packet fits just when its frame can be received byte by byte: at every step the buffer can
   * make room for more, and the packet is found at the end.  A longer one hangs the growth loop,
   * an empty one is never found.
   */
  lemma FitsExactly(p: seq<byte>)
    requires |p| <= 32768
    ensures Fits(p) <==> 1 <= |p| <= 16381
    ensures Fits(p) <==>
            (forall k: nat | k < |Framed(p)| :: CanGrow(k)) && ContainsMsg(Framed(p)) == |p| > 0
  {
    hide Framed, GrowthEnds, ContainsMsg;
    assert Framed(p) + [] == Framed(p);
    if |p| > 0 {
      FrameFound(p, [], Framed(p));
    }
    forall k: nat
      ensures CanGrow(k) <==> k <= HALF || k > LO_MAX_MSG_SIZE
    {
      forall cap: nat | k <= cap <= LO_MAX_MSG_SIZE
        ensures GrowthEnds(cap, k) <==> k <= HALF
      {
        GrowthEndsExactly(cap, k);
      }
      assert k <= LO_MAX_MSG_SIZE && CanGrow(k) ==> GrowthEnds(LO_MAX_MSG_SIZE, k);
    }
    if |Framed(p)| > HALF + 1 {
      assert !CanGrow(HALF + 1);
    }
  }

  /**
   * A longer packet arriving byte by byte: nothing is delivered while its first half-buffer is read,
   * and with the next byte no buffer can grow any more.
   */
  lemma LongerHangs(p: seq<byte>, rest: seq<byte>, k: nat, cap: nat)
    requires 16381 < |p| < 0x1_0000_0000 && k <= 16385 && k <= cap <= 32768
    ensures ContainsMsg((Framed(p) + rest)[..k]) == 0 && (GrowthEnds(cap, k) <==> k <= 16384)
  {
    FrameFound(p, rest, (Framed(p) + rest)[..k]);
    GrowthEndsExactly(cap, k);
  }

  /** Whatever follows an empty frame, nothing is ever found behind it. */
  lemma EmptyFrameBlocks(rest: seq<byte>)
    ensures ContainsMsg(Framed([]) + rest) == 0
  {
    FrameCount([], rest);
  }

  class Connection {
    var buffer: array<byte>
    var readOffset: nat
    /** What the peer has sent and has not been read yet. */
    var wire: seq<byte>
    /** The k-th read returns no more than `cut(k)` bytes. */
    const cut: nat -> nat
    var recvs: nat
    /** The packets sent and not delivered yet. */
    ghost var pending: seq<seq<byte>>

    /** Conservation: what is buffered and what is on the wire are the frames still to be delivered. */
    ghost predicate Valid()
      reads this, buffer
    {
      && readOffset <= buffer.Length <= LO_MAX_MSG_SIZE
      && buffer[..readOffset] + wire == StreamOf(pending)
    }

    constructor (cut: nat -> nat)
      ensures Valid() && pending == [] && this.cut == cut && fresh(buffer)
    {
      this.cut := cut;
      buffer := new byte[0];
      readOffset, wire, recvs, pending := 0, [], 0, [];
    }

    /** The peer sends a packet after its length, unless it is too large. */
    method PeerSends(p: seq<byte>) returns (ret: int)
      requires Valid()
      modifies this`wire, this`pending
      ensures Valid() && (ret < 0 <==> |p| > LO_MAX_MSG_SIZE)
      ensures if ret < 0 then pending == old(pending) && wire == old(wire)
              else pending == old(pending) + [p] && wire == old(wire) + Framed(p)
    {
      hide Framed, StreamOf;
      if |p| > LO_MAX_MSG_SIZE {
        return -1;
      }
      StreamMore(pending, p);
      assert buffer[..readOffset] + (wire + Framed(p)) == StreamOf(pending) + Framed(p);
      wire := wire + Framed(p);
      pending := pending + [p];
      ret := |p|;
    }

    /** The packet at the front of the buffer, which is removed from it. */
    method CopyForDispatch() returns (data: Option<seq<byte>>)
      requires readOffset <= buffer.Length
      modifies this`readOffset, buffer
      ensures readOffset <= buffer.Length
      ensures var b := old(buffer[..readOffset]);
              var n := ContainsMsg(b);
              if n == 0 then data == None && buffer[..readOffset] == b
              else data == Some(b[4..4 + n]) && buffer[..readOffset] == b[4 + n..]
    {
      hide ContainsMsg, Splice;
      ghost var b, whole := buffer[..readOffset], buffer[..];
      var n := ContainsMsg(buffer[..readOffset]);
      if n == 0 {
        return None;
      }
      SliceWithin(buffer, readOffset, 4, 4 + n);
      data := Some(buffer[4..4 + n]);
      readOffset := readOffset - (n + 4);
      MovedToFront(whole, n + 4, readOffset);
      if readOffset > 0 {
        Memcpy(buffer, 0, buffer[n + 4..n + 4 + readOffset]);
      }
    }

    /** Doubles the buffer until half of it is free. */
    method MakeRoom()
      requires readOffset <= buffer.Length <= LO_MAX_MSG_SIZE && readOffset <= HALF
      modifies this`buffer
      ensures readOffset <= buffer.Length <= LO_MAX_MSG_SIZE && buffer.Length >= 64
      ensures buffer.Length - readOffset >= buffer.Length / 2
      ensures buffer[..readOffset] == old(buffer[..readOffset]) && (buffer == old(buffer) || fresh(buffer))
    {
      var left: int := buffer.Length - readOffset;
      var size := buffer.Length;
      if size < 64 {
        size := 64;
      }
      while left < size / 2
        invariant 64 <= size <= LO_MAX_MSG_SIZE && buffer.Length <= size
        invariant left == size - readOffset || (left == buffer.Length - readOffset && buffer.Length < size == 64)
        decreases LO_MAX_MSG_SIZE - size, size - left
      {
        size := size * 2;
        if size > LO_MAX_MSG_SIZE {
          size := LO_MAX_MSG_SIZE;
        }
        left := size - readOffset;
      }
      if size > buffer.Length {
        buffer := Realloc(buffer, size);
      }
    }

    /** The socket: some of what is on the wire, up to `room` bytes. */
    method Recv(room: nat) returns (n: nat)
      requires readOffset + room <= buffer.Length
      modifies this`wire, this`recvs, buffer
      ensures n <= room && n <= |old(wire)| && (room > 0 && old(wire) != [] && cut(old(recvs)) > 0 ==> n > 0)
      ensures wire == old(wire)[n..] && buffer[..readOffset + n] == old(buffer[..readOffset] + wire[..n])
    {
      n := if cut(recvs) <= room then cut(recvs) else room;
      if n > |wire| {
        n := |wire|;
      }
      Memcpy(buffer, readOffset, wire[..n]);
      wire := wire[n..];
      recvs := recvs + 1;
    }

    /** One read into the free part of the buffer, which is at least half of it. */
    method ReadMore() returns (room: nat, n: nat)
      requires Valid() && readOffset <= HALF
      modifies this`buffer, this`readOffset, this`wire, this`recvs, buffer
      ensures Valid() && (buffer == old(buffer) || fresh(buffer))
      ensures 0 < buffer.Length / 2 <= room && n <= room && readOffset == old(readOffset) + n
      ensures |wire| == old(|wire|) - n && (old(wire) != [] && cut(old(recvs)) > 0 ==> n > 0)
    {
      hide Framed, Fits, StreamOf;
      ghost var b, w := buffer[..readOffset], wire;
      MakeRoom();
      room := buffer.Length - readOffset;
      n := Recv(room);
      readOffset := readOffset + n;
      assert b + w == b + w[..n] + w[n..];
    }

    /** Until a packet is complete, reads as much as there is room for. */
    method RecvRaw() returns (more: bool, data: Option<seq<byte>>)
      requires Valid() && FirstFits(pending)
      modifies this`buffer, this`readOffset, this`wire, this`recvs, this`pending, buffer
      ensures Valid() && (buffer == old(buffer) || fresh(buffer))
      ensures match data
              case Some(p) => old(pending) == [p] + pending
              case None => pending == old(pending) && (wire == [] ==> pending == [])
      ensures |wire| <= old(|wire|)
      ensures data.None? && old(wire) != [] && (forall k :: cut(k) > 0) ==> |wire| < old(|wire|)
      ensures ContainsMsg(old(buffer[..readOffset])) > 0 ==> more && data.Some? && wire == old(wire)
      ensures data == None ==> !more
    {
      hide Framed, Fits, StreamOf, ContainsMsg;
      while true
        invariant Valid() && pending == old(pending) && (buffer == old(buffer) || fresh(buffer))
        invariant |wire| <= old(|wire|)
        invariant ContainsMsg(old(buffer[..readOffset])) > 0 ==>
                    wire == old(wire) && buffer[..readOffset] == old(buffer[..readOffset])
        decreases |wire|
      {
        data := TakePacket();
        if data.Some? {
          return true, data;
        }
        var room, n := ReadMore();
        if n == 0 {
          return false, None;
        }
        data := TakePacket();
        if data.Some? || n != room {
          return n == room, data;
        }
      }
    }

    /** The first pending packet, if the whole of its frame is in the buffer. */
    method TakePacket() returns (data: Option<seq<byte>>)
      requires Valid() && FirstFits(pending)
      modifies this`readOffset, this`pending, buffer
      ensures Valid()
      ensures match data
              case Some(p) => old(pending) == [p] + pending
              case None => pending == old(pending) && readOffset <= HALF && (wire == [] ==> pending == [])
      ensures data.Some? <==> ContainsMsg(old(buffer[..readOffset])) > 0
    {
      hide Framed, Fits, StreamOf, ContainsMsg;
      ghost var b := buffer[..readOffset];
      StreamFirst(pending);
      data := CopyForDispatch();
      if pending == [] {
        assert b == [];
      } else if data == None {
        assert b <= b + wire;
        IncompleteIsShort(pending[0], StreamOf(pending[1..]), b);
      } else {
        FirstPacket(pending[0], StreamOf(pending[1..]), b, wire);
        pending := pending[1..];
      }
    }

    /** Every packet sent is delivered once, in order, however the stream is cut. */
    method ReceiveAll() returns (delivered: seq<seq<byte>>)
      requires Valid() && AllFit(pending) && forall k :: cut(k) > 0
      modifies this`buffer, this`readOffset, this`wire, this`recvs, this`pending, buffer
      ensures Valid() && delivered == old(pending) && pending == [] && wire == []
    {
      hide Framed, Fits, StreamOf, ContainsMsg, AllFit, FirstFits;
      delivered := [];
      while true
        invariant Valid() && AllFit(pending) && delivered + pending == old(pending) &&
                  (buffer == old(buffer) || fresh(buffer))
        decreases |pending|, |wire|
      {
        FitFirst(pending);
        var more, data := RecvRaw();
        if data.Some? {
          delivered := delivered + [data.value];
        } else if wire == [] {
          break;
        }
      }
    }
  }

  lemma FitFirst(ps: seq<seq<byte>>)
    requires AllFit(ps)
    ensures FirstFits(ps) && (ps != [] ==> AllFit(ps[1..]))
  {
  }

  /** A complete frame is that of the first packet. */
  lemma FirstPacket(p: seq<byte>, rest: seq<byte>, b: seq<byte>, wire: seq<byte>)
    requires Fits(p) && b + wire == Framed(p) + rest && ContainsMsg(b) > 0
    ensures var n := ContainsMsg(b);
            b[4..4 + n] == p && b[4 + n..] + wire == rest
  {
    assert b <= Framed(p) + rest;
    FrameFound(p, rest, b);
    FrameCount(p, rest);
    var n := ContainsMsg(b);
    assert b[4..4 + n] == (Framed(p) + rest)[4..][..n];
    assert b[4 + n..] + wire == (b + wire)[4 + n..];
  }

  lemma SliceWithin(a: array<byte>, k: nat, i: nat, j: nat)
    requires i <= j <= k <= a.Length
    ensures a[..k][i..j] == a[i..j]
  {
    forall m | i <= m < j
      ensures a[..k][i..j][m - i] == a[m]
    {
      assert a[..k][m] == a[m];
    }
  }

  /** Left-over data moved to the beginning of the buffer. */
  lemma MovedToFront(b: seq<byte>, from: nat, n: nat)
    requires from + n <= |b|
    ensures Splice(b, 0, b[from..from + n])[..n] == b[from..from + n] == b[..from + n][from..]
  {
  }

  lemma {:induction false} StreamMore(ps: seq<seq<byte>>, p: seq<byte>)
    ensures StreamOf(ps + [p]) == StreamOf(ps) + Framed(p)
  {
    if ps == [] {
      assert StreamOf([p][1..]) == [];
    } else {
      assert (ps + [p])[1..] == ps[1..] + [p];
      StreamMore(ps[1..], p);
    }
  }
}
