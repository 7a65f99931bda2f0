/** Packets as values: messages, and bundles of packets, with their bytes. */
module Trees {
  import opened Bytes
  import opened Timetags
  import opened OscArgs
  import opened ArgMemory

  datatype Tree =
    | MessageTree(path: CString, args: seq<Arg>)
    | BundleTree(ts: Timetag, elems: seq<Tree>)

  const BUNDLE: CString :=
    ['#' as int, 'b' as int, 'u' as int, 'n' as int, 'd' as int, 'l' as int, 'e' as int]

  function TimetagWire(ts: Timetag): (b: seq<byte>)
    ensures |b| == 8
  {
    Be32(WordOf(ts.sec)) + Be32(WordOf(ts.frac))
  }

  function BundleHeader(ts: Timetag): (b: seq<byte>)
    ensures |b| == 16
  {
    Pad(BUNDLE) + TimetagWire(ts)
  }

  /** The count word before an element; the source truncates it to 32 bits. */
  function Count(n: nat): (b: seq<byte>)
    ensures |b| == 4
  {
    Be32(WordOf(Wrap32(n)))
  }

  function TreeWire(t: Tree): (b: seq<byte>)
    decreases t, 1
  {
    match t
    case MessageTree(path, args) => Wire(path, args)
    case BundleTree(ts, elems) => BundleHeader(ts) + ElemsWire(elems)
  }

  function ElemsWire(ts: seq<Tree>): (b: seq<byte>)
    decreases ts, 0
  {
    if ts == [] then [] else Framed(TreeWire(ts[0])) + ElemsWire(ts[1..])
  }

  function Framed(b: seq<byte>): (r: seq<byte>)
    ensures |r| == 4 + |b|
  {
    Count(|b|) + b
  }

  lemma {:induction false} ElemsWireAppend(ts: seq<Tree>, t: Tree)
    ensures ElemsWire(ts + [t]) == ElemsWire(ts) + Framed(TreeWire(t))
  {
    hide TreeWire, Framed;
    if ts == [] {
      assert ElemsWire([t][1..]) == [];
    } else {
      assert (ts + [t])[1..] == ts[1..] + [t];
      ElemsWireAppend(ts[1..], t);
    }
  }

  lemma ElemsWireUpTo(ts: seq<Tree>, i: nat)
    requires i < |ts|
    ensures ElemsWire(ts[..i + 1]) == ElemsWire(ts[..i]) + Framed(TreeWire(ts[i]))
  {
    assert ts[..i + 1] == ts[..i] + [ts[i]];
    ElemsWireAppend(ts[..i], ts[i]);
  }

  lemma {:induction false} ElemsWirePrefix(ts: seq<Tree>, i: nat)
    requires i <= |ts|
    ensures |ElemsWire(ts[..i])| <= |ElemsWire(ts)|
    decreases |ts| - i
  {
    if i < |ts| {
      ElemsWireUpTo(ts, i);
      ElemsWirePrefix(ts, i + 1);
    } else {
      assert ts[..i] == ts;
    }
  }

  /** Every packet, and so every element of a bundle, occupies a multiple of four bytes. */
  lemma {:induction false} TreeAligned(t: Tree)
    ensures |TreeWire(t)| % 4 == 0
    decreases t, 1
  {
    hide Wire, ElemsWire, BundleHeader;
    match t
    case MessageTree(path, args) =>
      WireAligned(path, args);
    case BundleTree(ts, elems) =>
      ElemsAligned(elems);
      SumAligned(16, |ElemsWire(elems)|);
  }

  lemma {:induction false} ElemsAligned(ts: seq<Tree>)
    ensures |ElemsWire(ts)| % 4 == 0
    decreases ts, 0
  {
    hide TreeWire, Framed;
    if ts != [] {
      TreeAligned(ts[0]);
      ElemsAligned(ts[1..]);
      SumAligned(|TreeWire(ts[0])|, |ElemsWire(ts[1..])|);
    }
  }
}
