/** Writes to byte buffers: the C library's memcpy, memset, strcpy, strncpy and realloc. */
module Memory {
  import opened Bytes

  /** `b` with the bytes from `off` on overwritten by `s`. */
  function Splice(b: seq<byte>, off: nat, s: seq<byte>): (r: seq<byte>)
    requires off + |s| <= |b|
    ensures |r| == |b|
  {
    b[..off] + s + b[off + |s|..]
  }

  lemma SpliceSplice(b: seq<byte>, off: nat, s: seq<byte>, t: seq<byte>)
    requires off + |s| + |t| <= |b|
    ensures Splice(Splice(b, off, s), off + |s|, t) == Splice(b, off, s + t)
  {
  }

  method Memcpy(a: array<byte>, off: nat, s: seq<byte>)
    requires off + |s| <= a.Length
    modifies a
    ensures a[..] == old(Splice(a[..], off, s))
  {
    forall k | 0 <= k < |s| {
      a[off + k] := s[k];
    }
    assert forall k | 0 <= k < a.Length :: a[..][k] == old(Splice(a[..], off, s))[k];
  }

  lemma PadInTwoSteps(b: seq<byte>, off: nat, s: CString)
    requires off + StrSize(s) <= |b|
    ensures Splice(Splice(b, off + StrSize(s) - 4, Zeros(4)), off, s + [0]) == Splice(b, off, Pad(s))
  {
    hide StrSize;
    var zeroed := Splice(b, off + StrSize(s) - 4, Zeros(4));
    assert s + [0] + zeroed[off + |s| + 1..off + StrSize(s)] == Pad(s);
    assert zeroed[off + StrSize(s)..] == b[off + StrSize(s)..];
    assert zeroed[..off] == b[..off];
  }

  /** Zero the last word of the padded string first, then copy it with its terminator. */
  method WriteString(a: array<byte>, off: nat, s: CString)
    requires off + StrSize(s) <= a.Length
    modifies a
    ensures a[..] == old(Splice(a[..], off, Pad(s)))
  {
    PadInTwoSteps(a[..], off, s);
    Memcpy(a, off + StrSize(s) - 4, Zeros(4));
    Memcpy(a, off, s + [0]);
  }

  method Realloc(a: array<byte>, n: nat) returns (b: array<byte>)
    requires a.Length <= n
    ensures fresh(b) && b.Length == n && b[..a.Length] == a[..]
  {
    b := new byte[n];
    forall k | 0 <= k < a.Length {
      b[k] := a[k];
    }
  }
}
