/** The address pattern matcher: what its loops compute, as a function without their shortcuts. */
module PatternMatch {
  import opened Bytes

  const STAR: byte := '*' as int
  const QUERY: byte := '?' as int
  const OPEN_SET: byte := '[' as int
  const CLOSE_SET: byte := ']' as int
  const NEGATE: byte := '!' as int
  const HYPHEN: byte := '-' as int
  const OPEN_LIST: byte := '{' as int
  const CLOSE_LIST: byte := '}' as int
  const SEPARATOR: byte := ',' as int

  /** `Undefined` where the source reads on past the end of the pattern. */
  datatype Verdict = Yes | No | Undefined

  /** Characters are compared as signed. */
  function Signed(c: byte): int { if c < 0x80 then c else c - 0x100 }

  /** Both ends, and what lies strictly between them in this order. */
  predicate InRange(lo: byte, hi: byte, x: byte) {
    x == lo || x == hi || Signed(lo) < Signed(x) < Signed(hi)
  }

  /** Membership in the set written between the brackets. */
  predicate InSet(body: seq<byte>, x: byte)
    requires body != []
    decreases |body|
  {
    if |body| == 1 then x == body[0]
    else if body[1] == HYPHEN then
      if |body| == 2 then Signed(x) >= Signed(body[0])
      else InRange(body[0], body[2], x) || InSet(body[2..], x)
    else x == body[0] || InSet(body[1..], x)
  }

  /** Index of the first `c` in `p` from `from` on, or the length of `p`. */
  function Find(p: seq<byte>, c: byte, from: nat): (k: nat)
    requires from <= |p|
    ensures from <= k <= |p| && c !in p[from..k] && (k < |p| ==> p[k] == c)
    decreases |p| - from
  {
    if from == |p| || p[from] == c then from else
      var k := Find(p, c, from + 1);
      assert p[from..k] == [p[from]] + p[from + 1..k];
      k
  }

  function SkipStars(p: seq<byte>): (q: seq<byte>)
    ensures |q| <= |p| && (q != [] ==> q[0] != STAR)
  {
    if p != [] && p[0] == STAR then SkipStars(p[1..]) else p
  }

  /** The rest of a brace list after the current alternative has failed. */
  function SkipAlternative(p: seq<byte>): (q: seq<byte>)
    ensures |q| <= |p| && (q != [] ==> q[0] == SEPARATOR || q[0] == CLOSE_LIST)
  {
    if p != [] && p[0] != SEPARATOR && p[0] != CLOSE_LIST then SkipAlternative(p[1..]) else p
  }

  function Match(s: seq<byte>, p: seq<byte>): Verdict
    decreases |p|, 0
  {
    if p == [] then
      if s == [] then Yes else No
    else if p[0] == STAR then
      MatchStar(s, SkipStars(p[1..]))
    else if s == [] then
      No
    else if p[0] == QUERY then
      Match(s[1..], p[1..])
    else if p[0] == OPEN_SET then
      if |p| > 1 && p[1] == NEGATE then MatchSet(s, p[2..], true) else MatchSet(s, p[1..], false)
    else if p[0] == OPEN_LIST then
      var k := Find(p, CLOSE_LIST, 1);
      if k == |p| then No else MatchList(s, p[k + 1..], s, p[1..])
    else if p[0] == s[0] then
      Match(s[1..], p[1..])
    else
      No
  }

  /** After a star: the first suffix of `s` for which the rest of the pattern decides. */
  function MatchStar(s: seq<byte>, p: seq<byte>): Verdict
    decreases |p|, 1 + |s|
  {
    if p == [] then Yes
    else if s == [] then No
    else
      var v := Match(s, p);
      if v != No then v else MatchStar(s[1..], p)
  }

  /** A set; its first character is a member even if it is a closing bracket. */
  function MatchSet(s: seq<byte>, p: seq<byte>, negate: bool): Verdict
    requires s != []
    decreases |p|, 1
  {
    if p == [] then
      if negate then Undefined else No
    else
      var k := Find(p, CLOSE_SET, 1);
      if k == |p| then No
      else if InSet(p[..k], s[0]) == negate then No
      else Match(s[1..], p[k + 1..])
  }

  /**
   * A brace list: `place` is the string at its start and `rest` the pattern after it; `s` and
   * `p` are what is left of both.  A failed attempt at a comma also skips the next character.
   */
  function MatchList(place: seq<byte>, rest: seq<byte>, s: seq<byte>, p: seq<byte>): Verdict
    decreases if |rest| < |p| then |p| else |rest| + 1, 1 + |p|
  {
    if p == [] then Undefined
    else if p[0] == SEPARATOR then
      var v := Match(s, rest);
      if v != No then v
      else if |p| == 1 then No
      else MatchList(place, rest, place, p[2..])
    else if p[0] == CLOSE_LIST then
      Match(s, p[1..])
    else if s != [] && p[0] == s[0] then
      if |s| == 1 && rest != [] then No else MatchList(place, rest, s[1..], p[1..])
    else
      var q := SkipAlternative(p[1..]);
      if q == [] then Undefined
      else if q[0] == SEPARATOR then MatchList(place, rest, place, q[1..])
      else No
  }
}
