/** What the parts of a pattern do, written out on the characters themselves. */
module PatternReadings {
  import opened Bytes
  import opened PatternMatch
  import opened PatternLanguage
  import opened PatternMeaning
  import opened PatternSlips

  /**
   * A range and the rest of a pattern: both ends, and what lies strictly between them.  Characters from
   * 0x80 on are negative, and so come before the others.
   */
  lemma RangeReads(lo: byte, hi: byte, x: byte, s: seq<byte>, r: seq<byte>)
    requires lo != '!' as int && hi != ']' as int
    ensures var inside := x == lo || x == hi || (lo + 0x80) % 0x100 < (x + 0x80) % 0x100 < (hi + 0x80) % 0x100;
            Match([x] + s, ['[' as int, lo, '-' as int, hi, ']' as int] + r) == if inside then Match(s, r) else No
  {
    hide Match, MatchSet, InSet;
    var q := [lo, '-' as int, hi, ']' as int] + r;
    SetReads(x, s, ['[' as int] + q, q, false);
    assert [lo, '-' as int, hi] + [']' as int] + r == q;
    SetCloses([lo, '-' as int, hi], r);
    RangeHas(lo, hi, x);
    assert ['[' as int, lo, '-' as int, hi, ']' as int] + r == ['[' as int] + q;
    SetDecides(x, s, [lo, '-' as int, hi], r, false);
  }

  /** Everything else, if the range is negated. */
  lemma NegatedRangeReads(lo: byte, hi: byte, x: byte, s: seq<byte>, r: seq<byte>)
    requires hi != ']' as int
    ensures var inside := x == lo || x == hi || (lo + 0x80) % 0x100 < (x + 0x80) % 0x100 < (hi + 0x80) % 0x100;
            Match([x] + s, ['[' as int, '!' as int, lo, '-' as int, hi, ']' as int] + r) ==
            if inside then No else Match(s, r)
  {
    hide Match, MatchSet, InSet;
    var q := [lo, '-' as int, hi, ']' as int] + r;
    SetReads(x, s, ['[' as int, '!' as int] + q, q, true);
    assert [lo, '-' as int, hi] + [']' as int] + r == q;
    SetCloses([lo, '-' as int, hi], r);
    RangeHas(lo, hi, x);
    assert ['[' as int, '!' as int, lo, '-' as int, hi, ']' as int] + r == ['[' as int, '!' as int] + q;
    SetDecides(x, s, [lo, '-' as int, hi], r, true);
  }

  /** Of ASCII characters a range has those between its ends; one that is written backwards has only the ends. */
  lemma AsciiRangeReads(lo: byte, hi: byte, x: byte)
    requires lo < 0x80 && hi < 0x80 && x < 0x80 && lo != '!' as int && hi != ']' as int
    ensures Match([x], ['[' as int, lo, '-' as int, hi, ']' as int]) == Yes <==>
            if lo <= hi then lo <= x <= hi else x == lo || x == hi
  {
    RangeReads(lo, hi, x, [], []);
    EmptyReads();
    assert [x] + [] == [x];
    assert ['[' as int, lo, '-' as int, hi, ']' as int] + [] == ['[' as int, lo, '-' as int, hi, ']' as int];
  }

  lemma EmptyReads()
    ensures Match([], []) == Yes
  {
  }

  /** A range that is open at the bracket has everything from its first character on. */
  lemma OpenRangeReads(lo: byte, x: byte, s: seq<byte>, r: seq<byte>)
    requires lo != '!' as int
    ensures Match([x] + s, ['[' as int, lo, '-' as int, ']' as int] + r) ==
            if (x + 0x80) % 0x100 >= (lo + 0x80) % 0x100 then Match(s, r) else No
  {
    hide Match, MatchSet, InSet;
    var q := [lo, '-' as int, ']' as int] + r;
    SetReads(x, s, ['[' as int] + q, q, false);
    assert [lo, '-' as int] + [']' as int] + r == q;
    SetCloses([lo, '-' as int], r);
    OpenRangeHas(lo, x);
    assert ['[' as int, lo, '-' as int, ']' as int] + r == ['[' as int] + q;
    SetDecides(x, s, [lo, '-' as int], r, false);
  }

  /** A set of single characters has just these. */
  lemma CharactersRead(cs: seq<byte>, x: byte, s: seq<byte>, r: seq<byte>)
    requires cs != [] && ']' as int !in cs[1..] && '-' as int !in cs[1..]
    ensures cs[0] != '!' as int ==>
              Match([x] + s, ['[' as int] + cs + ([']' as int] + r)) == if x in cs then Match(s, r) else No
    ensures Match([x] + s, ['[' as int, '!' as int] + cs + ([']' as int] + r)) ==
            if x in cs then No else Match(s, r)
  {
    hide Match, MatchSet, InSet;
    var q := cs + ([']' as int] + r);
    assert ['[' as int] + cs + ([']' as int] + r) == ['[' as int] + q;
    assert ['[' as int, '!' as int] + cs + ([']' as int] + r) == ['[' as int, '!' as int] + q;
    assert cs + [']' as int] + r == q;
    SetCloses(cs, r);
    CharactersHas(cs, x);
    if cs[0] != '!' as int {
      SetReads(x, s, ['[' as int] + q, q, false);
      SetDecides(x, s, cs, r, false);
    }
    SetReads(x, s, ['[' as int, '!' as int] + q, q, true);
    SetDecides(x, s, cs, r, true);
  }

  // The steps

  lemma SetReads(x: byte, s: seq<byte>, p: seq<byte>, q: seq<byte>, negate: bool)
    requires q != []
    requires if negate then p == ['[' as int, '!' as int] + q else p == ['[' as int] + q && q[0] != '!' as int
    ensures Match([x] + s, p) == MatchSet([x] + s, q, negate)
  {
    hide MatchSet;
    assert if negate then p[2..] == q else p[1..] == q;
  }

  lemma SetCloses(body: seq<byte>, r: seq<byte>)
    requires body != [] && ']' as int !in body[1..]
    ensures Find(body + [']' as int] + r, ']' as int, 1) == |body|
  {
    var q := body + [']' as int] + r;
    forall i | 1 <= i < |body|
      ensures q[i] != ']' as int
    {
      assert q[i] == body[1..][i - 1];
    }
    FindIs(q, ']' as int, 1, |body|);
  }

  lemma SetDecides(x: byte, s: seq<byte>, body: seq<byte>, r: seq<byte>, negate: bool)
    requires body != [] && Find(body + [']' as int] + r, ']' as int, 1) == |body|
    ensures MatchSet([x] + s, body + [']' as int] + r, negate) ==
            if InSet(body, x) == negate then No else Match(s, r)
  {
    hide Match, InSet, Find;
    var q := body + [']' as int] + r;
    assert q[..|body|] == body && q[|body| + 1..] == r && ([x] + s)[1..] == s;
  }

  lemma RangeHas(lo: byte, hi: byte, x: byte)
    ensures InSet([lo, '-' as int, hi], x) <==>
            x == lo || x == hi || (lo + 0x80) % 0x100 < (x + 0x80) % 0x100 < (hi + 0x80) % 0x100
  {
    assert [lo, '-' as int, hi][2..] == [hi];
  }

  lemma OpenRangeHas(lo: byte, x: byte)
    ensures InSet([lo, '-' as int], x) <==> (x + 0x80) % 0x100 >= (lo + 0x80) % 0x100
  {
  }

  lemma {:induction false} CharactersHas(cs: seq<byte>, x: byte)
    requires cs != [] && '-' as int !in cs[1..]
    ensures InSet(cs, x) <==> x in cs
    decreases |cs|
  {
    if |cs| > 1 {
      assert cs[1] == cs[1..][0] && cs == [cs[0]] + cs[1..];
      CharactersHas(cs[1..], x);
    }
  }

  // Outside of sets

  /** A question mark stands for any one character. */
  lemma QueryReads(s: seq<byte>, r: seq<byte>)
    ensures Match(s, ['?' as int] + r) == if s == [] then No else Match(s[1..], r)
  {
    assert (['?' as int] + r)[1..] == r;
  }

  predicate NoneSpecial(a: seq<byte>) {
    forall i | 0 <= i < |a| :: a[i] !in ['*' as int, '?' as int, '[' as int, '{' as int]
  }

  /** Characters that are not special stand for themselves. */
  lemma {:induction false} LiteralsRead(a: seq<byte>, s: seq<byte>, r: seq<byte>)
    requires NoneSpecial(a)
    ensures Match(s, a + r) == if a <= s then Match(s[|a|..], r) else No
    decreases |a|
  {
    if a == [] {
      assert a + r == r && s[0..] == s;
    } else {
      var p := a + r;
      assert p[1..] == a[1..] + r && p[0] == a[0];
      LiteralReads(s, p);
      hide Match;
      if s != [] && s[0] == a[0] {
        LiteralsRead(a[1..], s[1..], r);
        assert a == [a[0]] + a[1..] && s == [s[0]] + s[1..];
        assert a <= s <==> a[1..] <= s[1..];
        if a <= s {
          assert s[1..][|a| - 1..] == s[|a|..];
        }
      }
    }
  }

  lemma LiteralReads(s: seq<byte>, p: seq<byte>)
    requires p != [] && p[0] !in ['*' as int, '?' as int, '[' as int, '{' as int]
    ensures Match(s, p) == if s != [] && s[0] == p[0] then Match(s[1..], p[1..]) else No
  {
  }

  /** A star before literal characters: the strings that end with these. */
  lemma StarReads(s: seq<byte>, r: seq<byte>)
    requires NoneSpecial(r)
    ensures Match(s, ['*' as int] + r) == Yes <==> |r| <= |s| && s[|s| - |r|..] == r
  {
    StarStarts(s, r);
    hide Match, NoneSpecial;
    if r == [] {
      assert s[|s|..] == [];
    } else {
      StarScans(s, r);
    }
  }

  lemma StarStarts(s: seq<byte>, r: seq<byte>)
    requires r != [] ==> r[0] != '*' as int
    ensures Match(s, ['*' as int] + r) == if r == [] then Yes else MatchStar(s, r)
  {
    var p := ['*' as int] + r;
    assert p[1..] == r && SkipStars(r) == r;
  }

  lemma {:induction false} StarScans(s: seq<byte>, r: seq<byte>)
    requires r != [] && NoneSpecial(r)
    ensures MatchStar(s, r) == Yes <==> |r| <= |s| && s[|s| - |r|..] == r
    decreases |s|
  {
    hide Match;
    if s != [] {
      LiteralMatches(s, r);
      StarScans(s[1..], r);
      if |r| < |s| {
        assert s[1..][|s| - 1 - |r|..] == s[|s| - |r|..];
      } else if |r| == |s| {
        assert s[0..] == s;
      }
    }
  }

  /** A list of two alternatives of which neither starts with the other or slips into it: just these. */
  lemma TwoAlternativesRead(a: seq<byte>, b: seq<byte>, s: seq<byte>)
    requires a != [] && b != [] && ',' as int !in a + b && '}' as int !in a + b
    requires !(a <= b) && !(b <= a) && !(a <= b[1..]) && !(b[1..] <= a)
    ensures Match(s, ['{' as int] + a + [',' as int] + b + ['}' as int]) == Yes <==> s == a || s == b
  {
    hide Match, Tokens, Meaning, InLang;
    var p := ['{' as int] + a + [',' as int] + b + ['}' as int];
    TwoTokens(a, b);
    MatchIsMeaning(s, p);
    OneListReads([a, b], s);
    MeaningIs(Tokens(p), s);
  }

  lemma TwoTokens(a: seq<byte>, b: seq<byte>)
    requires ',' as int !in a + b && '}' as int !in a + b
    ensures Tokens(['{' as int] + a + [',' as int] + b + ['}' as int]) == [List([a, b])]
  {
    hide Tokens, Split;
    var body := a + [',' as int] + b;
    NotIn(a, b, ',' as int);
    NotIn(a, b, '}' as int);
    SplitsInTwo(a, b);
    ListTokens(body);
    assert ['{' as int] + a + [',' as int] + b + ['}' as int] == ['{' as int] + body + ['}' as int];
  }

  lemma NotIn(a: seq<byte>, b: seq<byte>, c: byte)
    requires c !in a + b
    ensures c !in a && c !in b && (c != ',' as int ==> c !in a + [',' as int] + b)
  {
    assert (forall x | x in a :: x in a + b) && forall x | x in b :: x in a + b;
  }

  lemma ListTokens(body: seq<byte>)
    requires '}' as int !in body
    ensures Tokens(['{' as int] + body + ['}' as int]) == [List(Split(body))]
  {
    hide Split, Find;
    var p, k := ['{' as int] + body + ['}' as int], |body| + 1;
    forall i | 1 <= i < k
      ensures p[i] != '}' as int
    {
      assert p[i] == body[i - 1];
    }
    FindIs(p, '}' as int, 1, k);
    assert p[1..k] == body && p[k + 1..] == [];
    assert Tokens(p) == [List(Split(body))] + Tokens([]);
  }

  lemma MeaningIs(ts: seq<Token>, s: seq<byte>)
    ensures Meaning(ts, s) == Yes <==> InLang(ts, s, false)
  {
  }

  lemma SplitsInTwo(a: seq<byte>, b: seq<byte>)
    requires ',' as int !in a && ',' as int !in b
    ensures Split(a + [',' as int] + b) == [a, b]
  {
    var body := a + [',' as int] + b;
    FindIs(body, ',' as int, 0, |a|);
    assert body[..|a|] == a && body[|a| + 1..] == b;
    var k := Find(b, ',' as int, 0);
    assert k == |b|;
    assert Split(b) == [b];
  }

  lemma OneListReads(alts: seq<seq<byte>>, s: seq<byte>)
    ensures InLang([List(alts)], s, false) <==> s in alts
  {
    LangCons(List(alts), [], s, false);
    assert [List(alts)] + [] == [List(alts)];
    if s in alts {
      assert s[..|s|] == s && s[|s|..] == [];
      LangNil([], false);
      assert TakesThen(List(alts), [], s, false, |s|);
    }
    if k: nat :| TakesThen(List(alts), [], s, false, k) {
      LangNil(s[k..], false);
      assert s[..k] == s;
    }
  }
}
