/** What an address pattern means: a sequence of tokens, each taking a piece of the string. */
module PatternLanguage {
  import opened Bytes
  import opened PatternMatch

  /** What is written in a set: characters, ranges, and an open range before the bracket. */
  datatype Item = One(c: byte) | Range(lo: byte, hi: byte) | From(lo: byte)

  predicate Holds(item: Item, x: byte) {
    match item
    case One(c) => x == c
    case Range(lo, hi) => x == lo || x == hi || (Signed(lo) < Signed(x) && Signed(x) < Signed(hi))
    case From(lo) => Signed(x) >= Signed(lo)
  }

  function Items(body: seq<byte>): (r: seq<Item>)
    requires body != []
    ensures r != []
    decreases |body|
  {
    if |body| == 1 then [One(body[0])]
    else if body[1] == HYPHEN then
      if |body| == 2 then [From(body[0])] else [Range(body[0], body[2])] + Items(body[2..])
    else [One(body[0])] + Items(body[1..])
  }

  predicate InItems(items: seq<Item>, x: byte) {
    exists i | 0 <= i < |items| :: Holds(items[i], x)
  }

  /**
   * `Broken` is a set or a list that is not closed.  `Open` is the pattern's last two
   * characters `[!`, after which the source reads past the end.
   */
  datatype Token =
    | Star
    | Any
    | Set(negate: bool, items: seq<Item>)
    | List(alts: seq<seq<byte>>)
    | Literal(c: byte)
    | Broken
    | Open

  /** The alternatives of a brace list, between its commas. */
  function Split(body: seq<byte>): (alts: seq<seq<byte>>)
    ensures alts != []
    decreases |body|
  {
    var k := Find(body, SEPARATOR, 0);
    if k == |body| then [body] else [body[..k]] + Split(body[k + 1..])
  }

  function Tokens(p: seq<byte>): seq<Token>
    decreases |p|
  {
    if p == [] then []
    else if p[0] == STAR then [Star] + Tokens(p[1..])
    else if p[0] == QUERY then [Any] + Tokens(p[1..])
    else if p[0] == OPEN_SET then
      if |p| > 1 && p[1] == NEGATE then SetTokens(p[2..], true) else SetTokens(p[1..], false)
    else if p[0] == OPEN_LIST then
      var k := Find(p, CLOSE_LIST, 1);
      if k == |p| then [Broken] else [List(Split(p[1..k]))] + Tokens(p[k + 1..])
    else [Literal(p[0])] + Tokens(p[1..])
  }

  function SetTokens(q: seq<byte>, negate: bool): seq<Token>
    decreases |q|
  {
    if q == [] then [if negate then Open else Broken]
    else
      var k := Find(q, CLOSE_SET, 1);
      if k == |q| then [Broken] else [Set(negate, Items(q[..k]))] + Tokens(q[k + 1..])
  }

  /** The pieces of string a token takes; with `open`, `Open` takes any that is not empty. */
  predicate Takes(t: Token, w: seq<byte>, open: bool) {
    match t
    case Star => true
    case Any => |w| == 1
    case Set(negate, items) => |w| == 1 && InItems(items, w[0]) != negate
    case List(alts) => w in alts
    case Literal(c) => w == [c]
    case Broken => false
    case Open => open && w != []
  }

  function Flat(ws: seq<seq<byte>>): seq<byte> {
    if ws == [] then [] else ws[0] + Flat(ws[1..])
  }

  ghost predicate Pieces(ts: seq<Token>, s: seq<byte>, open: bool, ws: seq<seq<byte>>) {
    |ws| == |ts| && Flat(ws) == s && forall i | 0 <= i < |ts| :: Takes(ts[i], ws[i], open)
  }

  /** The string is a sequence of pieces, one for each token. */
  ghost predicate InLang(ts: seq<Token>, s: seq<byte>, open: bool) {
    exists ws :: Pieces(ts, s, open, ws)
  }

  /** The verdict the meaning of the tokens calls for. */
  ghost function Meaning(ts: seq<Token>, s: seq<byte>): Verdict {
    if InLang(ts, s, false) then Yes else if InLang(ts, s, true) then Undefined else No
  }

  // Membership, one token at a time

  ghost predicate TakesThen(t: Token, ts: seq<Token>, s: seq<byte>, open: bool, k: nat) {
    k <= |s| && Takes(t, s[..k], open) && InLang(ts, s[k..], open)
  }

  lemma LangNil(s: seq<byte>, open: bool)
    ensures InLang([], s, open) <==> s == []
  {
    assert Pieces([], [], open, []);
  }

  lemma LangCons(t: Token, ts: seq<Token>, s: seq<byte>, open: bool)
    ensures InLang([t] + ts, s, open) <==> exists k: nat :: TakesThen(t, ts, s, open, k)
  {
    var all := [t] + ts;
    if InLang(all, s, open) {
      var ws :| Pieces(all, s, open, ws);
      var k := |ws[0]|;
      assert s[..k] == ws[0] && s[k..] == Flat(ws[1..]);
      forall i | 0 <= i < |ts|
        ensures Takes(ts[i], ws[1..][i], open)
      {
        assert Takes(all[i + 1], ws[i + 1], open);
      }
      assert Pieces(ts, s[k..], open, ws[1..]);
      assert TakesThen(t, ts, s, open, k);
    }
    if k: nat :| TakesThen(t, ts, s, open, k) {
      var ws :| Pieces(ts, s[k..], open, ws);
      var vs := [s[..k]] + ws;
      assert vs[1..] == ws && s == s[..k] + s[k..];
      assert Pieces(all, s, open, vs);
    }
  }

  /** Tokens that take a single character. */
  lemma LangOne(t: Token, ts: seq<Token>, s: seq<byte>, open: bool)
    requires t.Any? || t.Set? || t.Literal?
    ensures InLang([t] + ts, s, open) <==> s != [] && Takes(t, [s[0]], open) && InLang(ts, s[1..], open)
  {
    LangCons(t, ts, s, open);
    if k: nat :| TakesThen(t, ts, s, open, k) {
      assert k == 1 && s[..1] == [s[0]];
    }
    if s != [] && Takes(t, [s[0]], open) && InLang(ts, s[1..], open) {
      assert s[..1] == [s[0]];
      assert TakesThen(t, ts, s, open, 1);
    }
  }

  /** A star takes nothing, or one more character. */
  lemma LangStar(ts: seq<Token>, s: seq<byte>, open: bool)
    ensures InLang([Star] + ts, s, open) <==>
            InLang(ts, s, open) || (s != [] && InLang([Star] + ts, s[1..], open))
  {
    LangCons(Star, ts, s, open);
    if k: nat :| TakesThen(Star, ts, s, open, k) {
      if k == 0 {
        assert s[0..] == s;
      } else {
        LangCons(Star, ts, s[1..], open);
        assert s[1..][k - 1..] == s[k..];
        assert TakesThen(Star, ts, s[1..], open, k - 1);
      }
    }
    if InLang(ts, s, open) {
      assert s[0..] == s;
      assert TakesThen(Star, ts, s, open, 0);
    }
    if s != [] {
      LangCons(Star, ts, s[1..], open);
      if k: nat :| TakesThen(Star, ts, s[1..], open, k) {
        assert s[1..][k..] == s[k + 1..];
        assert TakesThen(Star, ts, s, open, k + 1);
      }
    }
  }

  lemma LangDead(t: Token, ts: seq<Token>, s: seq<byte>, open: bool)
    requires t.Broken? || (t.Open? && !open)
    ensures !InLang([t] + ts, s, open)
  {
    LangCons(t, ts, s, open);
  }

  lemma LangOpen(s: seq<byte>)
    ensures InLang([Open], s, true) <==> s != []
  {
    LangCons(Open, [], s, true);
    assert [Open] + [] == [Open];
    if s != [] {
      LangNil(s[|s|..], true);
      assert TakesThen(Open, [], s, true, |s|);
    }
  }

  /** The two languages differ only through `Open`, and with it the plain one is empty. */
  lemma {:induction false} OpenOrNot(ts: seq<Token>, s: seq<byte>)
    ensures InLang(ts, s, false) ==> Open !in ts && InLang(ts, s, true)
    ensures Open !in ts && InLang(ts, s, true) ==> InLang(ts, s, false)
  {
    if ws :| Pieces(ts, s, false, ws) {
      assert Pieces(ts, s, true, ws);
    }
    if ws :| Pieces(ts, s, true, ws) && Open !in ts {
      assert Pieces(ts, s, false, ws);
    }
  }

  /** Only stars take nothing. */
  lemma LangEmpty(t: Token, ts: seq<Token>, open: bool)
    requires !t.Star? && (t.List? ==> [] !in t.alts)
    ensures !InLang([t] + ts, [], open)
  {
    LangCons(t, ts, [], open);
  }

  /** The scan of a set decides membership in what is written in it. */
  lemma {:induction false} InSetIsInItems(body: seq<byte>, x: byte)
    requires body != []
    ensures InSet(body, x) == InItems(Items(body), x)
    decreases |body|
  {
    var items := Items(body);
    if |body| > 1 && !(body[1] == HYPHEN && |body| == 2) {
      var rest := if body[1] == HYPHEN then body[2..] else body[1..];
      InSetIsInItems(rest, x);
      assert items == [items[0]] + Items(rest);
      if i :| 0 <= i < |Items(rest)| && Holds(Items(rest)[i], x) {
        assert Holds(items[i + 1], x);
      }
      if InItems(items, x) && !Holds(items[0], x) {
        var i :| 0 <= i < |items| && Holds(items[i], x);
        assert Holds(Items(rest)[i - 1], x);
      }
    }
    assert Holds(items[0], x) ==> InItems(items, x);
  }
}
