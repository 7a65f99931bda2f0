/** One brace list before literal characters: exactly when the skipped character does harm. */
module PatternSlips {
  import opened Bytes
  import opened PatternMatch
  import opened PatternLanguage
  import opened PatternLists
  import opened PatternMeaning

  /** Characters that stand for themselves outside of a list. */
  predicate IsLiteral(r: seq<byte>) { forall i | 0 <= i < |r| :: r[i] !in {STAR, QUERY, OPEN_SET, OPEN_LIST} }

  lemma {:induction false} LiteralMatches(s: seq<byte>, r: seq<byte>)
    requires IsLiteral(r)
    ensures Match(s, r) == if s == r then Yes else No
    ensures InLang(Tokens(r), s, false) <==> s == r
    decreases |r|
  {
    if r == [] {
      LangNil(s, false);
    } else {
      if s == [] {
        LangOne(Literal(r[0]), Tokens(r[1..]), s, false);
      } else {
        LiteralMatches(s[1..], r[1..]);
        LangOne(Literal(r[0]), Tokens(r[1..]), s, false);
        assert s == [s[0]] + s[1..] && r == [r[0]] + r[1..];
      }
    }
  }

  /** The text `x` is at the front of the string, and the string does not run out with it. */
  predicate Passes(x: seq<byte>, s: seq<byte>, r: seq<byte>) {
    x <= s && (x == s ==> x == [] || r == [])
  }

  /** After `x` the remainder matches, or, one character into it, an alternative that follows. */
  predicate Chain(s: seq<byte>, r: seq<byte>, x: seq<byte>, others: seq<seq<byte>>)
    requires forall i | 0 <= i < |others| :: others[i] != []
    decreases |others|
  {
    s == x + r ||
    (others != [] && Passes(others[0][1..], s, r) && Chain(s, r, others[0][1..], others[1..]))
  }

  /** What the matcher makes of the rest of a list once `x` has matched. */
  lemma {:induction false} ChainDecides(s: seq<byte>, r: seq<byte>, x: seq<byte>, others: seq<seq<byte>>)
    requires IsLiteral(r) && x <= s && Separate(others) && AllClean(others)
    requires forall i | 0 <= i < |others| :: !(others[i] <= s)
    ensures MatchList(s, r, s[|x|..], Tail(others, r)) == if Chain(s, r, x, others) then Yes else No
    decreases |others|
  {
    hide Match, MatchList, Tail, ListText, Clean, IsLiteral;
    LiteralMatches(s[|x|..], r);
    TailStep(s, r, s[|x|..], others);
    assert s == x + r <==> s[|x|..] == r;
    if s != x + r && others != [] {
      var b := others[0][1..];
      TailFacts(others);
      CleanTail(others[0]);
      ScanOne(s, r, s, b, others[1..]);
      if Passes(b, s, r) {
        ChainDecides(s, r, b, others[1..]);
      } else if |others| > 1 {
        ListFails(s, r, others[1..]);
      }
    }
  }

  /** The alternatives in front of the one that matches are passed over. */
  lemma {:induction false} ListReaches(s: seq<byte>, r: seq<byte>, alts: seq<seq<byte>>, m: nat)
    requires m < |alts| && Separate(alts) && AllClean(alts) && alts[m] <= s
    ensures MatchList(s, r, s, ListText(alts, r)) ==
            if Passes(alts[m], s, r) then MatchList(s, r, s[|alts[m]|..], Tail(alts[m + 1..], r)) else No
    decreases |alts|
  {
    hide MatchList, Tail, Clean;
    TailFacts(alts);
    var a, others := alts[0], alts[1..];
    ScanOne(s, r, s, a, others);
    if m > 0 {
      assert others[m - 1] == alts[m] && others[m..] == alts[m + 1..];
      if a <= s || s <= a {
        Prefixes(alts[m], a, s);
      }
      ListReaches(s, r, others, m - 1);
    }
  }

  /** An alternative after the `m`-th, less its first character, lets in a string of another length. */
  predicate SlipsAt(alts: seq<seq<byte>>, r: seq<byte>, m: int, j: int)
    requires forall i | 0 <= i < |alts| :: alts[i] != []
  {
    0 <= m < j < |alts| &&
    var s := alts[j][1..] + r;
    && |alts[m]| + 1 != |alts[j]| && Passes(alts[m], s, r)
    && forall i | m < i < j :: Passes(alts[i][1..], s, r)
  }

  predicate Slips(alts: seq<seq<byte>>, r: seq<byte>)
    requires forall i | 0 <= i < |alts| :: alts[i] != []
  {
    exists m, j | 0 <= m < |alts| && 0 <= j < |alts| :: SlipsAt(alts, r, m, j)
  }

  lemma {:induction false} ChainFrom(s: seq<byte>, r: seq<byte>, alts: seq<seq<byte>>, m: nat, x: seq<byte>)
    returns (j: nat)
    requires m < |alts| && (forall i | 0 <= i < |alts| :: alts[i] != [])
    requires Chain(s, r, x, alts[m + 1..]) && s != x + r
    ensures m < j < |alts| && s == alts[j][1..] + r && forall i | m < i < j :: Passes(alts[i][1..], s, r)
    decreases |alts| - m
  {
    var others := alts[m + 1..];
    assert others[0] == alts[m + 1] && others[1..] == alts[m + 2..];
    if s == alts[m + 1][1..] + r {
      j := m + 1;
    } else {
      j := ChainFrom(s, r, alts, m + 1, alts[m + 1][1..]);
    }
  }

  lemma {:induction false} ChainTo(s: seq<byte>, r: seq<byte>, alts: seq<seq<byte>>, m: nat, x: seq<byte>, j: nat)
    requires m < j < |alts| && (forall i | 0 <= i < |alts| :: alts[i] != []) && s == alts[j][1..] + r
    requires forall i | m < i < j :: Passes(alts[i][1..], s, r)
    ensures Chain(s, r, x, alts[m + 1..])
    decreases j - m
  {
    var others := alts[m + 1..];
    assert others[0] == alts[m + 1] && others[1..] == alts[m + 2..];
    if j > m + 1 {
      ChainTo(s, r, alts, m + 1, alts[m + 1][1..], j);
    }
  }

  /** The list and its remainder in the pattern `p`. */
  ghost predicate IsListThen(p: seq<byte>, alts: seq<seq<byte>>, r: seq<byte>) {
    p != [] && p[0] == OPEN_LIST &&
    var k := Find(p, CLOSE_LIST, 1);
    k < |p| && alts == Split(p[1..k]) && r == p[k + 1..] && Separate(alts) && IsLiteral(r)
  }

  /** The matcher and the language on one string, by the one alternative that is at its front. */
  lemma OnString(s: seq<byte>, p: seq<byte>, alts: seq<seq<byte>>, r: seq<byte>)
    requires IsListThen(p, alts, r) && s != []
    ensures AllClean(alts)
    ensures (forall m | 0 <= m < |alts| :: !(alts[m] <= s)) ==>
              Match(s, p) == No && !InLang(Tokens(p), s, false)
    ensures forall m | 0 <= m < |alts| && alts[m] <= s ::
              (Match(s, p) == Yes <==> Passes(alts[m], s, r) && Chain(s, r, alts[m], alts[m + 1..])) &&
              (InLang(Tokens(p), s, false) <==> s == alts[m] + r)
  {
    hide Match, MatchList, Tokens, ListText, Split, Tail, Chain, InLang, IsLiteral;
    ListAt(s, p);
    if forall m | 0 <= m < |alts| :: !(alts[m] <= s) {
      ListFails(s, r, alts);
      LangListNone(alts, Tokens(r), s, false);
    }
    forall m | 0 <= m < |alts| && alts[m] <= s
      ensures Match(s, p) == Yes <==> Passes(alts[m], s, r) && Chain(s, r, alts[m], alts[m + 1..])
      ensures InLang(Tokens(p), s, false) <==> s == alts[m] + r
    {
      OthersFail(s, alts, m);
      ListReaches(s, r, alts, m);
      ChainDecides(s, r, alts[m], alts[m + 1..]);
      LangListOne(alts, Tokens(r), s, false, m);
      LiteralMatches(s[|alts[m]|..], r);
      assert s == alts[m] + r <==> s[|alts[m]|..] == r;
    }
  }

  ghost predicate NoneStarts(alts: seq<seq<byte>>, s: seq<byte>) {
    forall i | 0 <= i < |alts| :: !(alts[i] <= s)
  }

  lemma OthersFail(s: seq<byte>, alts: seq<seq<byte>>, m: nat)
    requires m < |alts| && Separate(alts) && AllClean(alts) && alts[m] <= s
    ensures Separate(alts[m + 1..]) && AllClean(alts[m + 1..])
    ensures NoneStarts(alts[m + 1..], s)
  {
    var r := alts[m + 1..];
    forall i, j | 0 <= i < j < |r|
      ensures !Comparable(r[i], r[j])
    {
      assert r[i] == alts[m + 1 + i] && r[j] == alts[m + 1 + j];
    }
    forall i | 0 <= i < |r|
      ensures !(r[i] <= s)
    {
      assert r[i] == alts[m + 1 + i] && !Comparable(alts[m], alts[m + 1 + i]);
    }
  }

  /**
   * The pattern accepts exactly its language if and only if no alternative slips: for all
   * alternatives that are not empty and of which none starts with another, and all literal remainders.
   */
  lemma ListExactly(p: seq<byte>, alts: seq<seq<byte>>, r: seq<byte>)
    requires IsListThen(p, alts, r)
    ensures (forall s :: Match(s, p) == Yes <==> InLang(Tokens(p), s, false)) <==> !Slips(alts, r)
  {
    hide Match, Tokens, Split, InLang, IsLiteral;
    if !Slips(alts, r) {
      forall s
        ensures Match(s, p) == Yes <==> InLang(Tokens(p), s, false)
      {
        NoSlipAgrees(s, p, alts, r);
      }
    } else {
      var m, j :| 0 <= m < |alts| && 0 <= j < |alts| && SlipsAt(alts, r, m, j);
      SlipDiffers(p, alts, r, m, j);
    }
  }

  lemma NoSlipAgrees(s: seq<byte>, p: seq<byte>, alts: seq<seq<byte>>, r: seq<byte>)
    requires IsListThen(p, alts, r) && !Slips(alts, r)
    ensures Match(s, p) == Yes <==> InLang(Tokens(p), s, false)
  {
    hide Match, Tokens, Split, InLang, IsLiteral;
    if s == [] {
      OnEmptyString(p, alts, r);
    } else {
      OnString(s, p, alts, r);
      if m :| 0 <= m < |alts| && alts[m] <= s {
        if Passes(alts[m], s, r) && Chain(s, r, alts[m], alts[m + 1..]) && s != alts[m] + r {
          var j := ChainFrom(s, r, alts, m, alts[m]);
          SlipFound(alts, r, m, j);
        }
        if s == alts[m] + r {
          assert Passes(alts[m], s, r) && Chain(s, r, alts[m], alts[m + 1..]);
        }
      }
    }
  }

  lemma SlipFound(alts: seq<seq<byte>>, r: seq<byte>, m: nat, j: nat)
    requires m < j < |alts| && (forall i | 0 <= i < |alts| :: alts[i] != [])
    requires var s := alts[j][1..] + r;
             s != alts[m] + r && Passes(alts[m], s, r) && forall i | m < i < j :: Passes(alts[i][1..], s, r)
    ensures Slips(alts, r)
  {
    assert SlipsAt(alts, r, m, j);
  }

  lemma OnEmptyString(p: seq<byte>, alts: seq<seq<byte>>, r: seq<byte>)
    requires IsListThen(p, alts, r)
    ensures Match([], p) == No && !InLang(Tokens(p), [], false)
  {
    LangEmpty(List(alts), Tokens(r), false);
  }

  lemma SlipDiffers(p: seq<byte>, alts: seq<seq<byte>>, r: seq<byte>, m: nat, j: nat)
    requires IsListThen(p, alts, r) && SlipsAt(alts, r, m, j)
    ensures Match(alts[j][1..] + r, p) == Yes && !InLang(Tokens(p), alts[j][1..] + r, false)
  {
    hide Match, Tokens, Split, InLang, IsLiteral;
    var s := alts[j][1..] + r;
    assert alts[m] != [];
    OnString(s, p, alts, r);
    ChainTo(s, r, alts, m, alts[m], j);
  }

  /**
   * A string that is one of the alternatives is refused, whatever follows the list, although it is in
   * the language if that can match nothing, as a star does.
   */
  lemma RunsOut(p: seq<byte>, alts: seq<seq<byte>>, rest: seq<byte>, m: nat)
    requires p != [] && p[0] == OPEN_LIST && Find(p, CLOSE_LIST, 1) < |p|
    requires alts == Split(p[1..Find(p, CLOSE_LIST, 1)]) && rest == p[Find(p, CLOSE_LIST, 1) + 1..]
    requires Separate(alts) && m < |alts| && rest != []
    ensures Match(alts[m], p) == No
    ensures InLang(Tokens(p), alts[m], false) <==> InLang(Tokens(rest), [], false)
  {
    hide Match, MatchList, Tokens, ListText, Split, Tail, InLang;
    var s := alts[m];
    ListAt(s, p);
    ListReaches(s, rest, alts, m);
    LangListOne(alts, Tokens(rest), s, false, m);
    assert s[|s|..] == [];
  }
}
