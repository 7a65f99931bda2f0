/** The matcher decides the declarative language of the pattern. */
module PatternMeaning {
  import opened Bytes
  import opened PatternMatch
  import opened PatternLanguage
  import opened PatternLists

  /**
   * Brace lists with alternatives that are not empty and of which none starts with another, not
   * followed by a star; and, if `strict`, in which a failed attempt cannot lead to another.
   */
  ghost predicate Regular(ts: seq<Token>, strict: bool) {
    forall i | 0 <= i < |ts| && ts[i].List? ::
      Separate(ts[i].alts) && (strict ==> NoSlip(ts[i].alts)) && (i + 1 < |ts| ==> !ts[i + 1].Star?)
  }

  lemma RegularTail(t: Token, ts: seq<Token>, strict: bool)
    requires Regular([t] + ts, strict)
    ensures Regular(ts, strict)
    ensures t.List? ==> Separate(t.alts) && (strict ==> NoSlip(t.alts)) && (ts != [] ==> !ts[0].Star?)
  {
    var all := [t] + ts;
    assert all[0] == t && (ts != [] ==> all[1] == ts[0]);
    forall i | 0 <= i < |ts| && ts[i].List?
      ensures Separate(ts[i].alts) && (strict ==> NoSlip(ts[i].alts)) && (i + 1 < |ts| ==> !ts[i + 1].Star?)
    {
      assert all[i + 1] == ts[i] && (i + 1 < |ts| ==> all[i + 2] == ts[i + 1]);
    }
  }

  lemma FirstToken(p: seq<byte>)
    requires p != []
    ensures Tokens(p) != [] && (Tokens(p)[0].Star? <==> p[0] == STAR)
  {
  }

  lemma MeaningOne(t: Token, ts: seq<Token>, s: seq<byte>)
    requires t.Any? || t.Set? || t.Literal?
    ensures Meaning([t] + ts, s) == if s != [] && Takes(t, [s[0]], false) then Meaning(ts, s[1..]) else No
  {
    LangOne(t, ts, s, false);
    LangOne(t, ts, s, true);
  }

  lemma MeaningStar(ts: seq<Token>, s: seq<byte>)
    ensures Meaning([Star] + ts, s) ==
            if Meaning(ts, s) != No then Meaning(ts, s)
            else if s == [] then No
            else Meaning([Star] + ts, s[1..])
  {
    LangStar(ts, s, false);
    LangStar(ts, s, true);
    OpenOrNot(ts, s);
    if s != [] {
      OpenOrNot([Star] + ts, s[1..]);
    }
  }

  /** Any number of stars means the same as one. */
  lemma {:induction false} MeaningStars(p: seq<byte>, s: seq<byte>)
    ensures Meaning([Star] + Tokens(p), s) == Meaning([Star] + Tokens(SkipStars(p)), s)
    decreases |p|, |s|
  {
    if p != [] && p[0] == STAR {
      StarStar(Tokens(p[1..]), s);
      MeaningStars(p[1..], s);
    }
  }

  lemma {:induction false} StarStar(ts: seq<Token>, s: seq<byte>)
    ensures Meaning([Star] + ([Star] + ts), s) == Meaning([Star] + ts, s)
    decreases |s|
  {
    MeaningStar([Star] + ts, s);
    MeaningStar(ts, s);
    if s != [] {
      StarStar(ts, s[1..]);
    }
  }

  lemma {:induction false} RegularSkip(p: seq<byte>, strict: bool)
    requires Regular(Tokens(p), strict)
    ensures Regular(Tokens(SkipStars(p)), strict)
  {
    if p != [] && p[0] == STAR {
      RegularTail(Star, Tokens(p[1..]), strict);
      RegularSkip(p[1..], strict);
    }
  }

  lemma MeaningEmptyString(p: seq<byte>, strict: bool)
    requires p != [] && p[0] != STAR && Regular(Tokens(p), strict)
    ensures Meaning(Tokens(p), []) == No
  {
    FirstToken(p);
    var t, ts := Tokens(p)[0], Tokens(p)[1..];
    assert Tokens(p) == [t] + ts;
    RegularTail(t, ts, strict);
    LangEmpty(t, ts, false);
    LangEmpty(t, ts, true);
  }

  lemma MeaningDead(t: Token, s: seq<byte>)
    requires t.Broken? || t.Open?
    ensures Meaning([t], s) == if t.Open? && s != [] then Undefined else No
  {
    assert [t] + [] == [t];
    LangDead(t, [], s, false);
    if t.Open? {
      LangOpen(s);
    } else {
      LangDead(t, [], s, true);
    }
  }

  // Brace lists

  /** A closed list: its alternatives, what the matcher does with them, and what they mean. */
  lemma ListAt(s: seq<byte>, p: seq<byte>)
    requires s != [] && p != [] && p[0] == OPEN_LIST && Find(p, CLOSE_LIST, 1) < |p|
    ensures var k := Find(p, CLOSE_LIST, 1);
            var alts, rest := Split(p[1..k]), p[k + 1..];
            AllClean(alts) && Match(s, p) == MatchList(s, rest, s, ListText(alts, rest)) &&
            Tokens(p) == [List(alts)] + Tokens(rest)
  {
    hide Split, ListText, MatchList, AllClean;
    var k := Find(p, CLOSE_LIST, 1);
    SplitText(p[1..k], p[k + 1..]);
    assert p[1..] == p[1..k] + ([CLOSE_LIST] + p[k + 1..]);
  }

  lemma LangListNone(alts: seq<seq<byte>>, ts: seq<Token>, s: seq<byte>, open: bool)
    requires forall i | 0 <= i < |alts| :: !(alts[i] <= s)
    ensures !InLang([List(alts)] + ts, s, open)
  {
    LangCons(List(alts), ts, s, open);
    forall k: nat, i | k <= |s| && 0 <= i < |alts|
      ensures alts[i] != s[..k]
    {
      assert s[..k] <= s;
    }
  }

  lemma SeparateUnique(alts: seq<seq<byte>>, i: nat, m: nat)
    requires i < |alts| && m < |alts| && Separate(alts) && Comparable(alts[m], alts[i])
    ensures i == m
  {
    assert Comparable(alts[i], alts[m]);
  }

  lemma LangListOne(alts: seq<seq<byte>>, ts: seq<Token>, s: seq<byte>, open: bool, m: nat)
    requires m < |alts| && alts[m] <= s && Separate(alts)
    ensures InLang([List(alts)] + ts, s, open) <==> InLang(ts, s[|alts[m]|..], open)
  {
    LangCons(List(alts), ts, s, open);
    if k: nat :| TakesThen(List(alts), ts, s, open, k) {
      var i :| 0 <= i < |alts| && alts[i] == s[..k];
      Prefixes(alts[m], alts[i], s);
      SeparateUnique(alts, i, m);
    }
    if InLang(ts, s[|alts[m]|..], open) {
      assert s[..|alts[m]|] == alts[m];
      assert TakesThen(List(alts), ts, s, open, |alts[m]|);
    }
  }

  lemma MeaningList(alts: seq<seq<byte>>, ts: seq<Token>, s: seq<byte>)
    requires Separate(alts)
    ensures (forall i | 0 <= i < |alts| :: !(alts[i] <= s)) ==> Meaning([List(alts)] + ts, s) == No
    ensures forall m | 0 <= m < |alts| && alts[m] <= s ::
              Meaning([List(alts)] + ts, s) == Meaning(ts, s[|alts[m]|..])
  {
    if forall i | 0 <= i < |alts| :: !(alts[i] <= s) {
      LangListNone(alts, ts, s, false);
      LangListNone(alts, ts, s, true);
    }
    forall m | 0 <= m < |alts| && alts[m] <= s
      ensures Meaning([List(alts)] + ts, s) == Meaning(ts, s[|alts[m]|..])
    {
      LangListOne(alts, ts, s, false, m);
      LangListOne(alts, ts, s, true, m);
    }
  }

  /** The matcher and the meaning agree on every string; this includes all patterns without lists. */
  lemma {:induction false} MatchIsMeaning(s: seq<byte>, p: seq<byte>)
    requires Regular(Tokens(p), true)
    ensures Match(s, p) == Meaning(Tokens(p), s)
    decreases |p|, 0, 1
  {
    if p == [] {
      LangNil(s, false);
      LangNil(s, true);
    } else if p[0] == STAR {
      RegularTail(Star, Tokens(p[1..]), true);
      RegularSkip(p[1..], true);
      MeaningStars(p[1..], s);
      MatchStarIsMeaning(s, SkipStars(p[1..]));
    } else if s == [] {
      MeaningEmptyString(p, true);
    } else if p[0] == QUERY {
      RegularTail(Any, Tokens(p[1..]), true);
      MeaningOne(Any, Tokens(p[1..]), s);
      MatchIsMeaning(s[1..], p[1..]);
    } else if p[0] == OPEN_SET {
      var negate := |p| > 1 && p[1] == NEGATE;
      MatchSetIsMeaning(s, if negate then p[2..] else p[1..], negate);
    } else if p[0] == OPEN_LIST {
      MatchListIsMeaning(s, p);
    } else {
      RegularTail(Literal(p[0]), Tokens(p[1..]), true);
      MeaningOne(Literal(p[0]), Tokens(p[1..]), s);
      MatchIsMeaning(s[1..], p[1..]);
    }
  }

  lemma {:induction false} MatchStarIsMeaning(s: seq<byte>, p: seq<byte>)
    requires Regular(Tokens(p), true) && (p != [] ==> p[0] != STAR)
    ensures MatchStar(s, p) == Meaning([Star] + Tokens(p), s)
    decreases |p|, 1 + |s|
  {
    MeaningStar(Tokens(p), s);
    MatchIsMeaning(s, p);
    if p == [] {
      AnyTail(s);
    } else if s != [] {
      MatchStarIsMeaning(s[1..], p);
    }
  }

  lemma {:induction false} AnyTail(s: seq<byte>)
    ensures Meaning([Star] + [], s) == Yes
    decreases |s|
  {
    MeaningStar([], s);
    LangNil(s, false);
    LangNil(s, true);
    if s != [] {
      AnyTail(s[1..]);
    }
  }

  lemma {:induction false} MatchSetIsMeaning(s: seq<byte>, q: seq<byte>, negate: bool)
    requires Regular(SetTokens(q, negate), true) && s != []
    ensures MatchSet(s, q, negate) == Meaning(SetTokens(q, negate), s)
    decreases |q|, 1
  {
    if q == [] {
      MeaningDead(if negate then Open else Broken, s);
    } else {
      var k := Find(q, CLOSE_SET, 1);
      if k == |q| {
        MeaningDead(Broken, s);
      } else {
        var t := Set(negate, Items(q[..k]));
        RegularTail(t, Tokens(q[k + 1..]), true);
        InSetIsInItems(q[..k], s[0]);
        MeaningOne(t, Tokens(q[k + 1..]), s);
        MatchIsMeaning(s[1..], q[k + 1..]);
      }
    }
  }

  lemma {:induction false} MatchListIsMeaning(s: seq<byte>, p: seq<byte>)
    requires Regular(Tokens(p), true) && s != [] && p != [] && p[0] == OPEN_LIST
    ensures Match(s, p) == Meaning(Tokens(p), s)
    decreases |p|, 0, 0
  {
    var k := Find(p, CLOSE_LIST, 1);
    if k == |p| {
      MeaningDead(Broken, s);
    } else {
      ListAt(s, p);
      var alts, rest := Split(p[1..k]), p[k + 1..];
      hide Match, MatchList, Tokens, ListText, Split;
      RegularTail(List(alts), Tokens(rest), true);
      if rest != [] {
        FirstToken(rest);
      }
      MeaningList(alts, Tokens(rest), s);
      if m :| 0 <= m < |alts| && alts[m] <= s {
        ListMatches(s, rest, alts, m);
        MatchIsMeaning(s[|alts[m]|..], rest);
      } else {
        ListFails(s, rest, alts);
      }
    }
  }

  /** Without braces a string is accepted exactly if it is in the language of the pattern. */
  lemma MatchesWithoutBraces(s: seq<byte>, p: seq<byte>)
    requires OPEN_LIST !in p
    ensures Match(s, p) == Yes <==> InLang(Tokens(p), s, false)
  {
    NoLists(p);
    MatchIsMeaning(s, p);
  }

  lemma {:induction false} NoLists(p: seq<byte>)
    requires OPEN_LIST !in p
    ensures forall t | t in Tokens(p) :: !t.List?
    decreases |p|, 0
  {
    if p != [] {
      if p[0] == OPEN_SET {
        var negate := |p| > 1 && p[1] == NEGATE;
        NoListsInSet(if negate then p[2..] else p[1..], negate);
      } else {
        NoLists(p[1..]);
      }
    }
  }

  lemma {:induction false} NoListsInSet(q: seq<byte>, negate: bool)
    requires OPEN_LIST !in q
    ensures forall t | t in SetTokens(q, negate) :: !t.List?
    decreases |q|, 1
  {
    if q != [] && Find(q, CLOSE_SET, 1) < |q| {
      NoLists(q[Find(q, CLOSE_SET, 1) + 1..]);
    }
  }

  // Completeness, where a failed attempt at a comma may lead to another

  /** A list fails, or what follows it decides about some string. */
  lemma {:induction false} ListEnds(place: seq<byte>, rest: seq<byte>, s: seq<byte>, a: seq<byte>,
                                    alts: seq<seq<byte>>)
    returns (u: seq<byte>)
    requires Clean(a) && AllClean(alts) && forall i | 0 <= i < |alts| :: alts[i] != []
    ensures MatchList(place, rest, s, a + Tail(alts, rest)) in [No, Match(u, rest)]
    decreases |alts|
  {
    hide Match, MatchList, Tail, Clean;
    u := [];
    ScanOne(place, rest, s, a, alts);
    if a <= s && !(a == s && a != [] && rest != []) {
      TailStep(place, rest, s[|a|..], alts);
      if alts == [] || Match(s[|a|..], rest) != No {
        u := s[|a|..];
      } else {
        CleanTail(alts[0]);
        u := ListEnds(place, rest, place, alts[0][1..], alts[1..]);
      }
    } else if alts != [] && !(s != [] && s <= a && rest != []) {
      u := ListEnds(place, rest, place, alts[0], alts[1..]);
    }
  }

  lemma CleanTail(a: seq<byte>)
    requires Clean(a) && a != []
    ensures Clean(a[1..])
  {
  }

  lemma ListEndsWith(s: seq<byte>, rest: seq<byte>, alts: seq<seq<byte>>) returns (u: seq<byte>)
    requires alts != [] && Separate(alts) && AllClean(alts)
    ensures MatchList(s, rest, s, ListText(alts, rest)) in [No, Match(u, rest)]
  {
    hide MatchList, Match;
    TailFacts(alts);
    u := ListEnds(s, rest, s, alts[0], alts[1..]);
  }

  /** Without the one malformed set that runs on, the matcher always reaches a verdict. */
  lemma {:induction false} MatchDefined(s: seq<byte>, p: seq<byte>)
    requires Regular(Tokens(p), false) && Open !in Tokens(p)
    ensures Match(s, p) != Undefined
    decreases |p|, 0
  {
    if p == [] {
    } else if p[0] == STAR {
      RegularTail(Star, Tokens(p[1..]), false);
      RegularSkip(p[1..], false);
      OpenSkip(p[1..]);
      MatchStarDefined(s, SkipStars(p[1..]));
    } else if s == [] {
    } else if p[0] == OPEN_SET {
      var negate := |p| > 1 && p[1] == NEGATE;
      MatchSetDefined(s, if negate then p[2..] else p[1..], negate);
    } else if p[0] == OPEN_LIST {
      var k := Find(p, CLOSE_LIST, 1);
      if k < |p| {
        var alts, rest := Split(p[1..k]), p[k + 1..];
        ListAt(s, p);
        RegularTail(List(alts), Tokens(rest), false);
        var u := ListEndsWith(s, rest, alts);
        MatchDefined(u, rest);
      }
    } else {
      RegularTail(if p[0] == QUERY then Any else Literal(p[0]), Tokens(p[1..]), false);
      MatchDefined(s[1..], p[1..]);
    }
  }

  lemma {:induction false} OpenSkip(p: seq<byte>)
    requires Open !in Tokens(p)
    ensures Open !in Tokens(SkipStars(p))
  {
    if p != [] && p[0] == STAR {
      OpenSkip(p[1..]);
    }
  }

  lemma {:induction false} MatchStarDefined(s: seq<byte>, p: seq<byte>)
    requires Regular(Tokens(p), false) && Open !in Tokens(p)
    ensures MatchStar(s, p) != Undefined
    decreases |p|, 1 + |s|
  {
    MatchDefined(s, p);
    if p != [] && s != [] {
      MatchStarDefined(s[1..], p);
    }
  }

  lemma {:induction false} MatchSetDefined(s: seq<byte>, q: seq<byte>, negate: bool)
    requires Regular(SetTokens(q, negate), false) && Open !in SetTokens(q, negate) && s != []
    ensures MatchSet(s, q, negate) != Undefined
    decreases |q|, 1
  {
    if q != [] {
      var k := Find(q, CLOSE_SET, 1);
      if k < |q| {
        RegularTail(Set(negate, Items(q[..k])), Tokens(q[k + 1..]), false);
        MatchDefined(s[1..], q[k + 1..]);
      }
    }
  }

  /** Every string in the language of the pattern is accepted. */
  lemma {:induction false} MatchIsComplete(s: seq<byte>, p: seq<byte>)
    requires Regular(Tokens(p), false) && InLang(Tokens(p), s, false)
    ensures Match(s, p) == Yes
    decreases |p|, 0, 1
  {
    if p == [] {
      LangNil(s, false);
    } else if p[0] == STAR {
      RegularTail(Star, Tokens(p[1..]), false);
      RegularSkip(p[1..], false);
      MeaningStars(p[1..], s);
      MatchStarIsComplete(s, SkipStars(p[1..]));
    } else if s == [] {
      MeaningEmptyString(p, false);
    } else if p[0] == OPEN_SET {
      var negate := |p| > 1 && p[1] == NEGATE;
      MatchSetIsComplete(s, if negate then p[2..] else p[1..], negate);
    } else if p[0] == OPEN_LIST {
      MatchListIsComplete(s, p);
    } else {
      var t := if p[0] == QUERY then Any else Literal(p[0]);
      RegularTail(t, Tokens(p[1..]), false);
      LangOne(t, Tokens(p[1..]), s, false);
      MatchIsComplete(s[1..], p[1..]);
    }
  }

  lemma {:induction false} MatchStarIsComplete(s: seq<byte>, p: seq<byte>)
    requires Regular(Tokens(p), false) && (p != [] ==> p[0] != STAR) && InLang([Star] + Tokens(p), s, false)
    ensures MatchStar(s, p) == Yes
    decreases |p|, 1 + |s|
  {
    if p != [] {
      var ts := Tokens(p);
      LangStar(ts, s, false);
      OpenOrNot([Star] + ts, s);
      MatchDefined(s, p);
      if InLang(ts, s, false) {
        MatchIsComplete(s, p);
        if s == [] {
          MeaningEmptyString(p, false);
        }
      } else {
        MatchStarIsComplete(s[1..], p);
      }
    }
  }

  lemma {:induction false} MatchSetIsComplete(s: seq<byte>, q: seq<byte>, negate: bool)
    requires Regular(SetTokens(q, negate), false) && InLang(SetTokens(q, negate), s, false) && s != []
    ensures MatchSet(s, q, negate) == Yes
    decreases |q|, 1
  {
    if q == [] {
      MeaningDead(if negate then Open else Broken, s);
    } else {
      var k := Find(q, CLOSE_SET, 1);
      if k == |q| {
        MeaningDead(Broken, s);
      } else {
        var t := Set(negate, Items(q[..k]));
        RegularTail(t, Tokens(q[k + 1..]), false);
        InSetIsInItems(q[..k], s[0]);
        LangOne(t, Tokens(q[k + 1..]), s, false);
        MatchIsComplete(s[1..], q[k + 1..]);
      }
    }
  }

  lemma {:induction false} MatchListIsComplete(s: seq<byte>, p: seq<byte>)
    requires Regular(Tokens(p), false) && InLang(Tokens(p), s, false)
    requires s != [] && p != [] && p[0] == OPEN_LIST
    ensures Match(s, p) == Yes
    decreases |p|, 0, 0, 1
  {
    hide MatchList, Split, ListText, AllClean;
    var k := Find(p, CLOSE_LIST, 1);
    if k == |p| {
      MeaningDead(Broken, s);
    } else {
      ListAt(s, p);
      MatchListAt(s, p, k);
    }
  }

  lemma {:induction false} MatchListAt(s: seq<byte>, p: seq<byte>, k: nat)
    requires 0 < k < |p| && Regular(Tokens(p), false) && InLang(Tokens(p), s, false)
    requires var alts, rest := Split(p[1..k]), p[k + 1..];
             Tokens(p) == [List(alts)] + Tokens(rest) && AllClean(alts) &&
             Match(s, p) == MatchList(s, rest, s, ListText(alts, rest))
    ensures Match(s, p) == Yes
    decreases |p|, 0, 0, 0
  {
    hide Match, MatchList, Tokens, ListText, Split, InLang;
    var alts, rest := Split(p[1..k]), p[k + 1..];
    RegularTail(List(alts), Tokens(rest), false);
    if rest != [] {
      FirstToken(rest);
    }
    LangCons(List(alts), Tokens(rest), s, false);
    var n: nat :| TakesThen(List(alts), Tokens(rest), s, false, n);
    var m :| 0 <= m < |alts| && alts[m] == s[..n];
    MatchIsComplete(s[n..], rest);
    ListMatches(s, rest, alts, m);
  }

  // Lists outside these conditions

  lemma {:induction false} FindIs(p: seq<byte>, c: byte, from: nat, k: nat)
    requires from <= k < |p| && p[k] == c && forall i | from <= i < k :: p[i] != c
    ensures Find(p, c, from) == k
    decreases k - from
  {
    if from < k {
      FindIs(p, c, from + 1, k);
    }
  }

  lemma SplitTwo(a: byte, b: byte)
    requires a != SEPARATOR && b != SEPARATOR
    ensures Split([a, SEPARATOR, b]) == [[a], [b]]
  {
    assert Find([a, SEPARATOR, b], SEPARATOR, 0) == 1;
    assert [a, SEPARATOR, b][2..] == [b] && [a, SEPARATOR, b][..1] == [a];
    assert Find([b], SEPARATOR, 0) == 1;
    assert Split([b]) == [[b]];
  }

  /** `{a,b}ab` accepts `ab`: after the comma fails, the second alternative loses its only character. */
  lemma SlipAccepts(a: byte, b: byte)
    requires a == 'a' as int && b == 'b' as int
    ensures var p := [OPEN_LIST, a, SEPARATOR, b, CLOSE_LIST, a, b];
            Regular(Tokens(p), false) && Match([a, b], p) == Yes && Meaning(Tokens(p), [a, b]) == No
  {
    hide MatchList, Match;
    var p, s := [OPEN_LIST, a, SEPARATOR, b, CLOSE_LIST, a, b], [a, b];
    var alts: seq<seq<byte>> := [[a], [b]];
    FindIs(p, CLOSE_LIST, 1, 4);
    assert p[1..4] == [a, SEPARATOR, b] && p[5..] == s;
    SplitTwo(a, b);
    ListAt(s, p);
    TwoLiterals(s, a, b);
    SlipRun(s, alts, a, b);
    MatchAtList(s, p, 4);
    MeaningList(alts, Tokens(s), s);
    assert alts[0] <= s && s[|alts[0]|..] == [b];
    MeaningOne(Literal(a), Tokens([b]), [b]);
  }

  lemma MatchAtList(s: seq<byte>, p: seq<byte>, k: nat)
    requires s != [] && p != [] && p[0] == OPEN_LIST && k < |p| && Find(p, CLOSE_LIST, 1) == k
    ensures Match(s, p) == MatchList(s, p[k + 1..], s, p[1..])
  {
    hide MatchList, Find;
  }

  lemma TwoLiterals(s: seq<byte>, a: byte, b: byte)
    requires a == 'a' as int && b == 'b' as int && s == [a, b]
    ensures Tokens(s) == [Literal(a)] + Tokens([b]) && Tokens([b]) == [Literal(b)] + Tokens([])
    ensures Match([b], s) == No && Match(s, s) == Yes
  {
    assert s[1..] == [b] && [b][1..] == [];
    assert Match([], []) == Yes && Match([b], [b]) == Yes;
  }

  lemma SlipRun(s: seq<byte>, alts: seq<seq<byte>>, a: byte, b: byte)
    requires a != b && Clean([a]) && Clean([b]) && s == [a, b] && alts == [[a], [b]]
    requires Match([b], s) == No && Match(s, s) == Yes
    ensures MatchList(s, s, s, ListText(alts, s)) == Yes && Separate(alts)
  {
    hide Match, MatchList;
    assert [a][0] != [b][0] && !Comparable([a], [b]);
    ScanOne(s, s, s, alts[0], alts[1..]);
    assert alts[0] <= s && s[1..] == [b];
    TailStep(s, s, [b], alts[1..]);
    assert alts[1..][0][1..] == [] && alts[1..][1..] == [];
    ScanOne(s, s, s, [], []);
    TailStep(s, s, s, []);
    assert [] + Tail([], s) == Tail([], s) && s[0..] == s;
  }

  /** `{a}*` refuses `a`: the string ends before a remainder that could match nothing. */
  lemma StarAfterListRefuses(a: byte)
    requires a == 'a' as int
    ensures var p := [OPEN_LIST, a, CLOSE_LIST, STAR];
            Match([a], p) == No && Meaning(Tokens(p), [a]) == Yes
  {
    var p, alts: seq<seq<byte>> := [OPEN_LIST, a, CLOSE_LIST, STAR], [[a]];
    assert Find(p, CLOSE_LIST, 1) == 2 && p[1..2] == [a] && p[3..] == [STAR];
    assert Find([a], SEPARATOR, 0) == 1;
    ListAt([a], p);
    ScanOne([a], [STAR], [a], [a], []);
    MeaningList(alts, Tokens([STAR]), [a]);
    assert alts[0] <= [a] && [a][1..] == [];
    AnyTail([]);
  }
}
