/** Brace lists: what the matcher makes of a list of alternatives. */
module PatternLists {
  import opened Bytes
  import opened PatternMatch
  import opened PatternLanguage

  /** No separator and no closing brace, as in the text of an alternative. */
  ghost predicate Clean(a: seq<byte>) { SEPARATOR !in a && CLOSE_LIST !in a }

  ghost predicate AllClean(alts: seq<seq<byte>>) { forall i | 0 <= i < |alts| :: Clean(alts[i]) }

  /** The text of the remaining alternatives and of the pattern after the list. */
  function Tail(alts: seq<seq<byte>>, rest: seq<byte>): (p: seq<byte>)
    ensures p != []
  {
    if alts == [] then [CLOSE_LIST] + rest else [SEPARATOR] + alts[0] + Tail(alts[1..], rest)
  }

  function ListText(alts: seq<seq<byte>>, rest: seq<byte>): seq<byte>
    requires alts != []
  {
    alts[0] + Tail(alts[1..], rest)
  }

  lemma {:induction false} SplitText(body: seq<byte>, rest: seq<byte>)
    requires CLOSE_LIST !in body
    ensures ListText(Split(body), rest) == body + ([CLOSE_LIST] + rest) && AllClean(Split(body))
    decreases |body|
  {
    var k := Find(body, SEPARATOR, 0);
    assert body[0..k] == body[..k];
    if k < |body| {
      SplitText(body[k + 1..], rest);
      SplitTextStep(body, k, Split(body[k + 1..]), rest);
    }
  }

  lemma SplitTextStep(body: seq<byte>, k: nat, alts: seq<seq<byte>>, rest: seq<byte>)
    requires k < |body| && body[k] == SEPARATOR && Clean(body[..k]) && alts != [] && AllClean(alts)
    requires ListText(alts, rest) == body[k + 1..] + ([CLOSE_LIST] + rest)
    ensures ListText([body[..k]] + alts, rest) == body + ([CLOSE_LIST] + rest)
    ensures AllClean([body[..k]] + alts)
  {
    var all := [body[..k]] + alts;
    assert all[1..] == alts;
    assert Tail(alts, rest) == [SEPARATOR] + ListText(alts, rest);
    hide Tail, ListText;
    assert body == body[..k] + [SEPARATOR] + body[k + 1..];
  }

  /** The list starts anew with the next alternative, or fails. */
  function NextAlternative(place: seq<byte>, rest: seq<byte>, alts: seq<seq<byte>>): Verdict {
    if alts == [] then No else MatchList(place, rest, place, ListText(alts, rest))
  }

  lemma {:induction false} SkipClean(a: seq<byte>, alts: seq<seq<byte>>, rest: seq<byte>)
    requires Clean(a)
    ensures SkipAlternative(a + Tail(alts, rest)) == Tail(alts, rest)
  {
    var p := a + Tail(alts, rest);
    if a != [] {
      assert p[1..] == a[1..] + Tail(alts, rest);
      SkipClean(a[1..], alts, rest);
    } else {
      assert p == Tail(alts, rest);
    }
  }

  /** One alternative against the string: it matches, the string runs out, or the next is tried. */
  lemma {:induction false} ScanOne(place: seq<byte>, rest: seq<byte>, s: seq<byte>, a: seq<byte>,
                                   alts: seq<seq<byte>>)
    requires Clean(a)
    ensures MatchList(place, rest, s, a + Tail(alts, rest)) ==
            if a <= s && !(a == s && a != [] && rest != []) then
              MatchList(place, rest, s[|a|..], Tail(alts, rest))
            else if s != [] && s <= a && rest != [] then No
            else NextAlternative(place, rest, alts)
    decreases |a|
  {
    var p := a + Tail(alts, rest);
    if a == [] {
      assert p == Tail(alts, rest) && s[0..] == s;
    } else if s != [] && a[0] == s[0] {
      assert p[1..] == a[1..] + Tail(alts, rest);
      ScanOne(place, rest, s[1..], a[1..], alts);
      assert a == [a[0]] + a[1..] && s == [s[0]] + s[1..];
      assert a <= s <==> a[1..] <= s[1..];
      if a <= s {
        assert s[1..][|a| - 1..] == s[|a|..];
      }
    } else {
      assert p[1..] == a[1..] + Tail(alts, rest);
      SkipClean(a[1..], alts, rest);
      if alts != [] {
        assert Tail(alts, rest)[1..] == ListText(alts, rest);
      }
    }
  }

  ghost predicate Comparable(a: seq<byte>, b: seq<byte>) { a <= b || b <= a }

  /** Alternatives that are not empty and of which none starts with another. */
  ghost predicate Separate(alts: seq<seq<byte>>) {
    && (forall i | 0 <= i < |alts| :: alts[i] != [])
    && (forall i, j | 0 <= i < j < |alts| :: !Comparable(alts[i], alts[j]))
  }

  /** No alternative, less its first character, starts like the one before it. */
  ghost predicate NoSlip(alts: seq<seq<byte>>) {
    forall i | 0 < i < |alts| :: !Comparable(alts[i - 1], if alts[i] == [] then [] else alts[i][1..])
  }

  lemma Prefixes(a: seq<byte>, b: seq<byte>, s: seq<byte>)
    requires a <= s && (b <= s || s <= b)
    ensures Comparable(a, b)
  {
  }

  lemma TailFacts(alts: seq<seq<byte>>)
    requires alts != [] && Separate(alts) && AllClean(alts)
    ensures Separate(alts[1..]) && AllClean(alts[1..]) && Clean(alts[0])
    ensures NoSlip(alts) ==> NoSlip(alts[1..])
  {
    var r := alts[1..];
    forall i, j | 0 <= i < j < |r|
      ensures !Comparable(r[i], r[j])
    {
      assert r[i] == alts[i + 1] && r[j] == alts[j + 1];
    }
    if NoSlip(alts) {
      forall i | 0 < i < |r|
        ensures !Comparable(r[i - 1], if r[i] == [] then [] else r[i][1..])
      {
        assert r[i] == alts[i + 1] && r[i - 1] == alts[i];
      }
    }
  }

  /** A string none of the alternatives matches fails the list. */
  lemma {:induction false} ListFails(s: seq<byte>, rest: seq<byte>, alts: seq<seq<byte>>)
    requires alts != [] && Separate(alts) && AllClean(alts)
    requires forall i | 0 <= i < |alts| :: !(alts[i] <= s)
    ensures MatchList(s, rest, s, ListText(alts, rest)) == No
    decreases |alts|
  {
    TailFacts(alts);
    ScanOne(s, rest, s, alts[0], alts[1..]);
    if |alts| > 1 {
      ListFails(s, rest, alts[1..]);
    }
  }

  /** A failed attempt at a comma: the next alternative is scanned without its first character. */
  lemma AfterComma(s: seq<byte>, rest: seq<byte>, a: seq<byte>, alts: seq<seq<byte>>)
    requires alts != [] && Separate(alts) && AllClean(alts) && a <= s
    requires !Comparable(a, alts[0][1..]) && forall i | 0 <= i < |alts| :: !Comparable(a, alts[i])
    ensures MatchList(s, rest, s, alts[0][1..] + Tail(alts[1..], rest)) == No
  {
    TailFacts(alts);
    var b := alts[0][1..];
    ScanOne(s, rest, s, b, alts[1..]);
    if b <= s || s <= b {
      Prefixes(a, b, s);
    } else if |alts| > 1 {
      forall i | 0 <= i < |alts[1..]|
        ensures !(alts[1..][i] <= s)
      {
        if alts[i + 1] <= s {
          Prefixes(a, alts[i + 1], s);
        }
      }
      ListFails(s, rest, alts[1..]);
    }
  }

  /** At the comma or the brace after an alternative. */
  lemma TailStep(place: seq<byte>, rest: seq<byte>, s: seq<byte>, alts: seq<seq<byte>>)
    requires alts != [] ==> alts[0] != []
    ensures MatchList(place, rest, s, Tail(alts, rest)) ==
            if alts == [] || Match(s, rest) != No then Match(s, rest)
            else MatchList(place, rest, place, alts[0][1..] + Tail(alts[1..], rest))
  {
    var p := Tail(alts, rest);
    if alts == [] {
      assert p[1..] == rest;
    } else {
      assert p[2..] == alts[0][1..] + Tail(alts[1..], rest);
    }
    hide Match;
  }

  /** What follows a matching alternative decides the list, if need be after a failed comma. */
  lemma AtComma(s: seq<byte>, rest: seq<byte>, a: seq<byte>, alts: seq<seq<byte>>)
    requires a <= s && Separate([a] + alts) && AllClean([a] + alts)
    ensures var u, v := s[|a|..], Match(s[|a|..], rest);
            var r := MatchList(s, rest, u, Tail(alts, rest));
            (v != No || NoSlip([a] + alts) ==> r == v)
  {
    var all, u := [a] + alts, s[|a|..];
    var p := Tail(alts, rest);
    assert all[1..] == alts;
    TailFacts(all);
    TailStep(s, rest, u, alts);
    hide Tail, Match, MatchList;
    if alts != [] && Match(u, rest) == No && NoSlip(all) {
      assert all[1] == alts[0];
      forall i | 0 <= i < |alts|
        ensures !Comparable(a, alts[i])
      {
        assert all[i + 1] == alts[i] && all[0] == a;
      }
      AfterComma(s, rest, a, alts);
    }
  }

  /** A string the m-th alternative matches is decided by what follows it. */
  lemma {:induction false} ListMatches(s: seq<byte>, rest: seq<byte>, alts: seq<seq<byte>>, m: nat)
    requires m < |alts| && Separate(alts) && AllClean(alts) && alts[m] <= s
    requires rest != [] ==> rest[0] != STAR
    ensures var v := Match(s[|alts[m]|..], rest);
            v != No || NoSlip(alts) ==> MatchList(s, rest, s, ListText(alts, rest)) == v
    decreases |alts|
  {
    hide MatchList, Tail, Clean;
    TailFacts(alts);
    var a, others := alts[0], alts[1..];
    ScanOne(s, rest, s, a, others);
    if m == 0 {
      assert alts == [a] + others;
      AtComma(s, rest, a, others);
    } else {
      if a <= s || s <= a {
        Prefixes(alts[m], a, s);
      }
      ListMatches(s, rest, others, m - 1);
    }
  }
}
