/** lo_pattern_match with its loops over the string and the pattern. */
module PatternLoops {
  import opened Bytes
  import opened PatternMatch

  lemma {:induction false} InSetFirst(body: seq<byte>)
    requires body != []
    ensures InSet(body, body[0])
  {
  }

  /** One step of the scan of a set whose closing bracket is at `close`. */
  lemma InSetStep(p: seq<byte>, j: nat, close: nat, x: byte)
    requires j < close < |p| && p[close] == CLOSE_SET && CLOSE_SET !in p[j + 1..close]
    ensures j + 1 == close ==> InSet(p[j..close], x) == (x == p[j])
    ensures j + 1 < close && p[j + 1] != HYPHEN ==>
              InSet(p[j..close], x) == (x == p[j] || x == p[j + 1] || InSet(p[j + 1..close], x))
    ensures j + 2 == close && p[j + 1] == HYPHEN ==> InSet(p[j..close], x) == (Signed(x) >= Signed(p[j]))
    ensures j + 2 < close && p[j + 1] == HYPHEN ==>
              InSet(p[j..close], x) == (InRange(p[j], p[j + 2], x) || InSet(p[j + 2..close], x))
  {
    var body := p[j..close];
    if j + 1 < close && p[j + 1] != HYPHEN {
      assert body[1..] == p[j + 1..close];
      InSetFirst(body[1..]);
    } else if j + 2 < close {
      assert body[2..] == p[j + 2..close];
    }
  }

  lemma NotClosed(p: seq<byte>, j: nat, k: nat, close: nat)
    requires j <= k < close <= |p| && CLOSE_SET !in p[j..close]
    ensures p[k] != CLOSE_SET
  {
    assert p[j..close][k - j] == p[k];
  }

  /**
   * The characters of a set, from `b` on.  The scan stops at the first character that matches,
   * or at the closing bracket.
   */
  method ScanChars(p: CString, b: nat, x: byte, ghost close: nat) returns (found: bool, j: nat, unclosed: bool)
    requires b < |p| && close == Find(p, CLOSE_SET, b + 1)
    ensures unclosed ==> close == |p|
    ensures !unclosed ==> b < j <= close && (close < |p| ==> found == InSet(p[b..close], x))
    ensures !unclosed && !found ==> j == close < |p|
  {
    j := b;
    found := false;
    while !found
      invariant b <= j <= close && CLOSE_SET !in p[b + 1..close]
      invariant found ==> b < j
      invariant !found ==> j < close
      invariant close < |p| ==> InSet(p[b..close], x) == (found || InSet(p[j..close], x))
      decreases !found, close - j
    {
      if close < |p| {
        assert CLOSE_SET !in p[j + 1..close] by {
          assert p[j + 1..close] == p[b + 1..close][j - b..];
        }
        InSetStep(p, j, close, x);
      }
      var c := p[j];
      j := j + 1;
      if j == |p| {
        return found, j, true;
      }
      if p[j] == HYPHEN {
        j := j + 1;
        if j == |p| {
          return found, j, true;
        }
        if p[j] != CLOSE_SET {
          if x == c || x == p[j] || (Signed(x) > Signed(c) && Signed(x) < Signed(p[j])) {
            found := true;
          }
        } else {
          if Signed(x) >= Signed(c) {
            found := true;
          }
          if j < close { NotClosed(p, b + 1, j, close); }
          return found, j, false;
        }
      } else {
        if c == x {
          found := true;
        }
        if p[j] != CLOSE_SET {
          if p[j] == x {
            found := true;
          }
        } else {
          if j < close { NotClosed(p, b + 1, j, close); }
          return found, j, false;
        }
      }
    }
    unclosed := false;
  }

  lemma {:induction false} FindShift(p: seq<byte>, b: nat, c: byte, from: nat)
    requires b <= |p| && from <= |p| - b
    ensures Find(p[b..], c, from) + b == Find(p, c, b + from)
    decreases |p| - b - from
  {
    if b + from < |p| && p[b + from] != c {
      FindShift(p, b, c, from + 1);
    }
  }

  lemma {:induction false} FindAgain(p: seq<byte>, c: byte, from: nat, j: nat)
    requires from <= |p| && from <= j <= Find(p, c, from)
    ensures Find(p, c, j) == Find(p, c, from)
    decreases j - from
  {
    if from < j {
      FindAgain(p, c, from + 1, j);
    }
  }

  /** The loops that advance to the end of a set or a list. */
  method ScanTo(p: CString, c: byte, from: nat) returns (k: nat)
    requires from <= |p|
    ensures k == Find(p, c, from)
  {
    k := from;
    while k < |p| && p[k] != c
      invariant from <= k <= |p| && Find(p, c, from) == Find(p, c, k)
    {
      k := k + 1;
    }
  }

  /** What is left of a set whose closing bracket is at `close`. */
  lemma SetAt(s: seq<byte>, p: seq<byte>, b: nat, negate: bool)
    requires s != [] && b < |p|
    ensures var close := Find(p, CLOSE_SET, b + 1);
            MatchSet(s, p[b..], negate) ==
            if close == |p| then No
            else if InSet(p[b..close], s[0]) == negate then No
            else Match(s[1..], p[close + 1..])
  {
    hide InSet, Match;
    var close := Find(p, CLOSE_SET, b + 1);
    FindShift(p, b, CLOSE_SET, 1);
    if close < |p| {
      assert p[b..][..close - b] == p[b..close] && p[b..][close - b + 1..] == p[close + 1..];
    }
  }

  /** A set from the character after its opening bracket: `Yes` to go on with the pattern at `j`. */
  method ScanSet(str: CString, i: nat, p: CString, open: nat) returns (v: Verdict, j: nat)
    requires i < |str| && open < |p| && p[open] == OPEN_SET
    ensures v == Yes ==> open < j <= |p| && Match(str[i..], p[open..]) == Match(str[i + 1..], p[j..])
    ensures v != Yes ==> Match(str[i..], p[open..]) == v
  {
    hide Match, MatchSet;
    j := open + 1;
    var negate := false;
    if j < |p| && p[j] == NEGATE {
      negate := true;
      j := j + 1;
    }
    SetIs(str[i..], p, open, j, negate);
    if j == |p| {
      // the scan ends on the terminator of the pattern and steps over it
      SetEnds(str[i..], p[j..], negate);
      return if negate then Undefined else No, j;
    }
    v, j := ScanMembers(str, i, p, j, negate);
  }

  lemma SetEnds(s: seq<byte>, p: seq<byte>, negate: bool)
    requires s != [] && p == []
    ensures MatchSet(s, p, negate) == if negate then Undefined else No
  {
  }

  /** The members of a set, from the first at `b`, and on to what follows the set. */
  method ScanMembers(str: CString, i: nat, p: CString, b: nat, negate: bool) returns (v: Verdict, j: nat)
    requires i < |str| && b < |p|
    ensures v == Yes ==> b < j <= |p| && MatchSet(str[i..], p[b..], negate) == Match(str[i + 1..], p[j..])
    ensures v != Yes ==> MatchSet(str[i..], p[b..], negate) == v
  {
    hide Match, MatchSet, InSet;
    ghost var close := Find(p, CLOSE_SET, b + 1);
    SetAt(str[i..], p, b, negate);
    assert str[i..][0] == str[i] && str[i..][1..] == str[i + 1..];
    var found, unclosed;
    found, j, unclosed := ScanChars(p, b, str[i], close);
    if unclosed || negate == found {
      return No, j;
    }
    FindAgain(p, CLOSE_SET, b + 1, j);
    j := ScanTo(p, CLOSE_SET, j);
    if j == |p| {
      return No, j;
    }
    return Yes, j + 1;
  }

  lemma SetIs(s: seq<byte>, p: seq<byte>, open: nat, b: nat, negate: bool)
    requires s != [] && open < |p| && p[open] == OPEN_SET
    requires if negate then b == open + 2 <= |p| && p[open + 1] == NEGATE
             else b == open + 1 && (b < |p| ==> p[b] != NEGATE)
    ensures Match(s, p[open..]) == MatchSet(s, p[b..], negate)
  {
    assert p[open..][1..] == p[open + 1..];
    if negate {
      assert p[open..][2..] == p[b..];
    }
  }

  lemma SkipAlternativeStep(p: seq<byte>, j: nat)
    requires j < |p|
    ensures SkipAlternative(p[j..]) ==
            if p[j] != SEPARATOR && p[j] != CLOSE_LIST then SkipAlternative(p[j + 1..]) else p[j..]
  {
    assert p[j..][1..] == p[j + 1..];
  }

  /** The brace list at `j` with the string at `i`, one character of the pattern on. */
  lemma MatchListStep(place: seq<byte>, rest: seq<byte>, str: seq<byte>, i: nat, p: seq<byte>, j: nat)
    requires i <= |str| && j < |p|
    ensures MatchList(place, rest, str[i..], p[j..]) ==
            if p[j] == SEPARATOR then
              var v := Match(str[i..], rest);
              if v != No then v else if j + 1 == |p| then No else MatchList(place, rest, place, p[j + 2..])
            else if p[j] == CLOSE_LIST then Match(str[i..], p[j + 1..])
            else if i < |str| && p[j] == str[i] then
              if i + 1 == |str| && rest != [] then No else MatchList(place, rest, str[i + 1..], p[j + 1..])
            else
              var q := SkipAlternative(p[j + 1..]);
              if q == [] then Undefined
              else if q[0] == SEPARATOR then MatchList(place, rest, place, q[1..])
              else No
  {
    assert p[j..][1..] == p[j + 1..];
    if j + 1 < |p| {
      assert p[j..][2..] == p[j + 2..];
    }
    if i < |str| {
      assert str[i..][1..] == str[i + 1..];
    }
  }

  lemma ListIs(s: seq<byte>, p: seq<byte>, open: nat)
    requires s != [] && open < |p| && p[open] == OPEN_LIST
    ensures var k := Find(p, CLOSE_LIST, open + 1);
            Match(s, p[open..]) == if k == |p| then No else MatchList(s, p[k + 1..], s, p[open + 1..])
  {
    hide MatchList;
    var k := Find(p, CLOSE_LIST, open + 1);
    FindShift(p, open, CLOSE_LIST, 1);
    assert p[open..][1..] == p[open + 1..];
    if k < |p| {
      assert p[open..][k - open + 1..] == p[k + 1..];
    }
  }

  /** A brace list: a verdict, or `more` to go on with the string at `i'` and the pattern at `j`. */
  method ScanList(str: CString, i: nat, p: CString, open: nat) returns (more: bool, v: Verdict, i': nat, j: nat)
    requires i < |str| && open < |p| && p[open] == OPEN_LIST
    ensures more ==> i' <= |str| && open < j <= |p| && Match(str[i..], p[open..]) == Match(str[i'..], p[j..])
    ensures !more ==> Match(str[i..], p[open..]) == v
    decreases |p|, 0
  {
    var place := i;
    i', j := i, open + 1;
    var remainder := ScanTo(p, CLOSE_LIST, j);
    ListIs(str[i..], p, open);
    if remainder == |p| {
      return false, No, i', j;
    }
    remainder := remainder + 1;
    var rest := p[remainder..];
    hide *;
    more, v, i', j := ScanAlternatives(str, i, rest, p, j);
  }

  /** The characters of a brace list; its alternatives are tried from `place` in the string. */
  method ScanAlternatives(str: CString, place: nat, rest: CString, p: CString, start: nat)
    returns (more: bool, v: Verdict, i: nat, j: nat)
    requires place <= |str| && start <= |p| && |rest| < |p|
    ensures more ==> i <= |str| && start < j <= |p| &&
                     MatchList(str[place..], rest, str[place..], p[start..]) == Match(str[i..], p[j..])
    ensures !more ==> MatchList(str[place..], rest, str[place..], p[start..]) == v
    decreases |rest| + 1, 0
  {
    hide Match, MatchList, SkipAlternative;
    i, j := place, start;
    while true
      invariant place <= i <= |str| && start <= j <= |p|
      invariant MatchList(str[place..], rest, str[place..], p[start..]) ==
                MatchList(str[place..], rest, str[i..], p[j..])
      decreases |p| - j
    {
      if j == |p| {
        // the terminator ends the list, and the outer loop would read what follows it
        MatchListEnd(str[place..], rest, str[i..], p[j..]);
        return false, Undefined, i, j;
      }
      MatchListStep(str[place..], rest, str, i, p, j);
      var c := p[j];
      j := j + 1;
      if c == SEPARATOR {
        v := LoPatternMatch(str[i..], rest);
        if v != No {
          return false, v, i, j;
        }
        i := place;
        if j == |p| {
          return false, No, i, j;
        }
        j := j + 1;
      } else if c == CLOSE_LIST {
        return true, No, i, j;
      } else if i < |str| && c == str[i] {
        i := i + 1;
        if i == |str| && rest != [] {
          return false, No, i, j;
        }
      } else {
        i := place;
        j := ScanAlternative(p, j);
        if j == |p| {
          return false, Undefined, i, j;
        }
        if p[j] == CLOSE_LIST {
          return false, No, i, j;
        }
        j := j + 1;
      }
    }
  }

  lemma MatchListEnd(place: seq<byte>, rest: seq<byte>, s: seq<byte>, p: seq<byte>)
    requires p == []
    ensures MatchList(place, rest, s, p) == Undefined
  {
  }

  /** On to the next comma or the end of the list. */
  method ScanAlternative(p: CString, from: nat) returns (j: nat)
    requires from <= |p|
    ensures from <= j <= |p| && SkipAlternative(p[from..]) == p[j..]
    ensures j < |p| ==> (p[j] == SEPARATOR || p[j] == CLOSE_LIST) && p[j..][0] == p[j] && p[j..][1..] == p[j + 1..]
  {
    j := from;
    while j < |p| && p[j] != SEPARATOR && p[j] != CLOSE_LIST
      invariant from <= j <= |p| && SkipAlternative(p[from..]) == SkipAlternative(p[j..])
    {
      SkipAlternativeStep(p, j);
      j := j + 1;
    }
    if j < |p| {
      SkipAlternativeStep(p, j);
    }
  }

  lemma SkipStarsStep(p: seq<byte>, j: nat)
    requires j < |p|
    ensures SkipStars(p[j..]) == if p[j] == STAR then SkipStars(p[j + 1..]) else p[j..]
  {
    assert p[j..][1..] == p[j + 1..];
  }

  /** A literal after a star rules out every suffix that does not start with it. */
  lemma SkipAhead(str: seq<byte>, i: nat, p: seq<byte>)
    requires i < |str| && p != [] && p[0] != str[i]
    requires p[0] !in {STAR, QUERY, OPEN_SET, OPEN_LIST}
    ensures MatchStar(str[i..], p) == MatchStar(str[i + 1..], p)
  {
    assert str[i..][1..] == str[i + 1..];
  }

  /** The rest of the pattern after a star. */
  method ScanStar(str: CString, i: nat, p: CString, star: nat) returns (v: Verdict)
    requires i <= |str| && star < |p| && p[star] == STAR
    ensures v == Match(str[i..], p[star..])
    decreases |p|, 0
  {
    var i', j := i, star + 1;
    assert p[star..][1..] == p[j..];
    while j < |p| && p[j] == STAR
      invariant star < j <= |p| && SkipStars(p[star + 1..]) == SkipStars(p[j..])
    {
      SkipStarsStep(p, j);
      j := j + 1;
    }
    if j == |p| {
      return Yes;
    }
    SkipStarsStep(p, j);
    if p[j] != QUERY && p[j] != OPEN_SET && p[j] != OPEN_LIST {
      while i' < |str| && p[j] != str[i']
        invariant i <= i' <= |str| && MatchStar(str[i..], p[j..]) == MatchStar(str[i'..], p[j..])
      {
        SkipAhead(str, i', p[j..]);
        i' := i' + 1;
      }
    }
    while i' < |str|
      invariant i <= i' <= |str| && MatchStar(str[i..], p[j..]) == MatchStar(str[i'..], p[j..])
    {
      v := LoPatternMatch(str[i'..], p[j..]);
      if v != No {
        return v;
      }
      assert str[i'..][1..] == str[i' + 1..];
      i' := i' + 1;
    }
    return No;
  }

  method LoPatternMatch(str: CString, p: CString) returns (v: Verdict)
    ensures v == Match(str, p)
    decreases |p|, 1
  {
    var i, j := 0, 0;
    while j < |p|
      invariant 0 <= i <= |str| && 0 <= j <= |p|
      invariant Match(str, p) == Match(str[i..], p[j..])
    {
      assert p[j..][1..] == p[j + 1..];
      if i == |str| && p[j] != STAR {
        return No;
      }
      if p[j] == STAR {
        v := ScanStar(str, i, p, j);
        return;
      }
      assert str[i..][1..] == str[i + 1..];
      if p[j] == QUERY {
        i, j := i + 1, j + 1;
      } else if p[j] == OPEN_SET {
        var next;
        v, next := ScanSet(str, i, p, j);
        if v != Yes {
          return;
        }
        i, j := i + 1, next;
      } else if p[j] == OPEN_LIST {
        var more;
        more, v, i, j := ScanList(str, i, p, j);
        if !more {
          return;
        }
      } else {
        if p[j] != str[i] {
          return No;
        }
        i, j := i + 1, j + 1;
      }
    }
    return if i == |str| then Yes else No;
  }
}
