/** The arguments of an add call as its type string describes them, and the markers behind them. */
module Varargs {
  import opened Bytes
  import opened OscArgs

  const DOLLAR: byte := '$' as int

  /** An argument of the call as the C caller passed it. */
  datatype Vararg = Given(arg: Arg) | MarkerA | MarkerB

  /** A char is widened to a word. */
  predicate IsChar(w: Word) { w.b3 == w.b2 == w.b1 == 0 }

  predicate IsSent(a: Arg) { a.Char? ==> IsChar(a.c) }

  /** The argument of a type without data. */
  function Bare(t: byte): Option<Arg> {
    if t == LO_TRUE then Some(True)
    else if t == LO_FALSE then Some(False)
    else if t == LO_NIL then Some(Nil)
    else if t == LO_INFINITUM then Some(Infinitum)
    else None
  }

  predicate TakesData(t: byte) {
    t in [LO_INT32, LO_FLOAT, LO_STRING, LO_BLOB, LO_INT64, LO_TIMETAG, LO_DOUBLE, LO_SYMBOL, LO_CHAR, LO_MIDI]
  }

  predicate Ends(types: seq<byte>) { |types| > 1 && types[0] == types[1] == DOLLAR }

  /**
   * The caller passes a value of its type for every type character, and something after them.
   * Only a marker in place of a symbol is noticed before it is used.
   */
  predicate Supplied(types: seq<byte>, ap: seq<Vararg>)
    decreases |types|
  {
    if types == [] then ap != [] && (ap[0].MarkerA? ==> |ap| > 1)
    else if Ends(types) then true
    else if TakesData(types[0]) then
      ap != [] &&
      (if ap[0].Given? then Tag(ap[0].arg) == types[0] && IsSent(ap[0].arg) && Supplied(types[1..], ap[1..])
       else ap[0].MarkerA? && types[0] == LO_SYMBOL)
    else Supplied(types[1..], ap)
  }

  /** What a call adds to the message, and what it returns. */
  datatype Added = Added(args: seq<Arg>, ret: int)

  function Behind(args: seq<Arg>, a: Added): Added { a.(args := args + a.args) }

  /** The rest of a call that would return `ret`. */
  function AddedBy(types: seq<byte>, ap: seq<Vararg>, ret: int): Added
    requires Supplied(types, ap)
    decreases |types|
  {
    if types == [] then
      Added([], if ap[0].MarkerA? && ap[1].MarkerB? then ret else -2)
    else if Ends(types) then
      Added([], 0)
    else if TakesData(types[0]) then
      if ap[0].Given? then Behind([ap[0].arg], AddedBy(types[1..], ap[1..], ret)) else Added([], -2)
    else
      match Bare(types[0])
      case Some(a) => Behind([a], AddedBy(types[1..], ap, ret))
      case None => AddedBy(types[1..], ap, -1)
  }

  function Values(list: seq<Arg>): seq<Vararg> {
    if list == [] then []
    else (if Bare(Tag(list[0])).Some? then [] else [Given(list[0])]) + Values(list[1..])
  }

  lemma BareIs(a: Arg)
    ensures TakesData(Tag(a)) <==> Bare(Tag(a)).None?
    ensures Bare(Tag(a)).Some? ==> Bare(Tag(a)) == Some(a)
    ensures Tag(a) != DOLLAR
  {
  }

  lemma FirstAdded(a: Arg, types: seq<byte>, ap: seq<Vararg>, ret: int)
    requires IsSent(a) && Supplied(types, ap)
    ensures var p := (if Bare(Tag(a)).Some? then [] else [Given(a)]) + ap;
            Supplied([Tag(a)] + types, p) &&
            AddedBy([Tag(a)] + types, p, ret) == Behind([a], AddedBy(types, ap, ret))
  {
    hide Tag, Bare, TakesData;
    BareIs(a);
    assert ([Tag(a)] + types)[1..] == types && ([Given(a)] + ap)[1..] == ap && [] + ap == ap;
  }

  /** A call with types and values that fit, and any two values after them, adds exactly these. */
  lemma {:induction false} ListIsAdded(list: seq<Arg>, m: Vararg, n: Vararg, ret: int)
    requires forall i | 0 <= i < |list| :: IsSent(list[i])
    ensures Supplied(Tags(list), Values(list) + [m, n])
    ensures AddedBy(Tags(list), Values(list) + [m, n], ret) ==
            Added(list, if m.MarkerA? && n.MarkerB? then ret else -2)
  {
    hide IsSent, Bare, Tag;
    if list == [] {
      assert Values(list) + [m, n] == [m, n];
    } else {
      hide Supplied, AddedBy;
      ListIsAdded(list[1..], m, n, ret);
      FirstAdded(list[0], Tags(list[1..]), Values(list[1..]) + [m, n], ret);
      var first := if Bare(Tag(list[0])).Some? then [] else [Given(list[0])];
      assert Values(list) + [m, n] == first + (Values(list[1..]) + [m, n]);
      assert list == [list[0]] + list[1..];
    }
  }

  /** The type string is cut short by two dollar signs, after only values that were passed. */
  predicate CutShort(types: seq<byte>, ap: seq<Vararg>)
    requires Supplied(types, ap)
    decreases |types|
  {
    types != [] &&
    (Ends(types) ||
     if TakesData(types[0]) then ap[0].Given? && CutShort(types[1..], ap[1..]) else CutShort(types[1..], ap))
  }

  /** Every type is known, every symbol passed, and the markers come next. */
  predicate Complete(types: seq<byte>, ap: seq<Vararg>)
    requires Supplied(types, ap)
    decreases |types|
  {
    if types == [] then ap[0].MarkerA? && ap[1].MarkerB?
    else
      !Ends(types) &&
      if TakesData(types[0]) then ap[0].Given? && Complete(types[1..], ap[1..])
      else Bare(types[0]).Some? && Complete(types[1..], ap)
  }

  /** The call reports success exactly then; so an unknown type in front of the dollar signs is not reported. */
  lemma {:induction false} SucceedsExactly(types: seq<byte>, ap: seq<Vararg>, ret: int)
    requires Supplied(types, ap)
    ensures AddedBy(types, ap, ret).ret == 0 <==> CutShort(types, ap) || (ret == 0 && Complete(types, ap))
    ensures AddedBy(types, ap, ret).ret in {ret, 0, -1, -2}
    decreases |types|
  {
    if types != [] && !Ends(types) {
      if TakesData(types[0]) {
        if ap[0].Given? {
          SucceedsExactly(types[1..], ap[1..], ret);
        }
      } else {
        SucceedsExactly(types[1..], ap, if Bare(types[0]).Some? then ret else -1);
      }
    }
  }

  /** No unknown type in front of the end of the string, or of the dollar signs. */
  predicate Known(types: seq<byte>) {
    types == [] || Ends(types) || ((TakesData(types[0]) || Bare(types[0]).Some?) && Known(types[1..]))
  }

  lemma {:induction false} CompleteIsKnown(types: seq<byte>, ap: seq<Vararg>)
    requires Supplied(types, ap)
    ensures Complete(types, ap) ==> Known(types)
    decreases |types|
  {
    if types != [] && Complete(types, ap) {
      CompleteIsKnown(types[1..], if TakesData(types[0]) then ap[1..] else ap);
    }
  }

  /**
   * Success is reported just for calls whose types are known and whose values, and markers where they are
   * asked for, are there: exactly unless dollar signs come behind an unknown type.
   */
  lemma ReportsExactly(types: seq<byte>, ap: seq<Vararg>)
    requires Supplied(types, ap)
    ensures (AddedBy(types, ap, 0).ret == 0 <==> Known(types) && (CutShort(types, ap) || Complete(types, ap))) <==>
            !CutShort(types, ap) || Known(types)
  {
    SucceedsExactly(types, ap, 0);
    CompleteIsKnown(types, ap);
  }

  /** The two markers come next. */
  predicate Marked(ap: seq<Vararg>) { |ap| > 1 && ap[0].MarkerA? && ap[1].MarkerB? }

  /** A type that is not known adds nothing, and in front of the dollar signs the call still reports success. */
  lemma UnknownUnreported(t: byte, ap: seq<Vararg>)
    requires t != DOLLAR && !TakesData(t) && Bare(t).None?
    ensures Supplied([t, DOLLAR, DOLLAR], ap) && AddedBy([t, DOLLAR, DOLLAR], ap, 0) == Added([], 0)
    ensures ap != [] && (ap[0].MarkerA? ==> |ap| > 1) ==>
              Supplied([t], ap) && AddedBy([t], ap, 0).args == [] &&
              AddedBy([t], ap, 0).ret == if Marked(ap) then -1 else -2
  {
    var types := [t, DOLLAR, DOLLAR];
    assert types[1..] == [DOLLAR, DOLLAR] && [t][1..] == [];
  }

  /** One type character, at `k` of the string, with the values from `j` on. */
  lemma AddedStep(types: seq<byte>, k: nat, ap: seq<Vararg>, j: nat, ret: int)
    requires k < |types| && j <= |ap| && Supplied(types[k..], ap[j..]) && !Ends(types[k..])
    ensures var t, a := types[k], AddedBy(types[k..], ap[j..], ret);
            if TakesData(t) then
              j < |ap| &&
              if ap[j].Given? then
                Tag(ap[j].arg) == t && IsSent(ap[j].arg) && Supplied(types[k + 1..], ap[j + 1..]) &&
                a == Behind([ap[j].arg], AddedBy(types[k + 1..], ap[j + 1..], ret))
              else t == LO_SYMBOL && ap[j].MarkerA? && a == Added([], -2)
            else
              Supplied(types[k + 1..], ap[j..]) &&
              a == match Bare(t)
                   case Some(b) => Behind([b], AddedBy(types[k + 1..], ap[j..], ret))
                   case None => AddedBy(types[k + 1..], ap[j..], -1)
  {
    assert types[k..][1..] == types[k + 1..] && types[k..][0] == types[k];
    if j < |ap| {
      assert ap[j..][1..] == ap[j + 1..] && ap[j..][0] == ap[j];
    }
  }

  lemma AddedEnds(types: seq<byte>, ap: seq<Vararg>, ret: int)
    requires Supplied(types, ap)
    ensures Ends(types) ==> AddedBy(types, ap, ret) == Added([], 0)
    ensures types == [] ==>
              ap != [] && (ap[0].MarkerA? ==> |ap| > 1) &&
              AddedBy(types, ap, ret) == Added([], if ap[0].MarkerA? && ap[1].MarkerB? then ret else -2)
  {
  }

  lemma BareIsSent(t: byte)
    requires Bare(t).Some?
    ensures IsSent(Bare(t).value)
  {
  }

  lemma BehindBehind(args: seq<Arg>)
    ensures forall b: Arg, a: Added :: Behind(args, Behind([b], a)) == Behind(args + [b], a)
    ensures forall r :: Behind(args, Added([], r)) == Added(args, r)
  {
    forall b: Arg, a: Added
      ensures Behind(args, Behind([b], a)) == Behind(args + [b], a)
    {
      assert args + ([b] + a.args) == args + [b] + a.args;
    }
  }
}
