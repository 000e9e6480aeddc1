/** More laws of pattern texts: tests, ^ and $ in their contexts, alternatives, groups and
    what is no pattern. */
module RegexContexts {
  import opened RegexSyntax
  import opened RegexParse
  import opened RegexReading
  import opened RegexPatterns

  const BAR: seq<Byte> := [BACKSLASH, '|' as int]
  const OPEN: seq<Byte> := [BACKSLASH, '(' as int]
  const CLOSE: seq<Byte> := [BACKSLASH, ')' as int]

  // ---- Trees that mean the same ----

  lemma SnocMeans(a: Seq, b: Seq, e: Item)
    requires SameSeq(a, b)
    ensures SameSeq(Snoc(a, e), Snoc(b, e))
  {
    hide LangItem;
    forall s: seq<Byte>, i: nat, j: nat ensures Lang(Snoc(a, e), s, i, j) <==> Lang(Snoc(b, e), s, i, j) {
      SnocMeansAt(a, b, e, s, i, j);
      SnocMeansAt(b, a, e, s, i, j);
    }
  }

  lemma SnocMeansAt(a: Seq, b: Seq, e: Item, s: seq<Byte>, i: nat, j: nat)
    requires SameSeq(a, b)
    ensures Lang(Snoc(a, e), s, i, j) ==> Lang(Snoc(b, e), s, i, j)
  {
    hide LangItem;
    if Lang(Snoc(a, e), s, i, j) {
      var m: nat :| Cut(i, m, j) && Lang(a, s, i, m) && LangItem(e, s, m, j);
      assert Lang(b, s, i, m);
    }
  }

  lemma AddMeans(a: Alts, b: Alts, e: Item)
    requires Means(a, b)
    ensures Means(AddLast(a, e), AddLast(b, e))
  {
    hide SameSeq;
    SnocMeans(LastAlt(a), LastAlt(b), e);
  }

  lemma MeansOn(a: Alts, b: Alts, c: Alts)
    requires Means(a, b) && Means(b, c)
    ensures Means(a, c)
  {
    hide Lang;
  }

  lemma MeansBack(a: Alts, b: Alts)
    requires Means(a, b)
    ensures Means(b, a)
  {
    hide Lang;
  }

  // ---- Tests ----

  /** The tests behind a backslash are one more item everywhere. */
  lemma TestRead(w: seq<Byte>, e0: Alts, x: seq<Byte>, op: Byte)
    requires Parse(w) == Ok(e0) && Denotes(x, Test(op)) && x != [] && x[0] == BACKSLASH && !EndsInDollar(LastAlt(e0))
    ensures Parse(w + x) == Ok(AddLast(e0, Test(op)))
  {
    hide Reaches, Denotes, Finish, Parse, ReadOne, EndsInDollar;
    var st := ParseEnds(w);
    FinishIs(st);
    TestAhead(x, op, st, []);
    assert x + [] == x && Follows(w, st, x);
    ReadsOn(w, st, x, [], Add(st, Test(op)));
    assert w + x + [] == w + x;
    EndsParse(w + x, Add(st, Test(op)));
    AddFinishes(st, Test(op));
  }

  lemma TestAhead(x: seq<Byte>, op: Byte, st: Parsing, rest: seq<Byte>)
    requires Denotes(x, Test(op)) && x != [] && x[0] == BACKSLASH
    ensures ReadOne(x + rest, 0, st) == Ok((Add(st, Test(op)), |x|))
  {
    hide Denotes, PostfixRun, BracketFrom, HasAtom, Postfix, IsReference, TestOfEscape, ReadBracket;
    AtomIsOne(x, Test(op));
    assert (x + rest)[0] == x[0] && (x + rest)[1] == x[1];
    assert AddChar(Nothing, x[1], Peek(x, 2)) == Add(Nothing, Chars([x[1]])) by { FirstChar(x[1], Peek(x, 2)); }
  }

  /** ^ is the test where only tests are before it in its alternative, or a newline. */
  lemma CaretRead(w: seq<Byte>, e0: Alts)
    requires Parse(w) == Ok(e0) && !EndsInDollar(LastAlt(e0))
    ensures Parse(w + [CARET]).Ok?
    ensures Means(Parse(w + [CARET]).value,
                  AddLast(e0, if AllTests(LastAlt(e0)) || (w != [] && w[|w| - 1] == NEWLINE) then Test(BEGLINE) else Chars([CARET])))
  {
    hide Reaches, Finish, Parse, ReadOne, EndsInDollar, Means, AddChar, AllTests;
    var st := ParseEnds(w);
    FinishIs(st);
    AtomOrTests(st.top.current);
    var st2, base, c := ReachBeforeCaret(w, 0, Nothing, st, [CARET]);
    BeforeCaret(st, st2, base, c);
    var st3 := CaretHere(w, st2);
    ReachesOne(w + [CARET], |w|, st2, |w| + 1, st3);
    ReachesOn(w + [CARET], 0, Nothing, |w|, st2, |w| + 1, st3);
    EndsParse(w + [CARET], st3);
    var e := if AllTests(LastAlt(e0)) || (w != [] && w[|w| - 1] == NEWLINE) then Test(BEGLINE) else Chars([CARET]);
    AddMeans(Finish(st2.top), e0, e);
    MeansOn(Finish(st3.top), AddLast(Finish(st2.top), e), AddLast(e0, e));
  }

  lemma BeforeCaret(st: Parsing, st2: Parsing, base: Parsing, c: Byte)
    requires st2 == st || (st == AddChar(base, c, 0) && st2 == AddChar(base, c, CARET))
    ensures Means(Finish(st2.top), Finish(st.top)) && HasAtom(st2.top.current) == HasAtom(st.top.current) && st2.outer == st.outer
  {
    hide Means, Finish;
    if st2 == st {
      MeansSelf(Finish(st.top));
    } else {
      CharMeans(base, c, 0);
      CharMeans(base, c, CARET);
      MeansBack(Finish(st.top), AddLast(Finish(base.top), Chars([c])));
      MeansOn(Finish(st2.top), AddLast(Finish(base.top), Chars([c])), Finish(st.top));
      CharHasAtom(base, c, 0);
      CharHasAtom(base, c, CARET);
    }
  }

  lemma CaretHere(w: seq<Byte>, st: Parsing) returns (st': Parsing)
    ensures ReadOne(w + [CARET], |w|, st) == Ok((st', |w| + 1)) && st'.outer == st.outer
    ensures var e := if !HasAtom(st.top.current) || (w != [] && w[|w| - 1] == NEWLINE) then Test(BEGLINE) else Chars([CARET]);
            Means(Finish(st'.top), AddLast(Finish(st.top), e))
  {
    hide Means, Finish, HasAtom, AddChar, PostfixRun, ReadEscape, ReadBracket, EndsLine;
    st' := ReadOne(w + [CARET], |w|, st).value.0;
    CharMeans(st, CARET, 0);
    CharKeepsOuter(st, CARET, 0);
    AddFinishes(st, Test(BEGLINE));
    MeansSelf(AddLast(Finish(st.top), Test(BEGLINE)));
  }

  /** $ is the test at the end of a pattern. */
  lemma DollarRead(w: seq<Byte>, e0: Alts)
    requires Parse(w) == Ok(e0) && !EndsInDollar(LastAlt(e0))
    ensures Parse(w + [DOLLAR]) == Ok(AddLast(e0, Test(ENDLINE)))
  {
    hide Reaches, Finish, Parse, EndsInDollar, AddChar, HasAtom;
    var st := ParseEnds(w);
    FinishIs(st);
    assert [DOLLAR] + [] == [DOLLAR] && w + [DOLLAR] + [] == w + [DOLLAR];
    ReadsOn(w, st, [DOLLAR], [], Add(st, Test(ENDLINE)));
    EndsParse(w + [DOLLAR], Add(st, Test(ENDLINE)));
    AddFinishes(st, Test(ENDLINE));
  }

  /** Before an atom other than a newline it is an ordinary character. */
  lemma DollarOrdinary(w: seq<Byte>, e0: Alts, x: seq<Byte>, e: Item)
    requires Parse(w) == Ok(e0) && !EndsInDollar(LastAlt(e0)) && Denotes(x, e) && IsAtom(e)
    requires x != [] && Fits(AddLast(e0, Chars([DOLLAR])), x) && x[0] != NEWLINE
    ensures Parse(w + [DOLLAR] + x).Ok?
    ensures Means(Parse(w + [DOLLAR] + x).value, AddLast(AddLast(e0, Chars([DOLLAR])), e))
  {
    hide Reaches, Finish, Parse, EndsInDollar, AddChar, Means, Denotes, ReadOne, Fits, HasAtom;
    var st := ParseEnds(w);
    FinishIs(st);
    var st1 := AddChar(st, DOLLAR, x[0]);
    DollarHere(w, st, e0, x, e);
    assert Follows(w, st, [DOLLAR] + x);
    ReadsOn(w, st, [DOLLAR], x, st1);
    CharMeans(st, DOLLAR, x[0]);
    CharKeepsOuter(st, DOLLAR, x[0]);
    assert w + [DOLLAR] + x + [] == w + [DOLLAR] + x;
    var st2 := AtomNext(w + [DOLLAR], st1, x, e, []);
    AtomMeans(st1, e, 0, st2);
    EndsParse(w + [DOLLAR] + x, st2);
    AddMeans(Finish(st1.top), AddLast(e0, Chars([DOLLAR])), e);
    MeansOn(Finish(st2.top), AddLast(Finish(st1.top), e), AddLast(AddLast(e0, Chars([DOLLAR])), e));
  }

  lemma DollarHere(w: seq<Byte>, st: Parsing, e0: Alts, x: seq<Byte>, e: Item)
    requires Reaches(w, 0, Nothing, |w|, st) && st.outer == [] && e0 == Finish(st.top)
    requires Denotes(x, e) && IsAtom(e)
    requires x != [] && Fits(AddLast(e0, Chars([DOLLAR])), x) && x[0] != NEWLINE
    ensures ReadOne([DOLLAR] + x, 0, st) == Ok((AddChar(st, DOLLAR, x[0]), 1))
    ensures !IsPostfix(x[0])
    ensures |x| == 2 && x[0] == BACKSLASH ==> !IsReference(x[1], AddChar(st, DOLLAR, x[0]))
  {
    hide Reaches, HasAtom, PostfixRun, BracketFrom, ReadBracket, ReadEscape, GroupFree, Joins;
    AtomIsOne(x, e);
    AtomsOpenNothing(x, e);
    GroupFreeAdd(e0, Chars([DOLLAR]));
    if |x| == 2 && x[0] == BACKSLASH && '1' as int <= x[1] <= '9' as int {
      FinishGroups(st);
      ReachGroups(w, 0, Nothing, |w|, st);
    }
  }

  lemma GroupFreeAdd(e: Alts, item: Item)
    requires item.Chars?
    ensures GroupFreeAlts(AddLast(e, item)) <==> GroupFreeAlts(e)
    ensures !AllTests(LastAlt(AddLast(e, item)))
  {
    assert GroupFree(Snoc(LastAlt(e), item)) <==> GroupFree(LastAlt(e)) && GroupFreeItem(item);
  }

  /** An atom is no bar and closes no group. */
  lemma AtomsOpenNothing(x: seq<Byte>, e: Item)
    requires x != [] && ReadOne(x, 0, Nothing) == Ok((Add(Nothing, e), |x|)) && IsAtom(e)
    ensures x[0] == BACKSLASH ==> |x| == 2 && x[1] != ')' as int && x[1] != '|' as int
  {
    hide HasAtom, PostfixRun, BracketFrom, ReadBracket, IsReference, TestOfEscape, AddChar;
  }

  /** So it is before operators, which repeat it. */
  lemma DollarRepeated(w: seq<Byte>, e0: Alts, ops: seq<Byte>)
    requires Parse(w) == Ok(e0) && !EndsInDollar(LastAlt(e0)) && Operators(ops)
    ensures Parse(w + [DOLLAR] + ops) == Ok(AddLast(e0, Repeat(SomeOther(ops, PLUS), SomeOther(ops, QUERY), Snoc(Nil, Chars([DOLLAR])))))
  {
    hide Reaches, Finish, Parse, EndsInDollar, AddChar, ReadOne, SomeOther, HasAtom;
    var st := ParseEnds(w);
    FinishIs(st);
    var e := Chars([DOLLAR]);
    Unjoined(st, e, ops);
    DollarOperators(st, ops);
    assert Follows(w, st, [DOLLAR] + ops);
    ReadsOn(w, st, [DOLLAR], ops, Add(st, e));
    OperatorsNext(w + [DOLLAR], Add(st, e), st, e, ops);
  }

  lemma DollarOperators(st: Parsing, ops: seq<Byte>)
    requires Operators(ops)
    ensures ReadOne([DOLLAR] + ops, 0, st) == Ok((AddChar(st, DOLLAR, Peek(ops, 0)), 1))
  {
    hide AddChar, HasAtom, PostfixRun, ReadBracket, ReadEscape;
  }

  /** Tests behind the atom are repeated with it. */
  lemma TestRepeated(w: seq<Byte>, e0: Alts, x: seq<Byte>, e: Item, t: seq<Byte>, op: Byte, ops: seq<Byte>)
    requires Parse(w) == Ok(e0) && Denotes(x, e) && IsSingle(e) && x != [] && Fits(e0, x) && Operators(ops)
    requires Denotes(t, Test(op)) && t != [] && t[0] == BACKSLASH
    ensures Parse(w + x + t + ops)
         == Ok(AddLast(e0, Repeat(SomeOther(ops, PLUS), SomeOther(ops, QUERY), Snoc(Snoc(Nil, e), Test(op)))))
  {
    hide Reaches, Denotes, Fits, Parse, SomeOther, ReadOne, Operators, Finish;
    var st, st' := AtomInContext(w, e0, x, e, t + ops);
    var v, pat := w + x + t, w + x + t + ops;
    assert w + x + (t + ops) == pat;
    TestAhead(t, op, st', ops);
    ReadBehind(w + x, t + ops, 0, st');
    ReachesOne(pat, |w + x|, st', |v|, Add(st', Test(op)));
    assert pat[|v|..] == ops;
    OperatorsSome(ops);
    OperatorsBehindTest(pat, |v|, st, e, op);
    var last := Repeat(SomeOther(ops, PLUS), SomeOther(ops, QUERY), Snoc(Snoc(Nil, e), Test(op)));
    ReachesOne(pat, |v|, Add(st', Test(op)), |pat|, Add(st, last));
    ReachesOn(pat, 0, Nothing, |w + x|, st', |v|, Add(st', Test(op)));
    ReachesOn(pat, 0, Nothing, |v|, Add(st', Test(op)), |pat|, Add(st, last));
    EndsParse(pat, Add(st, last));
    AddFinishes(st, last);
  }

  lemma OperatorsSome(ops: seq<Byte>)
    requires Operators(ops)
    ensures ops != []
  {
  }

  lemma OperatorsBehindTest(pat: seq<Byte>, p: nat, st: Parsing, e: Item, op: Byte)
    requires p < |pat| && Operators(pat[p..]) && IsSingle(e)
    ensures ReadOne(pat, p, Add(Add(st, e), Test(op)))
         == Ok((Add(st, Repeat(SomeOther(pat[p..], PLUS), SomeOther(pat[p..], QUERY), Snoc(Snoc(Nil, e), Test(op)))), |pat|))
  {
    hide PostfixRun, SomeOther, EndsLine, ReadBracket, ReadEscape, AddChar;
    assert forall k :: p <= k < |pat| ==> pat[k] == pat[p..][k - p] && IsPostfix(pat[k]);
    RunOf(pat, p, false, false);
    OperandOfTest(st.top.current, e, op);
  }

  lemma OperandOfTest(init: Seq, e: Item, op: Byte)
    requires IsSingle(e)
    ensures var cur := Snoc(Snoc(init, e), Test(op)); HasAtom(cur) && Operand(cur) == Snoc(Snoc(Nil, e), Test(op)) && BeforeOperand(cur) == init
  {
    assert HasAtom(Snoc(init, e)) && Operand(Snoc(init, e)) == Snoc(Nil, e) && BeforeOperand(Snoc(init, e)) == init;
  }

  /** \| begins one more alternative. */
  lemma BarRead(w: seq<Byte>, e0: Alts)
    requires Parse(w) == Ok(e0)
    ensures Parse(w + BAR) == Ok(More(e0, Nil))
  {
    hide Reaches, Parse, AddChar, HasAtom, PostfixRun, ReadBracket;
    var st := ParseEnds(w);
    assert BAR + [] == BAR && w + BAR + [] == w + BAR;
    assert Peek(w + BAR, |w|) == BACKSLASH && Peek(w + BAR, |w| + 1) == '|' as int;
    ReadsOn(w, st, BAR, [], Bar(st));
    EndsParse(w + BAR, Bar(st));
  }

  // ---- What is no pattern ----

  lemma LoneClose(w: seq<Byte>, e0: Alts)
    requires Parse(w) == Ok(e0)
    ensures Parse(w + CLOSE) == Err(UnmatchedClose)
  {
    hide Reaches, Parse, AddChar, HasAtom, PostfixRun, ReadBracket;
    var st := ParseEnds(w);
    assert Peek(w + CLOSE, |w|) == BACKSLASH && Peek(w + CLOSE, |w| + 1) == ')' as int;
    FailsOn(w, st, CLOSE, UnmatchedClose);
  }

  lemma LoneBackslash(w: seq<Byte>, e0: Alts)
    requires Parse(w) == Ok(e0) && !EndsInDollar(LastAlt(e0))
    ensures Parse(w + [BACKSLASH]) == Err(Invalid)
  {
    hide Reaches, Parse, AddChar, HasAtom, PostfixRun, ReadBracket;
    var st := ParseEnds(w);
    FinishIs(st);
    FailsOn(w, st, [BACKSLASH], Invalid);
  }

  lemma LoneBracket(w: seq<Byte>, e0: Alts)
    requires Parse(w) == Ok(e0) && !EndsInDollar(LastAlt(e0))
    ensures Parse(w + ['[' as int]) == Err(PrematureEnd)
  {
    hide Reaches, Parse, AddChar, HasAtom, PostfixRun, ReadEscape, BracketFrom;
    var st := ParseEnds(w);
    FinishIs(st);
    NoBracket(['[' as int], 1);
    FailsOn(w, st, ['[' as int], PrematureEnd);
  }

  lemma FailsOn(w: seq<Byte>, st: Parsing, x: seq<Byte>, error: Error)
    requires Reaches(w, 0, Nothing, |w|, st) && Follows(w, st, x)
    requires x != [] && x[0] != CARET && ReadOne(x, 0, st) == Err(error)
    ensures Parse(w + x) == Err(error)
  {
    hide ReadOne, Reaches, Follows, HasAtom;
    ReachAhead(w, 0, Nothing, st, x);
    ReadBehind(w, x, 0, st);
    ReachesReads(w + x, 0, Nothing, |w|, st);
  }

  // ---- The same text in another place ----

  /** Where a pattern without groups is read as part of another: inside which expressions,
      in which group, behind which alternatives. */
  datatype Place = Place(outer: seq<Frame>, reg: Byte, before: Finished, regnum: nat)

  function Appended(a: Alts, b: Alts): Alts {
    match b
    case One(only) => More(a, only)
    case More(others, final) => More(Appended(a, others), final)
  }

  function Behind(before: Finished, f: Finished): Finished {
    match before
    case None => f
    case Some(a) => match f case None => before case Some(b) => Some(Appended(a, b))
  }

  function Put(pl: Place, st: Parsing): Parsing {
    Parsing(pl.outer, Frame(pl.reg, Behind(pl.before, st.top.finished), st.top.current), pl.regnum)
  }

  /** No digit refers to a group there. */
  predicate Unreferenced(pl: Place) {
    pl.regnum == 1 || (pl.regnum == 2 && pl.reg == 1 && |pl.outer| == 1)
  }

  lemma UnreferencedDigit(pl: Place, st: Parsing, c: Byte)
    requires Unreferenced(pl)
    ensures !IsReference(c, Put(pl, st))
  {
    if pl.regnum == 2 {
      assert GroupAbove(Put(pl, st), 0) == 1;
    }
  }

  lemma PutChar(pl: Place, st: Parsing, c: Byte, next: Byte)
    ensures AddChar(Put(pl, st), c, next) == Put(pl, AddChar(st, c, next))
  {
  }

  lemma PutAdd(pl: Place, st: Parsing, e: Item)
    ensures Add(Put(pl, st), e) == Put(pl, Add(st, e))
  {
  }

  lemma PutPostfix(pl: Place, st: Parsing, zero: bool, many: bool)
    requires HasAtom(st.top.current)
    ensures Postfix(Put(pl, st), zero, many) == Put(pl, Postfix(st, zero, many))
  {
  }

  lemma PutBar(pl: Place, st: Parsing)
    ensures Bar(Put(pl, st)) == Put(pl, Bar(st))
  {
  }

  lemma ReadThere(pat: seq<Byte>, p: nat, st: Parsing, pl: Place)
    requires p < |pat| && ReadOne(pat, p, st).Ok? && NoGroups(ReadOne(pat, p, st).value.0) && st.regnum == 1 && Unreferenced(pl)
    ensures ReadOne(pat, p, Put(pl, st)) == Ok((Put(pl, ReadOne(pat, p, st).value.0), ReadOne(pat, p, st).value.1))
  {
    hide EndsLine, PostfixRun, BracketFrom, HasAtom, Postfix, AddChar, Put, ReadEscape, Unreferenced, Add, NoGroups;
    var c := pat[p];
    PutSame(pl, st);
    PutAdd(pl, st, Test(ENDLINE));
    PutAdd(pl, st, Test(BEGLINE));
    PutAdd(pl, st, Any);
    PutChar(pl, st, c, Peek(pat, p + 1));
    if IsPostfix(c) && HasAtom(st.top.current) {
      var (zero, many, q) := PostfixRun(pat, p, false, false);
      PutPostfix(pl, st, zero, many);
    } else if c == '[' as int {
      BracketThere(pat, p, st, pl);
    } else if c == BACKSLASH && p + 1 < |pat| {
      EscapeThere(pat, p + 1, st, pl);
    }
  }

  lemma PutSame(pl: Place, st: Parsing)
    ensures Put(pl, st).top.current == st.top.current
  {
  }

  lemma BracketThere(pat: seq<Byte>, p: nat, st: Parsing, pl: Place)
    requires p < |pat| && ReadBracket(pat, p, st).Ok?
    ensures ReadBracket(pat, p, Put(pl, st)) == Ok((Put(pl, ReadBracket(pat, p, st).value.0), ReadBracket(pat, p, st).value.1))
  {
    hide BracketFrom, Trim, Put, Add;
    var inverted := Peek(pat, p + 1) == CARET;
    var first := if inverted then p + 2 else p + 1;
    var (bits, q) := BracketFrom(pat, first, first, seq(32, _ => 0)).value;
    PutAdd(pl, st, CharSet(inverted, Trim(bits)));
  }

  lemma EscapeThere(pat: seq<Byte>, p: nat, st: Parsing, pl: Place)
    requires p < |pat| && ReadEscape(pat, p, st).Ok? && NoGroups(ReadEscape(pat, p, st).value.0) && st.regnum == 1 && Unreferenced(pl)
    ensures ReadEscape(pat, p, Put(pl, st)) == Ok((Put(pl, ReadEscape(pat, p, st).value.0), ReadEscape(pat, p, st).value.1))
  {
    hide AddChar, Put, Unreferenced, Add, NoGroups, TestOfEscape, Bar, IsReference, Open, Close;
    var c := pat[p];
    EscapeGroups(pat, p, st);
    PutChar(pl, st, c, Peek(pat, p + 1));
    PutAdd(pl, st, Word(false));
    PutAdd(pl, st, Word(true));
    PutAdd(pl, st, Test(TestOfEscape(c)));
    PutBar(pl, st);
    UnreferencedDigit(pl, st, c);
  }

  lemma {:induction false} ReachThere(pat: seq<Byte>, p: nat, st: Parsing, q: nat, st': Parsing, pl: Place)
    requires p <= |pat| && Reaches(pat, p, st, q, st') && NoGroups(st') && st'.regnum == 1 && Unreferenced(pl)
    ensures Reaches(pat, p, Put(pl, st), q, Put(pl, st'))
    decreases |pat| - p
  {
    hide ReadOne, NoGroups, Put, Unreferenced;
    if p != q {
      var (st1, p1) := ReadOne(pat, p, st).value;
      ReachGroups(pat, p1, st1, q, st');
      ReachGroups(pat, p, st, q, st');
      ReadThere(pat, p, st, pl);
      ReachThere(pat, p1, st1, q, st', pl);
    }
  }

  lemma {:induction false} ReachBehind(w: seq<Byte>, y: seq<Byte>, p: nat, st: Parsing, q: nat, st': Parsing)
    requires p <= |y| && Reaches(y, p, st, q, st') && (p > 0 || !HasAtom(st.top.current))
    ensures Reaches(w + y, |w| + p, st, |w| + q, st')
    decreases |y| - p
  {
    hide ReadOne, HasAtom;
    if p != q {
      var (st1, p1) := ReadOne(y, p, st).value;
      ReadBehind(w, y, p, st);
      ReachBehind(w, y, p1, st1, q, st');
    }
  }

  /** A text y without groups, read in a place behind v, with rest after it. */
  lemma PartRead(v: seq<Byte>, y: seq<Byte>, f: Alts, rest: seq<Byte>, pl: Place) returns (st: Parsing)
    requires Parse(y) == Ok(f) && GroupFreeAlts(f) && Unreferenced(pl)
    requires rest == [] || (rest[0] == BACKSLASH && |rest| > 1 && (rest[1] == ')' as int || rest[1] == '|' as int))
    ensures NoGroups(st) && Finish(st.top) == f
    ensures Reaches(v + y + rest, |v|, Put(pl, Nothing), |v| + |y|, Put(pl, st))
  {
    hide ReadOne, NoGroups, Put, Unreferenced, Reaches, Finish, HasAtom, Parse;
    st := ParseEnds(y);
    FinishGroups(st);
    ReachGroups(y, 0, Nothing, |y|, st);
    ReachThere(y, 0, Nothing, |y|, st, pl);
    assert rest != [] ==> Peek(y + rest, |y|) == BACKSLASH && Peek(y + rest, |y| + 1) == rest[1];
    assert Follows(y, Put(pl, st), rest);
    ReachAhead(y, 0, Put(pl, Nothing), Put(pl, st), rest);
    PutSame(pl, Nothing);
    assert !HasAtom(Nothing.top.current) by { EmptyReferences([]); }
    ReachBehind(v, y + rest, 0, Put(pl, Nothing), |y|, Put(pl, st));
    assert v + (y + rest) == v + y + rest;
  }

  // ---- Alternatives ----

  lemma {:induction false} AppendedLang(a: Alts, b: Alts, s: seq<Byte>, i: nat, j: nat)
    ensures LangAlts(Appended(a, b), s, i, j) <==> LangAlts(a, s, i, j) || LangAlts(b, s, i, j)
    decreases b
  {
    hide Lang;
    if b.More? {
      AppendedLang(a, b.others, s, i, j);
    }
  }

  lemma AppendedFinish(a: Alts, st: Parsing, reg: Byte)
    ensures Finish(Put(Place([], reg, Some(a), 1), st).top) == Appended(a, Finish(st.top))
  {
  }

  /** Texts with \| between them have the alternatives of the first and then of the second. */
  lemma BarJoins(w: seq<Byte>, e: Alts, y: seq<Byte>, f: Alts)
    requires Parse(w) == Ok(e) && Parse(y) == Ok(f) && GroupFreeAlts(e) && GroupFreeAlts(f)
    ensures Parse(w + BAR + y) == Ok(Appended(e, f))
  {
    hide ReadOne, Reaches, Finish, Parse, Put, NoGroups;
    var st := ParseEnds(w);
    FinishGroups(st);
    ReachGroups(w, 0, Nothing, |w|, st);
    var pl := Place([], st.top.reg, Some(e), 1);
    var sy := PartRead(w + BAR, y, f, [], pl);
    var pat := w + BAR + y;
    assert pat + [] == pat && |w + BAR| == |w| + 2;
    BarHere(w, st, y);
    assert Bar(st) == Put(pl, Nothing) by { BarPuts(st, e); }
    ReachesOn(pat, 0, Nothing, |w| + 2, Bar(st), |pat|, Put(pl, sy));
    PutOuter(pl, sy);
    EndsParse(pat, Put(pl, sy));
    AppendedFinish(e, sy, st.top.reg);
  }

  /** They denote what either denotes. */
  lemma BarMeans(w: seq<Byte>, e: Alts, y: seq<Byte>, f: Alts, s: seq<Byte>, i: nat, j: nat)
    requires Parse(w) == Ok(e) && Parse(y) == Ok(f) && GroupFreeAlts(e) && GroupFreeAlts(f)
    ensures Parse(w + BAR + y).Ok?
    ensures LangAlts(Parse(w + BAR + y).value, s, i, j) <==> LangAlts(e, s, i, j) || LangAlts(f, s, i, j)
  {
    hide LangAlts, Parse;
    BarJoins(w, e, y, f);
    AppendedLang(e, f, s, i, j);
  }

  lemma PutOuter(pl: Place, st: Parsing)
    ensures Put(pl, st).outer == pl.outer
  {
  }

  lemma BarPuts(st: Parsing, e: Alts)
    requires st.outer == [] && st.regnum == 1 && Finish(st.top) == e
    ensures Bar(st) == Put(Place([], st.top.reg, Some(e), 1), Nothing)
  {
  }

  lemma BarHere(w: seq<Byte>, st: Parsing, y: seq<Byte>)
    requires Reaches(w, 0, Nothing, |w|, st)
    ensures Reaches(w + BAR + y, 0, Nothing, |w| + 2, Bar(st))
  {
    hide Reaches, AddChar, HasAtom, PostfixRun, ReadBracket, Bar;
    assert Peek(w + (BAR + y), |w|) == BACKSLASH && Peek(w + (BAR + y), |w| + 1) == '|' as int;
    assert (BAR + y)[0] == BACKSLASH && (BAR + y)[1] == '|' as int;
    ReadsOn(w, st, BAR, y, Bar(st));
  }

  // ---- Groups ----

  lemma OpenHere(w: seq<Byte>, st: Parsing, y: seq<Byte>)
    requires Reaches(w, 0, Nothing, |w|, st) && !EndsInDollar(st.top.current) && st.regnum == 1
    ensures Reaches(w + OPEN + y, 0, Nothing, |w| + 2, Open(st))
  {
    hide Reaches, AddChar, HasAtom, PostfixRun, ReadBracket, Open;
    assert (OPEN + y)[0] == BACKSLASH && (OPEN + y)[1] == '(' as int;
    ReadsOn(w, st, OPEN, y, Open(st));
  }

  lemma CloseHere(v: seq<Byte>, st: Parsing, rest: seq<Byte>)
    requires st.outer != []
    ensures ReadOne(v + CLOSE + rest, |v|, st) == Ok((Close(st), |v| + 2))
  {
    hide AddChar, HasAtom, PostfixRun, ReadBracket, Close;
    var pat := v + CLOSE + rest;
    assert pat[|v|] == BACKSLASH && pat[|v| + 1] == ')' as int;
  }

  /** The group's text is read inside it, and the group is one item behind its opening. */
  lemma GroupInContext(w: seq<Byte>, e0: Alts, y: seq<Byte>, f: Alts, rest: seq<Byte>) returns (st: Parsing)
    requires Parse(w) == Ok(e0) && Parse(y) == Ok(f) && GroupFreeAlts(e0) && GroupFreeAlts(f) && !EndsInDollar(LastAlt(e0))
    ensures st.outer == [] && Finish(st.top) == AddLast(e0, StartMem(1)) && st.regnum == 2
    ensures Reaches(w + OPEN + y + CLOSE + rest, 0, Nothing, |w| + |y| + 4, Add(st, Group(1, f)))
  {
    hide ReadOne, Reaches, Finish, Parse, Put, NoGroups;
    var s0 := ParseEnds(w);
    FinishIs(s0);
    FinishGroups(s0);
    ReachGroups(w, 0, Nothing, |w|, s0);
    var pl := Place(Open(s0).outer, 1, None, 2);
    var rest' := CLOSE + rest;
    var sy := PartRead(w + OPEN, y, f, rest', pl);
    var v, pat := w + OPEN + y, w + OPEN + y + CLOSE + rest;
    assert v + rest' == pat && w + OPEN + (y + rest') == pat;
    OpenHere(w, s0, y + rest');
    assert Open(s0) == Put(pl, Nothing) by { OpenPuts(s0); }
    ReachesOn(pat, 0, Nothing, |w| + 2, Open(s0), |v|, Put(pl, sy));
    PutOuter(pl, sy);
    CloseHere(v, Put(pl, sy), rest);
    st := ClosePuts(s0, sy, f);
    AddFinishes(s0, StartMem(1));
    ReachesOne(pat, |v|, Put(pl, sy), |v| + 2, Add(st, Group(1, f)));
    ReachesOn(pat, 0, Nothing, |v|, Put(pl, sy), |v| + 2, Add(st, Group(1, f)));
  }

  lemma OpenPuts(st: Parsing)
    requires st.outer == [] && st.regnum == 1
    ensures Open(st) == Put(Place(Open(st).outer, 1, None, 2), Nothing)
  {
  }

  lemma ClosePuts(st: Parsing, sy: Parsing, f: Alts) returns (st': Parsing)
    requires st.outer == [] && st.regnum == 1 && Finish(sy.top) == f
    ensures var inside := Put(Place(Open(st).outer, 1, None, 2), sy);
            inside.outer != [] && Close(inside) == Add(st', Group(1, f))
    ensures st'.outer == [] && st'.top == Add(st, StartMem(1)).top && st'.regnum == 2
  {
    st' := Parsing([], Add(st, StartMem(1)).top, 2);
    var inside := Put(Place(Open(st).outer, 1, None, 2), sy);
    assert inside.outer == [Add(st, StartMem(1)).top] && inside.outer[..0] == [];
  }

  /** A text in \( and \) is a group of what it denotes. */
  lemma GroupRead(w: seq<Byte>, e0: Alts, y: seq<Byte>, f: Alts)
    requires Parse(w) == Ok(e0) && Parse(y) == Ok(f) && GroupFreeAlts(e0) && GroupFreeAlts(f) && !EndsInDollar(LastAlt(e0))
    ensures Parse(w + OPEN + y + CLOSE) == Ok(AddLast(AddLast(e0, StartMem(1)), Group(1, f)))
  {
    hide Reaches, Finish, Parse;
    var st := GroupInContext(w, e0, y, f, []);
    var pat := w + OPEN + y + CLOSE;
    assert pat + [] == pat;
    EndsParse(pat, Add(st, Group(1, f)));
    AddFinishes(st, Group(1, f));
  }

  /** Operators behind it repeat the group. */
  lemma GroupRepeated(w: seq<Byte>, e0: Alts, y: seq<Byte>, f: Alts, ops: seq<Byte>)
    requires Parse(w) == Ok(e0) && Parse(y) == Ok(f) && GroupFreeAlts(e0) && GroupFreeAlts(f) && !EndsInDollar(LastAlt(e0))
    requires Operators(ops)
    ensures Parse(w + OPEN + y + CLOSE + ops)
         == Ok(AddLast(AddLast(e0, StartMem(1)), Repeat(SomeOther(ops, PLUS), SomeOther(ops, QUERY), Snoc(Nil, Group(1, f)))))
  {
    hide Reaches, Finish, Parse, SomeOther, Operators;
    var st := GroupInContext(w, e0, y, f, ops);
    OperatorsNext(w + OPEN + y + CLOSE, Add(st, Group(1, f)), st, Group(1, f), ops);
  }

  /** Behind a group its number is a back-reference, which is not modelled. */
  lemma ReferenceBehind(w: seq<Byte>, e0: Alts, y: seq<Byte>, f: Alts)
    requires Parse(w) == Ok(e0) && Parse(y) == Ok(f) && GroupFreeAlts(e0) && GroupFreeAlts(f) && !EndsInDollar(LastAlt(e0))
    ensures Parse(w + OPEN + y + CLOSE + [BACKSLASH, '1' as int]) == Err(Unmodelled)
  {
    hide Reaches, Finish, HasAtom, AddChar, PostfixRun, ReadBracket;
    var st := GroupInContext(w, e0, y, f, [BACKSLASH, '1' as int]);
    var v := w + OPEN + y + CLOSE;
    var pat := v + [BACKSLASH, '1' as int];
    assert pat[|v|] == BACKSLASH && pat[|v| + 1] == '1' as int;
    ReachesReads(pat, 0, Nothing, |v|, Add(st, Group(1, f)));
  }
}
