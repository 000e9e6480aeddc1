/** Reading a pattern looks little ahead and behind: what has been read of a pattern stays
    the same when more text follows or precedes it. */
module RegexReading {
  import opened RegexSyntax
  import opened RegexParse

  // ---- The constructs of a pattern one after the other ----

  /** Reading from p in st comes by q in st'. */
  ghost predicate Reaches(pat: seq<Byte>, p: nat, st: Parsing, q: nat, st': Parsing)
    requires p <= |pat|
    decreases |pat| - p
  {
    if p == q then st == st'
    else
      p < q && p < |pat| && var r := ReadOne(pat, p, st); r.Ok? && Reaches(pat, r.value.1, r.value.0, q, st')
  }

  lemma {:induction false} ReachesOn(pat: seq<Byte>, p: nat, st: Parsing, q: nat, st1: Parsing, r: nat, st2: Parsing)
    requires p <= |pat| && q <= |pat| && Reaches(pat, p, st, q, st1) && Reaches(pat, q, st1, r, st2) && q <= r
    ensures Reaches(pat, p, st, r, st2)
    decreases |pat| - p
  {
    hide ReadOne;
    if p != q {
      var (st', p') := ReadOne(pat, p, st).value;
      ReachesOn(pat, p', st', q, st1, r, st2);
    }
  }

  lemma {:induction false} ReachesReads(pat: seq<Byte>, p: nat, st: Parsing, q: nat, st': Parsing)
    requires p <= |pat| && q <= |pat| && Reaches(pat, p, st, q, st')
    ensures ReadFrom(pat, p, st) == ReadFrom(pat, q, st')
    decreases |pat| - p
  {
    hide ReadOne;
    if p != q {
      var (st1, p1) := ReadOne(pat, p, st).value;
      ReachesReads(pat, p1, st1, q, st');
    }
  }

  lemma {:induction false} ReadEnds(pat: seq<Byte>, p: nat, st: Parsing) returns (st': Parsing)
    requires p <= |pat| && ReadFrom(pat, p, st).Ok?
    ensures Reaches(pat, p, st, |pat|, st') && st'.outer == [] && ReadFrom(pat, p, st).value == Finish(st'.top)
    decreases |pat| - p
  {
    hide ReadOne, Finish;
    if p == |pat| {
      st' := st;
    } else {
      var (st1, p1) := ReadOne(pat, p, st).value;
      st' := ReadEnds(pat, p1, st1);
    }
  }

  /** What has been read at the end of a pattern. */
  lemma ParseEnds(pat: seq<Byte>) returns (st: Parsing)
    requires Parse(pat).Ok?
    ensures Reaches(pat, 0, Nothing, |pat|, st) && st.outer == [] && Parse(pat).value == Finish(st.top)
  {
    st := ReadEnds(pat, 0, Nothing);
  }

  lemma EndsParse(pat: seq<Byte>, st: Parsing)
    requires Reaches(pat, 0, Nothing, |pat|, st) && st.outer == []
    ensures Parse(pat) == Ok(Finish(st.top))
  {
    ReachesReads(pat, 0, Nothing, |pat|, st);
  }

  // ---- More text behind ----

  /** The text does not begin with what changes the reading of a character before it. */
  predicate Calm(rest: seq<Byte>) {
    rest == [] || (!IsPostfix(rest[0]) && rest[0] != '^' as int)
  }

  lemma PeekAhead(w: seq<Byte>, rest: seq<Byte>)
    ensures forall i :: i < |w| ==> Peek(w + rest, i) == Peek(w, i)
    ensures Peek(w + rest, |w|) == Peek(rest, 0)
  {
  }

  lemma {:induction false} RunAhead(w: seq<Byte>, p: nat, zero: bool, many: bool, rest: seq<Byte>)
    requires p <= |w| && (PostfixRun(w, p, zero, many).2 == |w| && rest != [] ==> !IsPostfix(rest[0]))
    ensures PostfixRun(w + rest, p, zero, many) == PostfixRun(w, p, zero, many)
    decreases |w| - p
  {
    if p < |w| && IsPostfix(w[p]) {
      RunAhead(w, p + 1, zero || w[p] != '+' as int, many || w[p] != '?' as int, rest);
    }
  }

  lemma {:induction false} BracketAhead(w: seq<Byte>, first: nat, p: nat, bits: seq<Byte>, rest: seq<Byte>)
    requires p <= |w| && |bits| == 32 && BracketFrom(w, first, p, bits).Ok?
    ensures BracketFrom(w + rest, first, p, bits) == BracketFrom(w, first, p, bits)
    decreases |w| - p
  {
    hide SetRange, RangeAt, OrBit;
    if !(w[p] == ']' as int && p != first) {
      BracketMoves(w, first, p, bits);
      RangeAhead(w, first, p, bits, rest);
      if RangeAt(w, p + 1) {
        BracketAhead(w, first, p + 3, SetRange(bits, w[p], w[p + 2]), rest);
      } else {
        BracketAhead(w, first, p + 1, SetBit(bits, w[p]), rest);
      }
    }
  }

  /** The closing bracket is within what has been seen. */
  lemma RangeAhead(w: seq<Byte>, first: nat, p: nat, bits: seq<Byte>, rest: seq<Byte>)
    requires p < |w| && |bits| == 32 && BracketFrom(w, first, p, bits).Ok? && !(w[p] == ']' as int && p != first)
    ensures RangeAt(w + rest, p + 1) == RangeAt(w, p + 1)
  {
    PeekAhead(w, rest);
    if p + 1 < |w| && w[p + 1] == '-' as int && p + 2 == |w| {
      assert false;
    }
  }

  lemma CharAhead(w: seq<Byte>, p: nat, st: Parsing, c: Byte, rest: seq<Byte>)
    requires p < |w| && (p + 1 == |w| ==> Calm(rest))
    ensures AddChar(st, c, Peek(w + rest, p + 1)) == AddChar(st, c, Peek(w, p + 1))
  {
    PeekAhead(w, rest);
  }

  lemma LineAhead(w: seq<Byte>, p: nat, rest: seq<Byte>)
    requires p < |w| && !(p + 1 == |w| && w[p] == '\\' as int)
    ensures EndsLine(w + rest, p) == EndsLine(w, p)
  {
    PeekAhead(w, rest);
  }

  /** A $ at the end of w needs a rest before which it ends a line. */
  predicate Undisturbed(w: seq<Byte>, p: nat, rest: seq<Byte>)
    requires p < |w|
  {
    w[p] == '$' as int ==>
      && (p + 1 == |w| ==> EndsLine(w + rest, |w|))
      && !(p + 2 == |w| && w[p + 1] == '\\' as int)
  }

  lemma ReadAhead(w: seq<Byte>, p: nat, st: Parsing, rest: seq<Byte>)
    requires p < |w| && ReadOne(w, p, st).Ok? && Undisturbed(w, p, rest)
    requires var (st', q) := ReadOne(w, p, st).value; q == |w| && HasAtom(st'.top.current) ==> Calm(rest)
    ensures ReadOne(w + rest, p, st) == ReadOne(w, p, st)
  {
    hide EndsLine, AddChar, PostfixRun, BracketFrom, HasAtom, Postfix, ReadEscape, ReadBracket;
    var pat := w + rest;
    var c := w[p];
    assert pat[p] == c && Peek(pat, p - 1) == Peek(w, p - 1);
    if c == '$' as int {
      DollarAhead(w, p, rest);
    }
    CharHasAtom(st, c, Peek(w, p + 1));
    if c == '$' as int && EndsLine(w, p + 1) {
    } else if c == '^' as int && (!HasAtom(st.top.current) || Peek(w, p - 1) == NEWLINE) {
    } else if IsPostfix(c) && HasAtom(st.top.current) {
      var (zero, many, q) := PostfixRun(w, p, false, false);
      RepeatHasAtom(st, zero, many);
      RunAhead(w, p, false, false, rest);
    } else if c == '.' as int {
    } else if c == '[' as int {
      ReadBracketAhead(w, p, st, rest);
    } else if c == '\\' as int {
      ReadEscapeAhead(w, p + 1, st, rest);
    } else {
      CharAhead(w, p, st, c, rest);
    }
  }

  lemma CharHasAtom(st: Parsing, c: Byte, next: Byte)
    ensures HasAtom(AddChar(st, c, next).top.current)
  {
  }

  lemma RepeatHasAtom(st: Parsing, zero: bool, many: bool)
    requires HasAtom(st.top.current)
    ensures HasAtom(Postfix(st, zero, many).top.current)
  {
  }

  lemma DollarAhead(w: seq<Byte>, p: nat, rest: seq<Byte>)
    requires p < |w| && w[p] == '$' as int && Undisturbed(w, p, rest)
    ensures EndsLine(w + rest, p + 1) == EndsLine(w, p + 1)
  {
    if p + 1 < |w| {
      LineAhead(w, p + 1, rest);
    }
  }

  lemma ReadBracketAhead(w: seq<Byte>, p: nat, st: Parsing, rest: seq<Byte>)
    requires p < |w| && ReadBracket(w, p, st).Ok?
    ensures ReadBracket(w + rest, p, st) == ReadBracket(w, p, st)
  {
    hide BracketFrom, Trim;
    PeekAhead(w, rest);
    if p + 1 < |w| {
      var first := if Peek(w, p + 1) == '^' as int then p + 2 else p + 1;
      BracketAhead(w, first, first, seq(32, _ => 0), rest);
    } else {
      NoBracket(w, p + 1);
    }
  }

  lemma NoBracket(w: seq<Byte>, p: nat)
    requires p == |w|
    ensures BracketFrom(w, p, p, seq(32, _ => 0)) == Err(PrematureEnd)
  {
  }

  lemma ReadEscapeAhead(w: seq<Byte>, p: nat, st: Parsing, rest: seq<Byte>)
    requires p < |w| && ReadEscape(w, p, st).Ok?
    requires var (st', q) := ReadEscape(w, p, st).value; q == |w| && HasAtom(st'.top.current) ==> Calm(rest)
    ensures ReadEscape(w + rest, p, st) == ReadEscape(w, p, st)
  {
    hide AddChar, IsReference, TestOfEscape, Open, Close, Bar, HasAtom, Calm;
    CharHasAtom(st, w[p], Peek(w, p + 1));
    if p + 1 < |w| || Calm(rest) {
      CharAhead(w, p, st, w[p], rest);
    }
  }

  /** A rest that leaves the reading of w in st as it is: behind an atom it begins neither
      with an operator nor with ^, and if w ends in a test for the end of a line, the rest
      keeps it one. */
  predicate Follows(w: seq<Byte>, st: Parsing, rest: seq<Byte>) {
    (HasAtom(st.top.current) ==> Calm(rest)) && (EndsInDollar(st.top.current) ==> EndsLine(w + rest, |w|))
  }

  predicate EndsInDollar(e: Seq) {
    e.Snoc? && e.last == Test(ENDLINE)
  }

  lemma {:induction false} ReachAhead(w: seq<Byte>, p: nat, st: Parsing, st': Parsing, rest: seq<Byte>)
    requires p <= |w| && Reaches(w, p, st, |w|, st') && Follows(w, st', rest)
    ensures Reaches(w + rest, p, st, |w|, st')
    decreases |w| - p
  {
    hide ReadOne, EndsLine, EndsInDollar, Calm, HasAtom;
    if p < |w| {
      var (st1, p1) := ReadOne(w, p, st).value;
      DollarFollows(w, p, st, st', rest);
      ReadAhead(w, p, st, rest);
      ReachAhead(w, p1, st1, st', rest);
    }
  }

  lemma DollarFollows(w: seq<Byte>, p: nat, st: Parsing, st': Parsing, rest: seq<Byte>)
    requires p < |w| && Reaches(w, p, st, |w|, st') && (EndsInDollar(st'.top.current) ==> EndsLine(w + rest, |w|))
    ensures Undisturbed(w, p, rest)
  {
    hide AddChar, PostfixRun, BracketFrom, HasAtom, Postfix, ReadEscape, ReadBracket, Calm;
    if w[p] == '$' as int {
      if p + 1 == |w| {
        assert EndsLine(w, p + 1);
        assert ReadOne(w, p, st) == Ok((Add(st, Test(ENDLINE)), p + 1));
        assert st' == Add(st, Test(ENDLINE));
      } else if p + 2 == |w| && w[p + 1] == '\\' as int {
        assert false;
      }
    }
  }

  // ---- A caret behind ----

  /** Before a ^ the last character read does not join the string before it. */
  lemma ReadBeforeCaret(w: seq<Byte>, p: nat, st: Parsing, rest: seq<Byte>) returns (c: Byte)
    requires p < |w| && ReadOne(w, p, st).Ok? && ReadOne(w, p, st).value.1 == |w|
    requires rest != [] && rest[0] == '^' as int && Undisturbed(w, p, rest)
    ensures var st' := ReadOne(w, p, st).value.0;
      || ReadOne(w + rest, p, st) == ReadOne(w, p, st)
      || (st' == AddChar(st, c, 0) && ReadOne(w + rest, p, st) == Ok((AddChar(st, c, '^' as int), |w|)))
  {
    hide EndsLine, AddChar, PostfixRun, BracketFrom, HasAtom, Postfix, ReadBracket, IsReference, TestOfEscape, Open, Close, Bar;
    var pat := w + rest;
    assert pat[p] == w[p] && Peek(pat, p - 1) == Peek(w, p - 1);
    PeekAhead(w, rest);
    c := if w[p] == '\\' as int && p + 1 < |w| then w[p + 1] else w[p];
    if w[p] == '$' as int {
      DollarAhead(w, p, rest);
    } else if IsPostfix(w[p]) && HasAtom(st.top.current) {
      RunAhead(w, p, false, false, rest);
    } else if w[p] == '[' as int {
      ReadBracketAhead(w, p, st, rest);
    } else if w[p] == '\\' as int {
      assert pat[p + 1] == w[p + 1];
    }
  }

  lemma {:induction false} ReachBeforeCaret(w: seq<Byte>, p: nat, st: Parsing, st': Parsing, rest: seq<Byte>)
      returns (st2: Parsing, base: Parsing, c: Byte)
    requires p <= |w| && Reaches(w, p, st, |w|, st') && !EndsInDollar(st'.top.current)
    requires rest != [] && rest[0] == '^' as int
    ensures Reaches(w + rest, p, st, |w|, st2)
    ensures st2 == st' || (st' == AddChar(base, c, 0) && st2 == AddChar(base, c, '^' as int))
    decreases |w| - p
  {
    hide ReadOne, EndsLine, EndsInDollar, HasAtom, AddChar;
    base, c := st, 0;
    if p == |w| {
      st2 := st';
    } else {
      var (st1, p1) := ReadOne(w, p, st).value;
      DollarFollows(w, p, st, st', rest);
      if p1 < |w| {
        ReadAhead(w, p, st, rest);
        st2, base, c := ReachBeforeCaret(w, p1, st1, st', rest);
      } else {
        c := ReadBeforeCaret(w, p, st, rest);
        st2 := ReadOne(w + rest, p, st).value.0;
      }
    }
  }

  // ---- More text before ----

  function Later<T>(r: Result<(T, nat)>, n: nat): Result<(T, nat)> {
    match r
    case Err(error) => Err(error)
    case Ok((x, q)) => Ok((x, n + q))
  }

  lemma PeekBehind(w: seq<Byte>, y: seq<Byte>)
    ensures forall i :: 0 <= i - |w| ==> Peek(w + y, i) == Peek(y, i - |w|)
  {
  }

  lemma {:induction false} RunBehind(w: seq<Byte>, y: seq<Byte>, p: nat, zero: bool, many: bool)
    requires p <= |y|
    ensures var (z, m, q) := PostfixRun(y, p, zero, many); PostfixRun(w + y, |w| + p, zero, many) == (z, m, |w| + q)
    decreases |y| - p
  {
    assert p < |y| ==> (w + y)[|w| + p] == y[p];
    if p < |y| && IsPostfix(y[p]) {
      RunBehind(w, y, p + 1, zero || y[p] != '+' as int, many || y[p] != '?' as int);
    }
  }

  lemma {:induction false} BracketBehind(w: seq<Byte>, y: seq<Byte>, first: nat, p: nat, bits: seq<Byte>)
    requires p <= |y| && |bits| == 32
    ensures BracketFrom(w + y, |w| + first, |w| + p, bits) == Later(BracketFrom(y, first, p, bits), |w|)
    decreases |y| - p
  {
    hide SetRange, OrBit;
    if p < |y| && !(y[p] == ']' as int && p != first) {
      PeekBehind(w, y);
      assert (w + y)[|w| + p] == y[p];
      assert RangeAt(w + y, |w| + p + 1) == RangeAt(y, p + 1);
      if RangeAt(y, p + 1) {
        if p + 2 < |y| {
          assert (w + y)[|w| + p + 2] == y[p + 2];
          BracketBehind(w, y, first, p + 3, SetRange(bits, y[p], y[p + 2]));
        }
      } else {
        BracketBehind(w, y, first, p + 1, SetBit(bits, y[p]));
      }
    }
  }

  lemma ReadBracketBehind(w: seq<Byte>, y: seq<Byte>, p: nat, st: Parsing)
    requires p < |y|
    ensures ReadBracket(w + y, |w| + p, st) == Later(ReadBracket(y, p, st), |w|)
  {
    hide BracketFrom, Trim;
    PeekBehind(w, y);
    if p + 1 < |y| {
      var first := if Peek(y, p + 1) == '^' as int then p + 2 else p + 1;
      BracketBehind(w, y, first, first, seq(32, _ => 0));
    } else {
      NoBracket(y, p + 1);
      NoBracket(w + y, |w| + p + 1);
    }
  }

  lemma ReadEscapeBehind(w: seq<Byte>, y: seq<Byte>, p: nat, st: Parsing)
    requires p < |y|
    ensures ReadEscape(w + y, |w| + p, st) == Later(ReadEscape(y, p, st), |w|)
  {
    hide AddChar, IsReference, TestOfEscape, Open, Close, Bar;
    PeekBehind(w, y);
    assert (w + y)[|w| + p] == y[p];
  }

  /** Only ^ looks at the character before it, and only behind an atom. */
  lemma ReadBehind(w: seq<Byte>, y: seq<Byte>, p: nat, st: Parsing)
    requires p < |y| && (p > 0 || y[0] != '^' as int || !HasAtom(st.top.current))
    ensures ReadOne(w + y, |w| + p, st) == Later(ReadOne(y, p, st), |w|)
  {
    hide EndsLine, AddChar, PostfixRun, BracketFrom, HasAtom, Postfix, ReadEscape, ReadBracket;
    PeekBehind(w, y);
    var c := y[p];
    assert (w + y)[|w| + p] == c;
    LineBehind(w, y, p + 1);
    RunBehind(w, y, p, false, false);
    PostfixRunMoves(y, p, false, false);
    if c == '[' as int {
      ReadBracketBehind(w, y, p, st);
    } else if c == '\\' as int && p + 1 < |y| {
      ReadEscapeBehind(w, y, p + 1, st);
    }
  }

  lemma LineBehind(w: seq<Byte>, y: seq<Byte>, p: nat)
    ensures EndsLine(w + y, |w| + p) == EndsLine(y, p)
  {
    PeekBehind(w, y);
  }

  // ---- How much has been read ----

  function WeightItem(e: Item): nat {
    match e
    case Chars(chars) => |chars|
    case Group(_, alts) => 1 + WeightAlts(alts)
    case Repeat(_, _, body) => 1 + Weight(body)
    case _ => 1
  }

  function Weight(e: Seq): nat {
    match e
    case Nil => 0
    case Snoc(init, last) => Weight(init) + WeightItem(last)
  }

  function WeightAlts(e: Alts): nat {
    match e
    case One(only) => Weight(only)
    case More(others, final) => WeightAlts(others) + 1 + Weight(final)
  }

  function WeightFrame(f: Frame): nat {
    Weight(f.current) + match f.finished case None => 0 case Some(alts) => 1 + WeightAlts(alts)
  }

  function WeightOuter(outer: seq<Frame>): nat {
    if outer == [] then 0 else WeightOuter(outer[..|outer| - 1]) + WeightFrame(outer[|outer| - 1])
  }

  function WeightOf(st: Parsing): nat {
    WeightOuter(st.outer) + WeightFrame(st.top)
  }

  lemma {:induction false} OperandWeight(e: Seq)
    requires HasAtom(e)
    ensures Weight(BeforeOperand(e)) + Weight(Operand(e)) == Weight(e)
  {
    if e.last.Test? || e.last.StartMem? {
      OperandWeight(e.init);
    } else {
      assert Weight(Snoc(Nil, e.last)) == WeightItem(e.last);
    }
  }

  lemma AddWeighs(st: Parsing, e: Item)
    ensures WeightOf(Add(st, e)) == WeightOf(st) + WeightItem(e)
  {
  }

  lemma CharWeighs(st: Parsing, c: Byte, next: Byte)
    ensures WeightOf(AddChar(st, c, next)) == WeightOf(st) + 1
  {
    hide WeightOuter;
    var e := st.top.current;
    if Joins(e, next) {
      SnocWeighs(e.init, e.last.chars);
      SnocWeighs(e.init, e.last.chars + [c]);
    } else {
      SnocWeighs(e, [c]);
    }
  }

  lemma SnocWeighs(init: Seq, chars: seq<Byte>)
    ensures Weight(Snoc(init, Chars(chars))) == Weight(init) + |chars|
  {
  }

  lemma PostfixWeighs(st: Parsing, zero: bool, many: bool)
    requires HasAtom(st.top.current)
    ensures WeightOf(Postfix(st, zero, many)) == WeightOf(st) + 1
  {
    hide WeightOuter, Operand, BeforeOperand;
    OperandWeight(st.top.current);
    RepeatWeighs(zero, many, Operand(st.top.current));
  }

  lemma RepeatWeighs(zero: bool, many: bool, body: Seq)
    ensures WeightItem(Repeat(zero, many, body)) == 1 + Weight(body)
  {
  }

  lemma FinishWeighs(f: Frame)
    ensures WeightAlts(Finish(f)) == WeightFrame(f)
  {
  }

  lemma OpenWeighs(st: Parsing)
    requires st.regnum <= MAX_GROUPS
    ensures WeightOf(Open(st)) == WeightOf(st) + 1
  {
    var outer := Open(st).outer;
    assert outer[..|outer| - 1] == st.outer;
    AddWeighs(st, StartMem(st.regnum));
    assert WeightFrame(Frame(st.regnum, None, Nil)) == 0;
  }

  lemma BarWeighs(st: Parsing)
    ensures WeightOf(Bar(st)) == WeightOf(st) + 1
  {
    FinishWeighs(st.top);
  }

  lemma CloseWeighs(st: Parsing)
    requires st.outer != []
    ensures WeightOf(Close(st)) == WeightOf(st) + 1
  {
    hide Finish;
    FinishWeighs(st.top);
    GroupWeighs(st.top.reg, Finish(st.top));
  }

  lemma GroupWeighs(reg: Byte, alts: Alts)
    ensures WeightItem(Group(reg, alts)) == 1 + WeightAlts(alts)
  {
  }

  /** Every construct weighs one. */
  lemma ReadWeighs(pat: seq<Byte>, p: nat, st: Parsing)
    requires p < |pat| && ReadOne(pat, p, st).Ok?
    ensures WeightOf(ReadOne(pat, p, st).value.0) == WeightOf(st) + 1
  {
    hide EndsLine, AddChar, PostfixRun, BracketFrom, HasAtom, Postfix, WeightOf, IsReference, TestOfEscape, Open, Close, Bar, Add;
    var c := pat[p];
    CharWeighs(st, c, Peek(pat, p + 1));
    AddWeighs(st, Test(ENDLINE));
    AddWeighs(st, Test(BEGLINE));
    AddWeighs(st, Any);
    if IsPostfix(c) && HasAtom(st.top.current) {
      var (zero, many, q) := PostfixRun(pat, p, false, false);
      PostfixWeighs(st, zero, many);
    } else if c == '[' as int {
      BracketWeighs(pat, p, st);
    } else if c == '\\' as int && p + 1 < |pat| {
      EscapeWeighs(pat, p + 1, st);
    }
  }

  lemma BracketWeighs(pat: seq<Byte>, p: nat, st: Parsing)
    requires p < |pat| && ReadBracket(pat, p, st).Ok?
    ensures WeightOf(ReadBracket(pat, p, st).value.0) == WeightOf(st) + 1
  {
    hide BracketFrom, Trim, WeightOf;
    var inverted := Peek(pat, p + 1) == '^' as int;
    var first := if inverted then p + 2 else p + 1;
    var (bits, q) := BracketFrom(pat, first, first, seq(32, _ => 0)).value;
    AddWeighs(st, CharSet(inverted, Trim(bits)));
  }

  lemma EscapeWeighs(pat: seq<Byte>, p: nat, st: Parsing)
    requires p < |pat| && ReadEscape(pat, p, st).Ok?
    ensures WeightOf(ReadEscape(pat, p, st).value.0) == WeightOf(st) + 1
  {
    hide AddChar, WeightOf, IsReference, TestOfEscape, Open, Close, Bar, Add;
    var c := pat[p];
    CharWeighs(st, c, Peek(pat, p + 1));
    AddWeighs(st, Word(false));
    AddWeighs(st, Word(true));
    AddWeighs(st, Test(TestOfEscape(c)));
    BarWeighs(st);
    if c == '(' as int {
      OpenWeighs(st);
    } else if c == ')' as int {
      CloseWeighs(st);
    }
  }

  lemma {:induction false} ReachWeighs(pat: seq<Byte>, p: nat, st: Parsing, q: nat, st': Parsing)
    requires p <= |pat| && Reaches(pat, p, st, q, st')
    ensures WeightOf(st') >= WeightOf(st) && (p < q ==> WeightOf(st') > WeightOf(st))
    decreases |pat| - p
  {
    hide ReadOne, WeightOf;
    if p != q {
      var (st1, p1) := ReadOne(pat, p, st).value;
      ReadWeighs(pat, p, st);
      ReachWeighs(pat, p1, st1, q, st');
    }
  }

  // ---- A text that is one atom ----

  /** Consumes one character. */
  predicate IsAtom(e: Item) {
    IsSingle(e) || (e.Chars? && |e.chars| == 1)
  }

  /** The pattern x is the item e and nothing else. */
  predicate Denotes(x: seq<Byte>, e: Item) {
    Parse(x) == Ok(One(Snoc(Nil, e)))
  }

  lemma AtomWeighs(e: Item)
    requires IsAtom(e) || e.Test?
    ensures Weight(Snoc(Nil, e)) == 1
  {
    assert Weight(Nil) == 0;
  }

  /** It has been read as one construct. */
  lemma AtomIsOne(x: seq<Byte>, e: Item)
    requires Denotes(x, e) && (IsAtom(e) || e.Test?)
    ensures x != [] && ReadOne(x, 0, Nothing) == Ok((Add(Nothing, e), |x|))
  {
    hide ReadOne, Weight, WeightOuter, ReadFrom;
    var st := ParseEnds(x);
    AtomWeighs(e);
    NothingWeighs();
    NothingRead(st, e);
    assert x != [];
    var (st1, p1) := ReadOne(x, 0, Nothing).value;
    ReadWeighs(x, 0, Nothing);
    ReachWeighs(x, p1, st1, |x|, st);
    FirstRead(x);
  }

  lemma FirstRead(x: seq<Byte>)
    requires x != [] && ReadOne(x, 0, Nothing).Ok? && ReadOne(x, 0, Nothing).value.0.outer == []
    ensures var st := ReadOne(x, 0, Nothing).value.0; st.regnum == 1 && st.top.reg == 0
  {
    hide EndsLine, PostfixRun, BracketFrom, IsReference, TestOfEscape;
  }

  lemma NothingWeighs()
    ensures WeightOf(Nothing) == 0
  {
  }

  /** What has been read when one item is the result. */
  lemma NothingRead(st: Parsing, e: Item)
    requires st.outer == [] && Finish(st.top) == One(Snoc(Nil, e))
    ensures st.top.finished == None && st.top.current == Snoc(Nil, e)
    ensures WeightOf(st) == Weight(Snoc(Nil, e))
  {
  }

  // ---- No groups in the end, none on the way ----

  predicate NoGroups(st: Parsing) {
    && st.outer == [] && GroupFree(st.top.current)
    && match st.top.finished case None => true case Some(alts) => GroupFreeAlts(alts)
  }

  lemma {:induction false} OperandGroups(e: Seq)
    requires HasAtom(e)
    ensures GroupFree(e) <==> GroupFree(BeforeOperand(e)) && GroupFree(Operand(e))
  {
    if e.last.Test? || e.last.StartMem? {
      OperandGroups(e.init);
    } else {
      assert GroupFree(Snoc(Nil, e.last)) <==> GroupFreeItem(e.last);
    }
  }

  lemma PostfixGroups(st: Parsing, zero: bool, many: bool)
    requires HasAtom(st.top.current) && NoGroups(Postfix(st, zero, many))
    ensures NoGroups(st)
  {
    hide Operand, BeforeOperand;
    OperandGroups(st.top.current);
    RepeatGroups(BeforeOperand(st.top.current), zero, many, Operand(st.top.current));
  }

  lemma RepeatGroups(init: Seq, zero: bool, many: bool, body: Seq)
    ensures GroupFree(Snoc(init, Repeat(zero, many, body))) <==> GroupFree(init) && GroupFree(body)
  {
  }

  lemma CharGroups(st: Parsing, c: Byte, next: Byte)
    requires NoGroups(AddChar(st, c, next))
    ensures NoGroups(st)
  {
  }

  lemma ReadGroups(pat: seq<Byte>, p: nat, st: Parsing)
    requires p < |pat| && ReadOne(pat, p, st).Ok? && NoGroups(ReadOne(pat, p, st).value.0)
    ensures var st' := ReadOne(pat, p, st).value.0; NoGroups(st) && st'.regnum == st.regnum && st'.top.reg == st.top.reg
  {
    hide EndsLine, PostfixRun, BracketFrom, HasAtom, Postfix, AddChar, ReadEscape;
    var c := pat[p];
    if IsPostfix(c) && HasAtom(st.top.current) {
      var (zero, many, q) := PostfixRun(pat, p, false, false);
      if ReadOne(pat, p, st).value.0 == Postfix(st, zero, many) {
        PostfixGroups(st, zero, many);
        PostfixKeeps(st, zero, many);
      }
    } else if c == '\\' as int && p + 1 < |pat| {
      EscapeGroups(pat, p + 1, st);
    }
    CharKeeps(st, c, Peek(pat, p + 1));
    if NoGroups(AddChar(st, c, Peek(pat, p + 1))) {
      CharGroups(st, c, Peek(pat, p + 1));
    }
  }

  lemma PostfixKeeps(st: Parsing, zero: bool, many: bool)
    requires HasAtom(st.top.current)
    ensures var st' := Postfix(st, zero, many); st'.regnum == st.regnum && st'.top.reg == st.top.reg
  {
  }

  lemma CharKeeps(st: Parsing, c: Byte, next: Byte)
    ensures var st' := AddChar(st, c, next); st'.regnum == st.regnum && st'.top.reg == st.top.reg
  {
  }

  lemma CloseHasGroup(st: Parsing)
    requires st.outer != []
    ensures !NoGroups(Close(st))
  {
    hide Finish;
    var st' := Close(st);
    assert !GroupFreeItem(st'.top.current.last);
  }

  lemma EscapeGroups(pat: seq<Byte>, p: nat, st: Parsing)
    requires p < |pat| && ReadEscape(pat, p, st).Ok? && NoGroups(ReadEscape(pat, p, st).value.0)
    ensures var st' := ReadEscape(pat, p, st).value.0; NoGroups(st) && st'.regnum == st.regnum && st'.top.reg == st.top.reg
    ensures pat[p] != '(' as int && pat[p] != ')' as int
  {
    hide AddChar, IsReference, TestOfEscape, Close;
    var c := pat[p];
    CharKeeps(st, c, Peek(pat, p + 1));
    if c == ')' as int {
      CloseHasGroup(st);
    }
    if NoGroups(AddChar(st, c, Peek(pat, p + 1))) {
      CharGroups(st, c, Peek(pat, p + 1));
    }
  }

  lemma {:induction false} ReachGroups(pat: seq<Byte>, p: nat, st: Parsing, q: nat, st': Parsing)
    requires p <= |pat| && Reaches(pat, p, st, q, st') && NoGroups(st')
    ensures NoGroups(st) && st'.regnum == st.regnum && st'.top.reg == st.top.reg
    decreases |pat| - p
  {
    hide ReadOne, NoGroups;
    if p != q {
      var (st1, p1) := ReadOne(pat, p, st).value;
      ReachGroups(pat, p1, st1, q, st');
      ReadGroups(pat, p, st);
    }
  }

  lemma FinishGroups(st: Parsing)
    requires st.outer == []
    ensures GroupFreeAlts(Finish(st.top)) <==> NoGroups(st)
  {
  }
}
