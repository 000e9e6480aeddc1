/** What pattern texts denote. The laws say what a construct adds to the tree of the text
    before it, for every text, and what the languages of repetitions are. */
module RegexPatterns {
  import opened RegexSyntax
  import opened RegexParse
  import opened RegexReading

  const BACKSLASH: Byte := '\\' as int
  const STAR: Byte := '*' as int
  const PLUS: Byte := '+' as int
  const QUERY: Byte := '?' as int
  const CARET: Byte := '^' as int
  const DOLLAR: Byte := '$' as int

  // ---- Trees ----

  function LastAlt(e: Alts): Seq {
    match e
    case One(only) => only
    case More(_, final) => final
  }

  /** The alternatives with one more item behind the last. */
  function AddLast(e: Alts, item: Item): Alts {
    match e
    case One(only) => One(Snoc(only, item))
    case More(others, final) => More(others, Snoc(final, item))
  }

  /** Only tests, and openings of groups. */
  predicate AllTests(e: Seq) {
    match e
    case Nil => true
    case Snoc(init, last) => (last.Test? || last.StartMem?) && AllTests(init)
  }

  lemma {:induction false} AtomOrTests(e: Seq)
    ensures HasAtom(e) <==> !AllTests(e)
  {
    if e.Snoc? {
      AtomOrTests(e.init);
    }
  }

  ghost predicate SameSeq(a: Seq, b: Seq) {
    forall s: seq<Byte>, i: nat, j: nat :: Lang(a, s, i, j) <==> Lang(b, s, i, j)
  }

  /** The same but for strings that may be divided otherwise in the last alternative. */
  ghost predicate Means(a: Alts, b: Alts) {
    && SameSeq(LastAlt(a), LastAlt(b))
    && match a
       case One(_) => b.One?
       case More(others, _) => b.More? && others == b.others
  }

  lemma MeansLang(a: Alts, b: Alts, s: seq<Byte>, i: nat, j: nat)
    requires Means(a, b)
    ensures LangAlts(a, s, i, j) <==> LangAlts(b, s, i, j)
  {
    assert Lang(LastAlt(a), s, i, j) <==> Lang(LastAlt(b), s, i, j);
  }

  lemma FinishIs(st: Parsing)
    ensures LastAlt(Finish(st.top)) == st.top.current
  {
  }

  lemma AddFinishes(st: Parsing, e: Item)
    ensures Finish(Add(st, e).top) == AddLast(Finish(st.top), e)
  {
  }

  // ---- Strings ----

  lemma CharsSplit(a: seq<Byte>, b: seq<Byte>, s: seq<Byte>, i: nat, j: nat)
    ensures LangItem(Chars(a + b), s, i, j)
       <==> exists m: nat {:trigger Cut(i, m, j)} :: Cut(i, m, j) && LangItem(Chars(a), s, i, m) && LangItem(Chars(b), s, m, j)
  {
    if LangItem(Chars(a + b), s, i, j) {
      var m := i + |a|;
      assert s[i..m] == s[i..j][..|a|] && s[m..j] == s[i..j][|a|..];
      assert Cut(i, m, j);
    }
    if m: nat :| Cut(i, m, j) && LangItem(Chars(a), s, i, m) && LangItem(Chars(b), s, m, j) {
      assert s[i..j] == s[i..m] + s[m..j];
    }
  }

  /** A string may be divided. */
  lemma StringDivides(init: Seq, a: seq<Byte>, b: seq<Byte>)
    ensures SameSeq(Snoc(init, Chars(a + b)), Snoc(Snoc(init, Chars(a)), Chars(b)))
  {
    forall s: seq<Byte>, i: nat, j: nat
      ensures Lang(Snoc(init, Chars(a + b)), s, i, j) <==> Lang(Snoc(Snoc(init, Chars(a)), Chars(b)), s, i, j)
    {
      StringDividesAt(init, a, b, s, i, j);
    }
  }

  lemma StringDividesAt(init: Seq, a: seq<Byte>, b: seq<Byte>, s: seq<Byte>, i: nat, j: nat)
    ensures Lang(Snoc(init, Chars(a + b)), s, i, j) <==> Lang(Snoc(Snoc(init, Chars(a)), Chars(b)), s, i, j)
  {
    hide LangItem;
    var front := Snoc(init, Chars(a));
    if Lang(Snoc(init, Chars(a + b)), s, i, j) {
      var m: nat :| Cut(i, m, j) && Lang(init, s, i, m) && LangItem(Chars(a + b), s, m, j);
      CharsSplit(a, b, s, m, j);
      var k: nat :| Cut(m, k, j) && LangItem(Chars(a), s, m, k) && LangItem(Chars(b), s, k, j);
      assert Cut(i, m, k) && Cut(i, k, j);
      assert Lang(front, s, i, k);
    }
    if Lang(Snoc(front, Chars(b)), s, i, j) {
      var k: nat :| Cut(i, k, j) && Lang(front, s, i, k) && LangItem(Chars(b), s, k, j);
      var m: nat :| Cut(i, m, k) && Lang(init, s, i, m) && LangItem(Chars(a), s, m, k);
      assert Cut(m, k, j) && Cut(i, m, j);
      CharsSplit(a, b, s, m, j);
    }
  }

  /** Joined to the string before it or not, a character comes next. */
  lemma CharMeans(st: Parsing, c: Byte, next: Byte)
    ensures Means(Finish(AddChar(st, c, next).top), AddLast(Finish(st.top), Chars([c])))
  {
    hide SameSeq;
    var e := st.top.current;
    if Joins(e, next) {
      StringDivides(e.init, e.last.chars, [c]);
    } else {
      SameSelf(Snoc(e, Chars([c])));
    }
  }

  lemma SameSelf(e: Seq)
    ensures SameSeq(e, e)
  {
  }

  // ---- Where a text may follow ----

  /** What x needs of the tree before it: an operator character is ordinary where it has no
      operand, a $ remains a test only before a newline, and \1 to \9 are characters where
      there are no groups. */
  predicate Fits(e: Alts, x: seq<Byte>)
    requires x != []
  {
    && (IsPostfix(x[0]) ==> AllTests(LastAlt(e)))
    && (EndsInDollar(LastAlt(e)) ==> x[0] == NEWLINE)
    && (|x| == 2 && x[0] == BACKSLASH && '1' as int <= x[1] <= '9' as int ==> GroupFreeAlts(e))
  }

  /** The construct x read in st, with rest behind it. */
  lemma AtomAhead(x: seq<Byte>, e: Item, st: Parsing, rest: seq<Byte>)
    requires Denotes(x, e) && IsAtom(e) && x != [] && (IsPostfix(x[0]) ==> !HasAtom(st.top.current))
    requires |x| == 2 && x[0] == BACKSLASH ==> !IsReference(x[1], st)
    ensures ReadOne(x + rest, 0, st)
         == Ok((if e.Chars? then AddChar(st, e.chars[0], Peek(rest, 0)) else Add(st, e), |x|))
    ensures x[0] != CARET
  {
    hide Denotes, PostfixRun, BracketFrom, HasAtom, Postfix, ReadEscape, ReadBracket, IsReference, AddChar;
    AtomIsOne(x, e);
    var c := x[0];
    FirstChar(c, Peek(x, 1));
    assert (x + rest)[0] == c;
    if c == BACKSLASH {
      EscapeAhead(x, e, st, rest);
    } else if c == '[' as int {
      ReadBracketAhead(x, 0, Nothing, rest);
      BracketAnywhere(x + rest, 0, Nothing, st);
    } else if c == DOLLAR {
      DollarAlone(x, rest);
    }
    PeekAhead(x, rest);
  }

  lemma FirstChar(c: Byte, next: Byte)
    ensures AddChar(Nothing, c, next) == Add(Nothing, Chars([c])) && !HasAtom(Nil)
  {
  }

  lemma DollarAlone(x: seq<Byte>, rest: seq<Byte>)
    ensures |x| == 1 ==> EndsLine(x, 1)
  {
  }

  lemma BracketAnywhere(pat: seq<Byte>, p: nat, st1: Parsing, st2: Parsing)
    requires p < |pat| && ReadBracket(pat, p, st1).Ok?
    ensures ReadBracket(pat, p, st2).Ok?
    ensures var (r1, q1), (r2, q2) := ReadBracket(pat, p, st1).value, ReadBracket(pat, p, st2).value;
            q1 == q2 && forall e :: r1 == Add(st1, e) ==> e.CharSet? && r2 == Add(st2, e)
  {
    hide BracketFrom, Trim;
  }

  lemma EscapeAhead(x: seq<Byte>, e: Item, st: Parsing, rest: seq<Byte>)
    requires x != [] && x[0] == BACKSLASH && IsAtom(e) && ReadOne(x, 0, Nothing) == Ok((Add(Nothing, e), |x|))
    requires |x| == 2 ==> !IsReference(x[1], st)
    ensures ReadOne(x + rest, 0, st)
         == Ok((if e.Chars? then AddChar(st, e.chars[0], Peek(rest, 0)) else Add(st, e), |x|))
  {
    hide PostfixRun, BracketFrom, HasAtom, Postfix, IsReference, TestOfEscape, AddChar, ReadBracket;
    assert !IsReference(x[1], Nothing) by { NoReference(x[1]); }
    FirstChar(x[1], Peek(x, 2));
    PeekAhead(x, rest);
    assert (x + rest)[0] == x[0] && (x + rest)[1] == x[1];
  }

  lemma EmptyReferences(x: seq<Byte>)
    ensures !HasAtom(Nothing.top.current) && (|x| == 2 ==> !IsReference(x[1], Nothing))
  {
  }

  lemma NoReference(c: Byte)
    ensures !IsReference(c, Nothing)
  {
  }

  /** Where the reading stands behind w and x, whatever follows. */
  lemma AtomInContext(w: seq<Byte>, e0: Alts, x: seq<Byte>, e: Item, rest: seq<Byte>) returns (st: Parsing, st': Parsing)
    requires Parse(w) == Ok(e0) && Denotes(x, e) && IsAtom(e) && x != [] && Fits(e0, x)
    ensures st.outer == [] && Finish(st.top) == e0
    ensures st' == if e.Chars? then AddChar(st, e.chars[0], Peek(rest, 0)) else Add(st, e)
    ensures Reaches(w + x + rest, 0, Nothing, |w| + |x|, st')
  {
    hide ReadOne, Reaches, Denotes, HasAtom, IsReference, Finish, AddChar, GroupFreeAlts;
    st := ParseEnds(w);
    FinishIs(st);
    AtomOrTests(st.top.current);
    assert |x| == 2 && x[0] == BACKSLASH ==> !IsReference(x[1], st) by { ReferenceFits(w, st, x); }
    AtomFollows(w, st, x, e, rest);
    ReachAhead(w, 0, Nothing, st, x + rest);
    assert w + (x + rest) == w + x + rest;
    st' := AtomNext(w, st, x, e, rest);
  }

  /** One more atom. */
  lemma AtomNext(v: seq<Byte>, st: Parsing, x: seq<Byte>, e: Item, rest: seq<Byte>) returns (st': Parsing)
    requires Reaches(v + x + rest, 0, Nothing, |v|, st) && Denotes(x, e) && IsAtom(e) && x != []
    requires IsPostfix(x[0]) ==> !HasAtom(st.top.current)
    requires |x| == 2 && x[0] == BACKSLASH ==> !IsReference(x[1], st)
    ensures st' == if e.Chars? then AddChar(st, e.chars[0], Peek(rest, 0)) else Add(st, e)
    ensures Reaches(v + x + rest, 0, Nothing, |v| + |x|, st')
  {
    hide ReadOne, Reaches, Denotes, HasAtom, IsReference, AddChar;
    AtomAhead(x, e, st, rest);
    ReadBehind(v, x + rest, 0, st);
    assert v + (x + rest) == v + x + rest;
    st' := if e.Chars? then AddChar(st, e.chars[0], Peek(rest, 0)) else Add(st, e);
    ReachesOne(v + x + rest, |v|, st, |v| + |x|, st');
    ReachesOn(v + x + rest, 0, Nothing, |v|, st, |v| + |x|, st');
  }

  lemma AtomMeans(st: Parsing, e: Item, next: Byte, st': Parsing)
    requires IsAtom(e) && st' == if e.Chars? then AddChar(st, e.chars[0], next) else Add(st, e)
    ensures st'.outer == st.outer && Means(Finish(st'.top), AddLast(Finish(st.top), e))
  {
    hide Finish, AddChar, Means;
    if e.Chars? {
      assert e == Chars([e.chars[0]]);
      CharKeepsOuter(st, e.chars[0], next);
      CharMeans(st, e.chars[0], next);
    } else {
      AddFinishes(st, e);
      MeansSelf(AddLast(Finish(st.top), e));
    }
  }

  /** One more construct behind w. */
  lemma ReadsOn(w: seq<Byte>, st: Parsing, x: seq<Byte>, rest: seq<Byte>, st': Parsing)
    requires Reaches(w, 0, Nothing, |w|, st) && Follows(w, st, x + rest)
    requires x != [] && (x[0] != CARET || !HasAtom(st.top.current)) && ReadOne(x + rest, 0, st) == Ok((st', |x|))
    ensures Reaches(w + x + rest, 0, Nothing, |w| + |x|, st')
  {
    hide ReadOne, Reaches, Follows, HasAtom;
    ReachAhead(w, 0, Nothing, st, x + rest);
    ReadBehind(w, x + rest, 0, st);
    assert w + (x + rest) == w + x + rest;
    ReachesOne(w + x + rest, |w|, st, |w| + |x|, st');
    ReachesOn(w + x + rest, 0, Nothing, |w|, st, |w| + |x|, st');
  }

  lemma ReachesOne(pat: seq<Byte>, p: nat, st: Parsing, q: nat, st': Parsing)
    requires p < |pat| && ReadOne(pat, p, st) == Ok((st', q))
    ensures Reaches(pat, p, st, q, st')
  {
    hide ReadOne;
  }

  lemma ReferenceFits(w: seq<Byte>, st: Parsing, x: seq<Byte>)
    requires Reaches(w, 0, Nothing, |w|, st) && st.outer == [] && x != [] && Fits(Finish(st.top), x)
    ensures |x| == 2 && x[0] == BACKSLASH ==> !IsReference(x[1], st)
  {
    hide Reaches, AllTests;
    if |x| == 2 && x[0] == BACKSLASH && '1' as int <= x[1] <= '9' as int {
      FinishGroups(st);
      ReachGroups(w, 0, Nothing, |w|, st);
    }
  }

  lemma AtomFollows(w: seq<Byte>, st: Parsing, x: seq<Byte>, e: Item, rest: seq<Byte>)
    requires x != [] && Denotes(x, e) && IsAtom(e) && Fits(Finish(st.top), x)
    ensures Follows(w, st, x + rest)
  {
    hide Denotes;
    EmptyReferences(x);
    AtomAhead(x, e, Nothing, rest);
    FinishIs(st);
    AtomOrTests(st.top.current);
    assert (x + rest)[0] == x[0] && Peek(w + (x + rest), |w|) == x[0];
  }

  // ---- The laws ----

  /** An atom is one more item. */
  lemma AtomRead(w: seq<Byte>, e0: Alts, x: seq<Byte>, e: Item)
    requires Parse(w) == Ok(e0) && Denotes(x, e) && IsAtom(e) && x != [] && Fits(e0, x)
    ensures Parse(w + x).Ok? && Means(Parse(w + x).value, AddLast(e0, e))
  {
    hide Reaches, Denotes, Finish, AddChar, Fits, Parse;
    var st, st' := AtomInContext(w, e0, x, e, []);
    assert w + x + [] == w + x;
    AtomMeans(st, e, 0, st');
    EndsParse(w + x, st');
  }

  lemma CharKeepsOuter(st: Parsing, c: Byte, next: Byte)
    ensures AddChar(st, c, next).outer == st.outer
  {
  }

  lemma MeansSelf(e: Alts)
    ensures Means(e, e)
  {
    SameSelf(LastAlt(e));
  }

  predicate Operators(ops: seq<Byte>) {
    ops != [] && forall k :: 0 <= k < |ops| ==> ops[k] == STAR || ops[k] == PLUS || ops[k] == QUERY
  }

  /** Some operator other than + allows nothing; some operator other than ? allows more than one. */
  predicate SomeOther(ops: seq<Byte>, c: Byte) {
    exists k :: 0 <= k < |ops| && ops[k] != c
  }

  lemma {:induction false} RunOf(pat: seq<Byte>, p: nat, zero: bool, many: bool)
    requires p <= |pat| && forall k :: p <= k < |pat| ==> IsPostfix(pat[k])
    ensures PostfixRun(pat, p, zero, many) == (zero || SomeOther(pat[p..], PLUS), many || SomeOther(pat[p..], QUERY), |pat|)
    decreases |pat| - p
  {
    if p < |pat| {
      RunOf(pat, p + 1, zero || pat[p] != PLUS, many || pat[p] != QUERY);
      OtherFirst(pat[p..], PLUS);
      OtherFirst(pat[p..], QUERY);
      assert pat[p..][1..] == pat[p + 1..];
    }
  }

  lemma OtherFirst(ops: seq<Byte>, c: Byte)
    requires ops != []
    ensures SomeOther(ops, c) <==> ops[0] != c || SomeOther(ops[1..], c)
  {
    if k :| 0 <= k < |ops| && ops[k] != c {
      assert k > 0 ==> ops[1..][k - 1] == ops[k];
    }
    if k :| 0 <= k < |ops[1..]| && ops[1..][k] != c {
      assert ops[k + 1] == ops[1..][k];
    }
  }

  /** A run of operators repeats the atom before it, and that alone. */
  lemma RepetitionRead(w: seq<Byte>, e0: Alts, x: seq<Byte>, e: Item, ops: seq<Byte>)
    requires Parse(w) == Ok(e0) && Denotes(x, e) && IsAtom(e) && x != [] && Fits(e0, x) && Operators(ops)
    ensures Parse(w + x + ops) == Ok(AddLast(e0, Repeat(SomeOther(ops, PLUS), SomeOther(ops, QUERY), Snoc(Nil, e))))
  {
    hide Reaches, Denotes, Fits, Parse, SomeOther, ReadOne, AddChar;
    var st, st' := AtomInContext(w, e0, x, e, ops);
    Unjoined(st, e, ops);
    OperatorsNext(w + x, st', st, e, ops);
  }

  /** Operators behind one item. */
  lemma OperatorsNext(v: seq<Byte>, st': Parsing, st: Parsing, e: Item, ops: seq<Byte>)
    requires Reaches(v + ops, 0, Nothing, |v|, st') && st' == Add(st, e) && st.outer == []
    requires Operators(ops) && !e.Test? && !e.StartMem?
    ensures Parse(v + ops) == Ok(AddLast(Finish(st.top), Repeat(SomeOther(ops, PLUS), SomeOther(ops, QUERY), Snoc(Nil, e))))
  {
    hide Reaches, Parse, SomeOther, ReadOne;
    var pat := v + ops;
    assert pat[|v|..] == ops;
    OperatorsRead(pat, |v|, st, e);
    var last := Repeat(SomeOther(ops, PLUS), SomeOther(ops, QUERY), Snoc(Nil, e));
    ReachesOne(pat, |v|, st', |pat|, Add(st, last));
    ReachesOn(pat, 0, Nothing, |v|, st', |pat|, Add(st, last));
    EndsParse(pat, Add(st, last));
    AddFinishes(st, last);
  }

  lemma Unjoined(st: Parsing, e: Item, ops: seq<Byte>)
    requires Operators(ops)
    ensures e.Chars? && |e.chars| == 1 ==> AddChar(st, e.chars[0], Peek(ops, 0)) == Add(st, e)
  {
    if e.Chars? && |e.chars| == 1 {
      assert e == Chars([e.chars[0]]);
    }
  }

  lemma OperatorsRead(pat: seq<Byte>, p: nat, st: Parsing, e: Item)
    requires p < |pat| && Operators(pat[p..]) && !e.Test? && !e.StartMem?
    ensures ReadOne(pat, p, Add(st, e))
         == Ok((Add(st, Repeat(SomeOther(pat[p..], PLUS), SomeOther(pat[p..], QUERY), Snoc(Nil, e))), |pat|))
  {
    hide PostfixRun, SomeOther, EndsLine, ReadBracket, ReadEscape, AddChar;
    assert forall k :: p <= k < |pat| ==> pat[k] == pat[p..][k - p] && IsPostfix(pat[k]);
    RunOf(pat, p, false, false);
  }

  // ---- What repetition means ----

  /** n times body, one after the other. */
  ghost predicate Times(body: Seq, n: nat, s: seq<Byte>, i: nat, j: nat) {
    if n == 0 then i == j <= |s|
    else exists m: nat {:trigger Cut(i, m, j)} :: Cut(i, m, j) && Lang(body, s, i, m) && Times(body, n - 1, s, m, j)
  }

  lemma LangInside(e: Seq, s: seq<Byte>, i: nat, j: nat)
    requires Lang(e, s, i, j)
    ensures i <= j <= |s|
  {
  }

  lemma OnceTimes(body: Seq, s: seq<Byte>, i: nat, j: nat)
    ensures Times(body, 1, s, i, j) <==> Lang(body, s, i, j)
  {
    if Lang(body, s, i, j) {
      LangInside(body, s, i, j);
      assert Cut(i, j, j) && Times(body, 0, s, j, j);
    }
  }

  lemma {:induction false} LoopTimes(body: Seq, s: seq<Byte>, i: nat, j: nat) returns (n: nat)
    requires LangLoop(body, s, i, j)
    ensures n > 0 && Times(body, n, s, i, j)
    decreases j - i
  {
    if Lang(body, s, i, j) {
      OnceTimes(body, s, i, j);
      n := 1;
    } else {
      var m: nat :| Cut(i, m, j) && i < m && Lang(body, s, i, m) && LangLoop(body, s, m, j);
      n := LoopTimes(body, s, m, j);
      n := n + 1;
    }
  }

  /** Repetitions of nothing may be left out. */
  lemma {:induction false} TimesLoop(body: Seq, n: nat, s: seq<Byte>, i: nat, j: nat)
    requires n > 0 && Times(body, n, s, i, j)
    ensures LangLoop(body, s, i, j)
    decreases n
  {
    if n == 1 {
      OnceTimes(body, s, i, j);
      LangInside(body, s, i, j);
    } else {
      var m: nat :| Cut(i, m, j) && Lang(body, s, i, m) && Times(body, n - 1, s, m, j);
      TimesLoop(body, n - 1, s, m, j);
    }
  }

  /** A repetition stands for none, one or more of its operand as its two flags allow. */
  lemma RepeatMeans(zero: bool, many: bool, body: Seq, s: seq<Byte>, i: nat, j: nat)
    ensures LangItem(Repeat(zero, many, body), s, i, j)
       <==> exists n: nat {:trigger Times(body, n, s, i, j)} :: (n == 0 ==> zero) && (n > 1 ==> many) && Times(body, n, s, i, j)
  {
    hide Lang, LangItem, LangLoop;
    RepeatIs(zero, many, body, s, i, j);
    OnceTimes(body, s, i, j);
    if LangItem(Repeat(zero, many, body), s, i, j) {
      if zero && i == j {
        assert Times(body, 0, s, i, j);
      } else if many {
        var n := LoopTimes(body, s, i, j);
      }
    }
    if n: nat :| (n == 0 ==> zero) && (n > 1 ==> many) && Times(body, n, s, i, j) {
      TimesInside(body, n, s, i, j);
      if n > 0 && many {
        TimesLoop(body, n, s, i, j);
        assert Times(body, n, s, i, j);
      } else if n == 0 {
        assert Times(body, 0, s, i, j);
      } else {
        assert Times(body, 1, s, i, j);
      }
    }
  }

  lemma RepeatIs(zero: bool, many: bool, body: Seq, s: seq<Byte>, i: nat, j: nat)
    ensures LangItem(Repeat(zero, many, body), s, i, j)
       <==> i <= j <= |s| && ((zero && i == j) || if many then LangLoop(body, s, i, j) else Lang(body, s, i, j))
  {
  }

  lemma {:induction false} TimesInside(body: Seq, n: nat, s: seq<Byte>, i: nat, j: nat)
    requires Times(body, n, s, i, j)
    ensures i <= j <= |s|
    decreases n
  {
    if n > 0 {
      var m: nat :| Cut(i, m, j) && Lang(body, s, i, m) && Times(body, n - 1, s, m, j);
      TimesInside(body, n - 1, s, m, j);
    }
  }

  lemma OneItem(e: Item, s: seq<Byte>, i: nat, j: nat)
    ensures Lang(Snoc(Nil, e), s, i, j) <==> LangItem(e, s, i, j)
  {
    hide LangItem;
    if LangItem(e, s, i, j) {
      ItemInside(e, s, i, j);
      assert Cut(i, i, j) && Lang(Nil, s, i, i);
    }
  }

  lemma ItemInside(e: Item, s: seq<Byte>, i: nat, j: nat)
    requires LangItem(e, s, i, j)
    ensures i <= j <= |s| && (IsAtom(e) ==> j == i + 1)
  {
  }

  ghost predicate OneAt(e: Alts, s: seq<Byte>, k: nat) {
    LangAlts(e, s, k, k + 1)
  }

  /** Every character from i to j alone is in the language of e. */
  ghost predicate EachFrom(e: Alts, s: seq<Byte>, i: nat, j: nat) {
    i <= j <= |s| && forall k: nat :: i <= k < j ==> OneAt(e, s, k)
  }

  lemma {:induction false} AtomTimes(e: Item, n: nat, s: seq<Byte>, i: nat, j: nat)
    requires IsAtom(e)
    ensures Times(Snoc(Nil, e), n, s, i, j) <==> j - i == n && EachFrom(One(Snoc(Nil, e)), s, i, j)
    decreases n
  {
    hide LangItem, Lang;
    if n > 0 {
      if i < j {
        AtomTimes(e, n - 1, s, i + 1, j);
        assert OneAt(One(Snoc(Nil, e)), s, i) <==> Lang(Snoc(Nil, e), s, i, i + 1);
        assert Cut(i, i + 1, j);
      }
      if Times(Snoc(Nil, e), n, s, i, j) {
        var m: nat :| Cut(i, m, j) && Lang(Snoc(Nil, e), s, i, m) && Times(Snoc(Nil, e), n - 1, s, m, j);
        OneItem(e, s, i, m);
        ItemInside(e, s, i, m);
      }
    }
  }

  lemma AtomRepeat(zero: bool, many: bool, e: Item, s: seq<Byte>, i: nat, j: nat)
    requires IsAtom(e)
    ensures LangItem(Repeat(zero, many, Snoc(Nil, e)), s, i, j)
       <==> (i == j ==> zero) && (j - i > 1 ==> many) && EachFrom(One(Snoc(Nil, e)), s, i, j)
  {
    hide LangItem, EachFrom;
    RepeatMeans(zero, many, Snoc(Nil, e), s, i, j);
    if i <= j {
      AtomTimes(e, j - i, s, i, j);
    }
    if n: nat :| (n == 0 ==> zero) && (n > 1 ==> many) && Times(Snoc(Nil, e), n, s, i, j) {
      AtomTimes(e, n, s, i, j);
    }
    EachInside(One(Snoc(Nil, e)), s, i, j);
  }

  lemma EachInside(e: Alts, s: seq<Byte>, i: nat, j: nat)
    ensures EachFrom(e, s, i, j) ==> i <= j
  {
  }

  /** The text x that denotes one character at a time, with operators behind it, denotes
      stretches of such characters: the empty stretch if and only if some operator is not +,
      and stretches of two or more if and only if some operator is not ?. */
  lemma RepetitionMeans(x: seq<Byte>, e: Item, ops: seq<Byte>, s: seq<Byte>, i: nat, j: nat)
    requires Denotes(x, e) && IsAtom(e) && Operators(ops)
    ensures Parse(x + ops).Ok?
    ensures LangAlts(Parse(x + ops).value, s, i, j)
       <==> (i == j ==> SomeOther(ops, PLUS)) && (j - i > 1 ==> SomeOther(ops, QUERY)) && EachFrom(Parse(x).value, s, i, j)
  {
    hide LangItem, Lang, Parse, SomeOther, Operators, EachFrom;
    AtomIsOne(x, e);
    EmptyRead();
    RepetitionRead([], One(Nil), x, e, ops);
    assert [] + x + ops == x + ops;
    var r := Repeat(SomeOther(ops, PLUS), SomeOther(ops, QUERY), Snoc(Nil, e));
    OneItem(r, s, i, j);
    AtomRepeat(r.zero, r.many, e, s, i, j);
  }

  lemma EmptyRead()
    ensures Parse([]) == Ok(One(Nil))
    ensures AllTests(LastAlt(One(Nil))) && !EndsInDollar(LastAlt(One(Nil))) && GroupFreeAlts(One(Nil))
  {
  }

  // ---- Single constructs ----

  predicate IsSpecial(c: Byte) {
    c == CARET || c == DOLLAR || c == '.' as int || c == '[' as int || c == BACKSLASH
  }

  predicate IsLetter(c: Byte) {
    || c == '(' as int || c == ')' as int || c == '|' as int || c == 'w' as int || c == 'W' as int
    || c == '<' as int || c == '>' as int || c == 'b' as int || c == 'B' as int || c == '`' as int || c == '\'' as int
  }

  lemma OneRead(x: seq<Byte>, e: Item)
    requires x != [] && ReadOne(x, 0, Nothing) == Ok((Add(Nothing, e), |x|))
    ensures Denotes(x, e)
  {
    hide ReadOne;
    ReachesOne(x, 0, Nothing, |x|, Add(Nothing, e));
    EndsParse(x, Add(Nothing, e));
  }

  /** Alone, every character but five stands for itself. */
  lemma Ordinary(c: Byte)
    requires !IsSpecial(c)
    ensures Denotes([c], Chars([c]))
  {
    FirstChar(c, Peek([c], 1));
    OneRead([c], Chars([c]));
  }

  /** So does every character behind a backslash but eleven. */
  lemma Escaped(c: Byte)
    requires !IsLetter(c)
    ensures Denotes([BACKSLASH, c], Chars([c]))
  {
    var x := [BACKSLASH, c];
    FirstChar(c, Peek(x, 2));
    NoReference(c);
    OneRead(x, Chars([c]));
  }

  lemma SpecialRead()
    ensures Denotes(['.' as int], Any)
    ensures Denotes([CARET], Test(BEGLINE))
    ensures Denotes([DOLLAR], Test(ENDLINE))
    ensures Denotes([BACKSLASH, 'w' as int], Word(false))
    ensures Denotes([BACKSLASH, 'W' as int], Word(true))
    ensures Denotes([BACKSLASH, '<' as int], Test(WORDBEG))
    ensures Denotes([BACKSLASH, '>' as int], Test(WORDEND))
    ensures Denotes([BACKSLASH, 'b' as int], Test(WORDBOUND))
    ensures Denotes([BACKSLASH, 'B' as int], Test(NOTWORDBOUND))
    ensures Denotes([BACKSLASH, '`' as int], Test(BEGBUF))
    ensures Denotes([BACKSLASH, '\'' as int], Test(ENDBUF))
  {
    hide Denotes, Add;
    OneRead(['.' as int], Any);
    OneRead([CARET], Test(BEGLINE));
    OneRead([DOLLAR], Test(ENDLINE));
    OneRead([BACKSLASH, 'w' as int], Word(false));
    OneRead([BACKSLASH, 'W' as int], Word(true));
    OneRead([BACKSLASH, '<' as int], Test(WORDBEG));
    OneRead([BACKSLASH, '>' as int], Test(WORDEND));
    OneRead([BACKSLASH, 'b' as int], Test(WORDBOUND));
    OneRead([BACKSLASH, 'B' as int], Test(NOTWORDBOUND));
    OneRead([BACKSLASH, '`' as int], Test(BEGBUF));
    OneRead([BACKSLASH, '\'' as int], Test(ENDBUF));
  }

  /** The language of a text that is one character: what the character may be. */
  lemma SingleMeans(c: Byte, s: seq<Byte>, i: nat, j: nat)
    requires !IsSpecial(c)
    ensures LangAlts(One(Snoc(Nil, Chars([c]))), s, i, j) <==> j == i + 1 && i < |s| && s[i] == c
    ensures LangAlts(One(Snoc(Nil, Any)), s, i, j) <==> j == i + 1 && i < |s| && s[i] != NEWLINE
    ensures LangAlts(One(Snoc(Nil, Word(false))), s, i, j) <==> j == i + 1 && i < |s| && IsWordChar(s[i])
    ensures LangAlts(One(Snoc(Nil, Word(true))), s, i, j) <==> j == i + 1 && i < |s| && !IsWordChar(s[i])
  {
    OneItem(Chars([c]), s, i, j);
    OneItem(Any, s, i, j);
    OneItem(Word(false), s, i, j);
    OneItem(Word(true), s, i, j);
    if i < |s| {
      assert s[i..i + 1] == [s[i]];
    }
  }
}
