/** What bracket expressions accept; patterns without groups and with seven-bit characters
    only, which the matcher can be trusted with. */
module RegexPlain {
  import opened RegexSyntax
  import opened RegexCode
  import opened RegexParse
  import opened RegexDrops
  import opened RegexLayout
  import opened RegexMachine
  import opened RegexMatch
  import C = RegexCorrect
  import E = RegexExact
  import F = RegexFind

  // ---- Bracket expressions mean the characters and ranges they list ----

  function Range(lo: Byte, hi: Byte): set<Byte> {
    set c: Byte {:trigger InRange(lo, c, hi)} | 0 <= c < 256 && InRange(lo, c, hi)
  }

  predicate InRange(lo: Byte, c: Byte, hi: Byte) {
    lo <= c <= hi
  }

  function Members(pat: seq<Byte>, first: nat, p: nat): set<Byte>
    requires p <= |pat|
    decreases |pat| - p
  {
    if p == |pat| || (pat[p] == ']' as int && p != first) then {}
    else if RangeAt(pat, p + 1) then
      if p + 2 >= |pat| then {}
      else Range(pat[p], pat[p + 2]) + Members(pat, first, p + 3)
    else {pat[p]} + Members(pat, first, p + 1)
  }

  lemma {:induction false} AddedBit(b: nat, k: nat, j: nat)
    requires !Bit(b, k)
    ensures Bit(b + Pow2(k), j) <==> j == k || Bit(b, j)
    decreases k
  {
    if k > 0 {
      assert (b + Pow2(k)) / 2 == b / 2 + Pow2(k - 1);
      if j > 0 {
        AddedBit(b / 2, k - 1, j - 1);
      }
    }
  }

  lemma {:induction false} NoBits(k: nat)
    ensures !Bit(0, k)
    decreases k
  {
    if k > 0 {
      NoBits(k - 1);
    }
  }

  lemma SetBitSets(bits: seq<Byte>, c: Byte, x: Byte)
    requires |bits| == 32
    ensures InBits(SetBit(bits, c), x) <==> x == c || InBits(bits, x)
  {
    if c / 8 == x / 8 {
      if !Bit(bits[c / 8], c % 8) {
        AddedBit(bits[c / 8], c % 8, x % 8);
      }
    }
  }

  lemma {:induction false} SetRangeSets(bits: seq<Byte>, c: nat, hi: Byte, x: Byte)
    requires |bits| == 32
    ensures InBits(SetRange(bits, c, hi), x) <==> c <= x <= hi || InBits(bits, x)
    decreases 256 - c
  {
    if c <= hi {
      SetRangeSets(SetBit(bits, c), c + 1, hi, x);
      SetBitSets(bits, c, x);
    }
  }

  lemma {:induction false} BracketMeans(pat: seq<Byte>, first: nat, p: nat, bits: seq<Byte>, x: Byte)
    requires p <= |pat| && |bits| == 32 && BracketFrom(pat, first, p, bits).Ok?
    ensures |BracketFrom(pat, first, p, bits).value.0| == 32
    ensures InBits(BracketFrom(pat, first, p, bits).value.0, x) <==> x in Members(pat, first, p) || InBits(bits, x)
    decreases |pat| - p
  {
    if !(pat[p] == ']' as int && p != first) {
      if RangeAt(pat, p + 1) {
        SetRangeSets(bits, pat[p], pat[p + 2], x);
        BracketMeans(pat, first, p + 3, SetRange(bits, pat[p], pat[p + 2]), x);
      } else {
        SetBitSets(bits, pat[p], x);
        BracketMeans(pat, first, p + 1, SetBit(bits, pat[p]), x);
      }
    }
  }

  lemma {:induction false} TrimKeeps(bits: seq<Byte>, x: Byte)
    ensures InBits(Trim(bits), x) <==> InBits(bits, x)
    decreases |bits|
  {
    if bits != [] && bits[|bits| - 1] == 0 {
      NoBits(x % 8);
      TrimKeeps(bits[..|bits| - 1], x);
    }
  }

  /** The command compiled from a bracket expression accepts what the brackets list,
      or with ^ everything else. */
  lemma BracketAccepts(pat: seq<Byte>, p: nat, st: Parsing, x: Byte)
    requires p < |pat| && ReadBracket(pat, p, st).Ok?
    ensures var inverted := Peek(pat, p + 1) == '^' as int;
            var first := if inverted then p + 2 else p + 1;
            var item := ReadBracket(pat, p, st).value.0.top.current.last;
            IsSingle(item) && first <= |pat| && (Accepts(item, x) <==> (x in Members(pat, first, first)) != inverted)
  {
    var first := if Peek(pat, p + 1) == '^' as int then p + 2 else p + 1;
    BracketMeans(pat, first, first, seq(32, _ => 0), x);
    TrimKeeps(BracketFrom(pat, first, first, seq(32, _ => 0)).value.0, x);
    NoBits(x % 8);
  }

  // ---- Plain patterns ----

  /** What is repeated is a single character, possibly followed by zero-width tests. */
  predicate SimpleBody(e: Seq) {
    e.Snoc? &&
    if e.last.Test? then SimpleBody(e.init)
    else e.init.Nil? && (IsSingle(e.last) || (e.last.Chars? && |e.last.chars| == 1 && e.last.chars[0] < 128))
  }

  predicate FlatItem(e: Item) {
    match e
    case StartMem(_) => false
    case Group(_, _) => false
    case Repeat(_, many, body) => Flat(body) && (many ==> SimpleBody(body))
    case _ => true
  }

  /** No groups; what * and + repeat is a single character. */
  predicate Flat(e: Seq) {
    match e
    case Nil => true
    case Snoc(init, last) => Flat(init) && FlatItem(last)
  }

  predicate FlatAlts(e: Alts) {
    match e
    case One(only) => Flat(only)
    case More(others, final) => FlatAlts(others) && Flat(final)
  }

  /** The construct at p is no eight-bit character, and no escape that opens a group or is
      a zero-width test. */
  predicate PlainAt(pat: seq<Byte>, p: nat) {
    && Peek(pat, p) < 128
    && (Peek(pat, p) == '\\' as int ==> Peek(pat, p + 1) < 128 && !Excluded(Peek(pat, p + 1)))
  }

  predicate Excluded(c: Byte) {
    c == '(' as int || TestOfEscape(c) != 0
  }

  /** All constructs from p on are of this kind; what stands inside brackets, or behind a
      backslash that is itself escaped, does not matter. */
  predicate PlainFrom(pat: seq<Byte>, p: nat, st: Parsing)
    requires p <= |pat|
    decreases |pat| - p
  {
    p == |pat| ||
    (PlainAt(pat, p) &&
     match ReadOne(pat, p, st)
     case Err(_) => true
     case Ok((st', q)) => PlainFrom(pat, q, st'))
  }

  predicate Plain(pat: seq<Byte>) {
    PlainFrom(pat, 0, Nothing)
  }

  /** What has been read is fit for the operator or the test that may come next;
      prev is the character just read, next the one to be read. */
  predicate Tidy(e: Seq, prev: Byte, next: Byte) {
    && Flat(e) && ProperLoops(e)
    && (EndsInChars(e) ==> 1 <= |e.last.chars| && e.last.chars[0] < 128)
    && (HasAtom(e) && (IsPostfix(next) || (next == '^' as int && prev == NEWLINE)) ==> SimpleBody(Operand(e)))
  }

  predicate TidyState(st: Parsing, prev: Byte, next: Byte) {
    && st.outer == [] && st.regnum == 1
    && Tidy(st.top.current, prev, next)
    && (st.top.finished.Some? ==> FlatAlts(st.top.finished.alts) && ProperLoopsAlts(st.top.finished.alts))
  }

  lemma {:induction false} OperandParts(e: Seq)
    requires HasAtom(e) && Flat(e) && ProperLoops(e)
    ensures Flat(Operand(e)) && ProperLoops(Operand(e)) && Flat(BeforeOperand(e)) && ProperLoops(BeforeOperand(e))
    decreases e
  {
    if e.last.Test? || e.last.StartMem? {
      OperandParts(e.init);
    } else {
      assert Flat(Snoc(Nil, e.last)) && ProperLoops(Snoc(Nil, e.last));
    }
  }

  lemma {:induction false} SimpleIsProper(e: Seq)
    requires SimpleBody(e)
    ensures !Nullable(e)
    decreases e
  {
    if e.last.Test? {
      SimpleIsProper(e.init);
    }
  }

  /** `was` is where the character was expected: itself, or the backslash before it. */
  lemma TidyChar(st: Parsing, prev: Byte, was: Byte, c: Byte, next: Byte)
    requires TidyState(st, prev, was) && c < 128
    ensures TidyState(AddChar(st, c, next), c, next)
  {
    var e := st.top.current;
    if Joins(e, next) {
      assert (e.last.chars + [c])[0] == e.last.chars[0];
    } else {
      assert Operand(Snoc(e, Chars([c]))) == Snoc(Nil, Chars([c]));
    }
  }

  lemma TidySingle(st: Parsing, prev: Byte, c: Byte, next: Byte, prev': Byte, e: Item)
    requires TidyState(st, prev, c) && IsSingle(e)
    ensures TidyState(Add(st, e), prev', next)
  {
    assert Operand(Snoc(st.top.current, e)) == Snoc(Nil, e);
  }

  lemma TidyPostfix(pat: seq<Byte>, p: nat, st: Parsing)
    requires p < |pat| && IsPostfix(pat[p]) && TidyState(st, Peek(pat, p - 1), pat[p]) && HasAtom(st.top.current)
    ensures var (zero, many, q) := PostfixRun(pat, p, false, false);
            p < q <= |pat| && TidyState(Postfix(st, zero, many), Peek(pat, q - 1), Peek(pat, q))
  {
    OperandParts(st.top.current);
    SimpleIsProper(Operand(st.top.current));
    RunEnds(pat, p, false, false);
  }

  lemma {:induction false} RunEnds(pat: seq<Byte>, p: nat, zero: bool, many: bool)
    requires p < |pat| && IsPostfix(pat[p])
    ensures var (_, _, q) := PostfixRun(pat, p, zero, many);
            p < q <= |pat| && IsPostfix(pat[q - 1]) && !IsPostfix(Peek(pat, q))
    decreases |pat| - p
  {
    if p + 1 < |pat| && IsPostfix(pat[p + 1]) {
      RunEnds(pat, p + 1, zero || pat[p] != '+' as int, many || pat[p] != '?' as int);
    }
  }

  lemma TidyTest(st: Parsing, prev: Byte, c: Byte, next: Byte, op: Byte)
    requires TidyState(st, prev, c)
    requires (op == ENDLINE && !IsPostfix(next)) || (op == BEGLINE && c == '^' as int && (!HasAtom(st.top.current) || prev == NEWLINE))
    requires c != NEWLINE
    ensures TidyState(Add(st, Test(op)), c, next)
  {
    var e := st.top.current;
    if HasAtom(e) {
      assert Operand(Snoc(e, Test(op))) == Snoc(Operand(e), Test(op));
    }
  }

  lemma TidyEscape(pat: seq<Byte>, p: nat, st: Parsing)
    requires 0 < p < |pat| && PlainAt(pat, p - 1) && pat[p - 1] == '\\' as int && TidyState(st, Peek(pat, p - 2), pat[p - 1])
    requires ReadEscape(pat, p, st).Ok?
    ensures var (st', q) := ReadEscape(pat, p, st).value; TidyState(st', Peek(pat, q - 1), Peek(pat, q))
  {
    var c := pat[p];
    assert !Excluded(Peek(pat, p - 1 + 1)) && Peek(pat, p) == c;
    if c == 'w' as int {
      TidySingle(st, Peek(pat, p - 2), pat[p - 1], Peek(pat, p + 1), c, Word(false));
    } else if c == 'W' as int {
      TidySingle(st, Peek(pat, p - 2), pat[p - 1], Peek(pat, p + 1), c, Word(true));
    } else if c != '|' as int && c != ')' as int {
      TidyChar(st, Peek(pat, p - 2), pat[p - 1], c, Peek(pat, p + 1));
    }
  }

  lemma TidyOne(pat: seq<Byte>, p: nat, st: Parsing)
    requires p < |pat| && PlainAt(pat, p) && TidyState(st, Peek(pat, p - 1), pat[p]) && ReadOne(pat, p, st).Ok?
    ensures var (st', q) := ReadOne(pat, p, st).value; TidyState(st', Peek(pat, q - 1), Peek(pat, q))
  {
    var c, prev, next := pat[p], Peek(pat, p - 1), Peek(pat, p + 1);
    if c == '$' as int && EndsLine(pat, p + 1) {
      TidyTest(st, prev, c, next, ENDLINE);
    } else if c == '^' as int && (!HasAtom(st.top.current) || prev == NEWLINE) {
      TidyTest(st, prev, c, next, BEGLINE);
    } else if IsPostfix(c) && HasAtom(st.top.current) {
      TidyPostfix(pat, p, st);
    } else if c == '.' as int {
      TidySingle(st, prev, c, next, c, Any);
    } else if c == '[' as int {
      var q := ReadBracket(pat, p, st).value.1;
      TidySingle(st, prev, c, Peek(pat, q), Peek(pat, q - 1), ReadBracket(pat, p, st).value.0.top.current.last);
    } else if c == '\\' as int {
      TidyEscape(pat, p + 1, st);
    } else {
      TidyChar(st, prev, c, c, next);
    }
  }

  lemma {:induction false} TidyFrom(pat: seq<Byte>, p: nat, st: Parsing)
    requires p <= |pat| && PlainFrom(pat, p, st) && TidyState(st, Peek(pat, p - 1), Peek(pat, p)) && ReadFrom(pat, p, st).Ok?
    ensures FlatAlts(ReadFrom(pat, p, st).value) && ProperLoopsAlts(ReadFrom(pat, p, st).value)
    decreases |pat| - p
  {
    if p < |pat| {
      TidyOne(pat, p, st);
      var (st', q) := ReadOne(pat, p, st).value;
      TidyFrom(pat, q, st');
    }
  }

  /** In a plain pattern only single characters are repeated. */
  lemma PlainIsFlat(pat: seq<Byte>)
    requires Plain(pat) && Parse(pat).Ok?
    ensures FlatAlts(Parse(pat).value) && ProperLoopsAlts(Parse(pat).value)
  {
    TidyFrom(pat, 0, Nothing);
  }

  // ---- Plain patterns are safe ----

  lemma {:induction false} FlatIsGroupFree(e: Seq)
    requires Flat(e)
    ensures GroupFree(e)
  {
    if e.Snoc? {
      FlatIsGroupFree(e.init);
      if e.last.Repeat? {
        FlatIsGroupFree(e.last.body);
      }
    }
  }

  lemma {:induction false} FlatAltsAreGroupFree(e: Alts)
    requires FlatAlts(e)
    ensures GroupFreeAlts(e)
  {
    match e
    case One(only) => FlatIsGroupFree(only);
    case More(others, final) =>
      FlatAltsAreGroupFree(others);
      FlatIsGroupFree(final);
  }

  /** The jump back at j belongs to a loop over a seven-bit character or a set. */
  predicate PlainLoop(code: seq<Byte>, j: nat) {
    && j + 3 <= |code| && 0 <= Target(code, j)
    && var q := Target(code, j) + 3;
       && Demands(code, q) && code[q] != ENDLINE && StraightAt(code, q, j)
       && (code[q] == EXACTN ==> code[q + 2] < 128)
  }

  ghost predicate PlainLoops(code: seq<Byte>, a: nat, b: nat) {
    forall i: nat {:trigger Boundary(code, a, i)} ::
      Boundary(code, a, i) && i < b && i < |code| && code[i] == MAYBE_FINALIZE_JUMP ==> PlainLoop(code, i)
  }

  lemma LoopsConcat(code: seq<Byte>, a: nat, b: nat, c: nat)
    requires PlainLoops(code, a, b) && PlainLoops(code, b, c) && Boundary(code, a, b)
    ensures PlainLoops(code, a, c)
  {
    forall i: nat {:trigger Boundary(code, a, i)} | Boundary(code, a, i) && i < c && i < |code| && code[i] == MAYBE_FINALIZE_JUMP
      ensures PlainLoop(code, i)
    {
      if b <= i {
        BoundaryLinear(code, a, b, i);
      }
    }
  }

  lemma LoopsOne(code: seq<Byte>, a: nat, b: nat)
    requires Decodes(code, a) && b <= a + CommandSize(code, a) && (code[a] == MAYBE_FINALIZE_JUMP ==> PlainLoop(code, a))
    ensures PlainLoops(code, a, b)
  {
    forall i: nat {:trigger Boundary(code, a, i)} | Boundary(code, a, i) && i < b ensures i == a {
      if i != a {
        BoundaryBounds(code, a + CommandSize(code, a), i);
      }
    }
  }

  lemma LoopsNone(code: seq<Byte>, a: nat)
    ensures PlainLoops(code, a, a)
  {
    forall i: nat {:trigger Boundary(code, a, i)} | Boundary(code, a, i) && i < a ensures false {
      BoundaryBounds(code, a, i);
    }
  }

  lemma {:induction false} StraightOn(code: seq<Byte>, q: nat, mid: nat)
    requires StraightAt(code, q, mid) && Decodes(code, mid) && !IsJumpOp(code[mid])
    ensures StraightAt(code, q, mid + CommandSize(code, mid))
    decreases mid - q
  {
    if q == mid {
      assert StraightAt(code, mid + CommandSize(code, mid), mid + CommandSize(code, mid));
    } else {
      StraightOn(code, q + CommandSize(code, q), mid);
    }
  }

  /** The code of a simple body. */
  lemma {:induction false} SimpleCode(code: seq<Byte>, e: Seq, a: nat)
    requires WellFormed(e) && SimpleBody(e) && At(code, a, SeqCode(e))
    ensures Demands(code, a) && code[a] != ENDLINE && StraightAt(code, a, a + |SeqCode(e)|)
    ensures code[a] == EXACTN ==> code[a + 2] < 128
  {
    var mid := a + |SeqCode(e.init)|;
    AtSplit(code, a, SeqCode(e.init), ItemCode(e.last));
    if e.last.Test? {
      SimpleCode(code, e.init, a);
      AtByte(code, mid, ItemCode(e.last), 0);
      StraightOn(code, a, mid);
    } else {
      E.StartsAs(code, a, e.last);
      AtByte(code, a, ItemCode(e.last), 0);
      if e.last.Chars? {
        AtByte(code, a, ItemCode(e.last), 2);
      }
      assert StraightAt(code, a + |ItemCode(e.last)|, a + |ItemCode(e.last)|);
    }
  }

  lemma {:induction false} SeqLoops(code: seq<Byte>, e: Seq, a: nat)
    requires WellFormed(e) && Flat(e) && At(code, a, SeqCode(e)) && |code| <= MAX_CODE
    ensures PlainLoops(code, a, a + |SeqCode(e)|)
    decreases e, 0
  {
    match e
    case Nil => LoopsNone(code, a);
    case Snoc(init, last) =>
      var mid := a + |SeqCode(init)|;
      AtSplit(code, a, SeqCode(init), ItemCode(last));
      SeqLoops(code, init, a);
      ItemLoops(code, last, mid);
      SeqClosed(code, init, a, false);
      LoopsConcat(code, a, mid, mid + |ItemCode(last)|);
  }

  lemma {:induction false} ItemLoops(code: seq<Byte>, e: Item, a: nat)
    requires WellFormedItem(e) && FlatItem(e) && At(code, a, ItemCode(e)) && |code| <= MAX_CODE
    ensures PlainLoops(code, a, a + |ItemCode(e)|)
    decreases e, 0
  {
    hide At, PlainLoops, SeqCode, RepeatCode, CommandOk, StraightAt;
    if e.Repeat? {
      var p := C.LoopLayout(code, a, e.zero, e.many, SeqCode(e.body));
      SeqLoops(code, e.body, p + 3);
      SeqClosed(code, e.body, p + 3, false);
      if e.many {
        SimpleCode(code, e.body, p + 3);
      }
      RepeatLoops(code, e.zero, e.many, SeqCode(e.body), a, p, a + |ItemCode(e)|);
    } else {
      C.SingleStep(C.Sys(code, [], {}, (c, r) => false), e, a, 0, []);
      SingleSize(code, e, a);
      LoopsOne(code, a, a + |ItemCode(e)|);
    }
  }

  lemma RepeatLoops(code: seq<Byte>, zero: bool, many: bool, body: seq<Byte>, a: nat, p: nat, b: nat)
    requires C.LoopAt(code, a, p, b, zero, many, body)
    requires PlainLoops(code, p + 3, p + 3 + |body|) && Boundary(code, p + 3, p + 3 + |body|)
    requires many ==> Demands(code, p + 3) && code[p + 3] != ENDLINE && StraightAt(code, p + 3, p + 3 + |body|)
    requires many ==> (code[p + 3] == EXACTN ==> code[p + 5] < 128)
    ensures PlainLoops(code, a, b)
  {
    hide PlainLoops, At;
    var q := p + 3 + |body|;
    assert Decodes(code, p) && CommandSize(code, p) == 3;
    LoopsOne(code, p, p + 3);
    assert Boundary(code, p, p + 3) by {
      assert Boundary(code, p + 3, p + 3);
    }
    if many {
      LoopsOne(code, q, b);
      LoopsConcat(code, p + 3, q, b);
    }
    LoopsConcat(code, p, p + 3, b);
    if !zero {
      LoopsOne(code, a, p);
      assert Boundary(code, a, p) by {
        assert Boundary(code, p, p);
      }
      LoopsConcat(code, a, p, b);
    }
  }

  lemma {:induction false} AltsLoops(code: seq<Byte>, e: Alts, a: nat)
    requires WellFormedAlts(e) && FlatAlts(e) && At(code, a, AltsCode(e)) && |code| <= MAX_CODE
    ensures PlainLoops(code, a, a + |AltsCode(e)|)
    decreases e, 1
  {
    if e.One? {
      SeqLoops(code, e.only, a);
    } else {
      var n := |SeqCode(e.final)|;
      var mid := C.AltsLayout(code, a, e.others, e.final);
      hide At, PlainLoops, SeqCode;
      SeqLoops(code, e.final, mid);
      PrefixLoops(code, e.others, a, mid, mid + n);
      PrefixClosed(code, e.others, a, mid, mid + n, false);
      LoopsConcat(code, a, mid, mid + n);
    }
  }

  lemma {:induction false} PrefixLoops(code: seq<Byte>, e: Alts, a: nat, b: nat, t: nat)
    requires WellFormedAlts(e) && FlatAlts(e) && |code| <= MAX_CODE && b <= t <= |code|
    requires At(code, a, PrefixCode(e, t - b)) && b == a + |PrefixCode(e, t - b)|
    ensures PlainLoops(code, a, b)
    decreases e, 1
  {
    hide At, PlainLoops, SeqCode, PrefixCode, GuardedCode, Boundary;
    if e.One? {
      OnlyPrefix(e.only, t - b);
      AlternativeLoops(code, e.only, a, t);
    } else {
      var mid := C.PrefixLayout(code, a, b, e.others, e.final, t);
      AlternativeLoops(code, e.final, mid, t);
      PrefixLoops(code, e.others, a, mid, b - 3);
      PrefixClosed(code, e.others, a, mid, b - 3, false);
      LoopsConcat(code, a, mid, b);
    }
  }

  lemma {:induction false} AlternativeLoops(code: seq<Byte>, e: Seq, a: nat, t: nat)
    requires WellFormed(e) && Flat(e) && |code| <= MAX_CODE && a + |SeqCode(e)| + 6 <= t <= |code|
    requires At(code, a, GuardedCode(SeqCode(e)) + Jump(JUMP, t - (a + |SeqCode(e)| + 6)))
    ensures PlainLoops(code, a, a + |SeqCode(e)| + 6)
    decreases e, 1
  {
    var q := a + |SeqCode(e)| + 3;
    C.GuardLayout(code, a, SeqCode(e), t);
    hide At, PlainLoops, SeqCode, GuardedCode;
    SeqLoops(code, e, a + 3);
    SeqClosed(code, e, a + 3, false);
    assert Decodes(code, a) && CommandSize(code, a) == 3 && Decodes(code, q) && CommandSize(code, q) == 3;
    LoopsOne(code, a, a + 3);
    LoopsOne(code, q, q + 3);
    LoopsConcat(code, a + 3, q, q + 3);
    assert Boundary(code, a, a + 3) by {
      assert Boundary(code, a + 3, a + 3);
    }
    LoopsConcat(code, a, a + 3, q + 3);
  }

  /** A loop over a seven-bit character or a set, behind which no memory command stands,
      may drop whenever the code decides to. */
  lemma PlainDrop(code: seq<Byte>, j: nat)
    requires Compiled(code, true) && Boundary(code, 0, j) && j < |code| && code[j] == MAYBE_FINALIZE_JUMP
    requires PlainLoop(code, j) && MayBecome(code, j, FINALIZE_JUMP)
    ensures LegalDrop(code, j)
  {
    F.SteadyAt(code, j);
    assert Finalizes(code, j);
    assert CommandOk(code, 0, |code|, |code|, true, j);
    BoundaryNext(code, 0, j);
    if j + 3 < |code| {
      assert CommandOk(code, 0, |code|, |code|, true, j + 3);
      E.DecisionIsRight(code, j);
    }
  }

  lemma FlatIsSafe(e: Alts)
    requires WellFormedAlts(e) && FlatAlts(e) && |AltsCode(e)| <= MAX_CODE
    ensures SafeProgram(AltsCode(e))
  {
    var code := AltsCode(e);
    AtSlice(code, 0, code);
    AltsLoops(code, e, 0);
    FlatAltsAreGroupFree(e);
    ProgramCompiled(e);
    hide AltsCode, LegalDrop, PlainLoop, Compiled;
    forall j: nat {:trigger MayBecome(code, j, FINALIZE_JUMP)}
      | Boundary(code, 0, j) && j < |code| && code[j] == MAYBE_FINALIZE_JUMP && MayBecome(code, j, FINALIZE_JUMP)
      ensures LegalDrop(code, j)
    {
      PlainDrop(code, j);
    }
  }

  /** So the matcher can be trusted with every plain pattern. */
  lemma PlainIsTrusted(pat: seq<Byte>)
    requires Plain(pat) && Parse(pat).Ok?
    ensures var e := Parse(pat).value;
            && ProperLoopsAlts(e) && GroupFreeAlts(e)
            && (WellFormedAlts(e) && |AltsCode(e)| <= MAX_CODE ==> Trusted(e))
  {
    var e := Parse(pat).value;
    PlainIsFlat(pat);
    FlatAltsAreGroupFree(e);
    if WellFormedAlts(e) && |AltsCode(e)| <= MAX_CODE {
      FlatIsSafe(e);
    }
  }
}
