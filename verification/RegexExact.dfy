/** When dropping failure points is harmless, exactly.  A loop over one character that
    drops comes to its longest repetition only; that is all there is to lose, and nothing
    is lost just when no character can both start the operand and what follows.  What
    the code decides is a different matter: it compares through a signed character, and
    past a memory command it compares the wrong byte. */
module RegexExact {
  import opened RegexSyntax
  import opened RegexCode
  import opened RegexDrops
  import opened RegexMachine
  import C = RegexCorrect
  import L = RegexLanguage

  // ---- What the code decides, against what would be right ----

  /** The character that the command at b demands. */
  function NextChar(code: seq<Byte>, b: nat): Byte
    requires b < |code|
  {
    if code[b] == ENDLINE then NEWLINE else Peek(code, b + 2)
  }

  /** When a loop that no memory command follows is finalized, what follows refuses what
      can start the operand, except for one eight-bit character before itself. */
  lemma DecisionIsRight(code: seq<Byte>, j: nat)
    requires j + 3 < |code| && 0 <= Target(code, j)
    requires Demands(code, Target(code, j) + 3) && code[Target(code, j) + 3] != ENDLINE
    requires Decodes(code, j + 3) && code[j + 3] != START_MEMORY && code[j + 3] != STOP_MEMORY
    requires Finalizes(code, j)
    ensures Demands(code, j + 3)
    ensures var q := Target(code, j) + 3;
            (Refuses(code, q, j + 3) <==> !(code[q] == EXACTN && code[q + 2] == NextChar(code, j + 3) && code[q + 2] >= 128))
  {
    var q, b := Target(code, j) + 3, j + 3;
    var c := NextChar(code, b);
    assert SkipMemory(code, b) == b && AfterMemory(code, b) == b;
    assert SeenToRefuse(code, Target(code, j), c);
    StartsOnly(code, b);
    SeenMeans(code, q, c);
    if !Starts(code, q, c) {
      forall c': Byte {:trigger Starts(code, q, c')} | Starts(code, q, c') ensures !Starts(code, b, c') {
      }
    }
  }

  lemma StartsOnly(code: seq<Byte>, b: nat)
    requires Demands(code, b) && (code[b] == EXACTN || code[b] == ENDLINE)
    ensures forall c: Byte :: Starts(code, b, c) <==> c == NextChar(code, b)
  {
  }

  /** What is seen is right except for strings that start with an eight-bit character. */
  lemma SeenMeans(code: seq<Byte>, q: nat, c: Byte)
    requires 3 <= q && Demands(code, q) && code[q] != ENDLINE && SeenToRefuse(code, q - 3, c)
    ensures Starts(code, q, c) <==> code[q] == EXACTN && code[q + 2] == c && c >= 128
  {
    if code[q] == CHARSET || code[q] == CHARSET_NOT {
      var bits := code[q + 2..q + 2 + code[q + 1]];
      if c < 8 * |bits| {
        assert bits[c / 8] == code[q + 2 + c / 8];
      }
    }
  }

  /** Past a memory command the register number is taken for an opcode: only registers 1
      and 3 are, and then the byte behind the next opcode, or a newline, is looked for. */
  lemma MemoryDecides(code: seq<Byte>, j: nat)
    requires j + 5 <= |code| && (code[j + 3] == START_MEMORY || code[j + 3] == STOP_MEMORY)
    requires code[j + 4] != START_MEMORY && code[j + 4] != STOP_MEMORY
    ensures Finalizes(code, j) <==> (
              || (code[j + 4] == 1 && SeenToRefuse(code, Target(code, j), Peek(code, j + 6)))
              || (code[j + 4] == 3 && SeenToRefuse(code, Target(code, j), NEWLINE)))
  {
    assert SkipMemory(code, j + 3) == SkipMemory(code, j + 4) == j + 4;
  }

  // ---- A repetition before a demand, for all texts and continuations ----

  /** A single character. */
  predicate OneChar(e: Item) {
    IsSingle(e) || (e.Chars? && |e.chars| == 1)
  }

  predicate DemandItem(e: Item) {
    IsSingle(e) || (e.Chars? && |e.chars| >= 1) || e == Test(ENDLINE)
  }

  predicate CanStart(e: Item, c: Byte)
    requires DemandItem(e)
  {
    if e.Chars? then e.chars[0] == c else if e.Test? then c == NEWLINE else Accepts(e, c)
  }

  predicate Apart(x: Item, y: Item)
    requires DemandItem(x) && DemandItem(y)
  {
    forall c: Byte {:trigger CanStart(x, c)} :: CanStart(x, c) ==> !CanStart(y, c)
  }

  /** Trying y and k after every number of repetitions, or after the most only. */
  ghost predicate SameOutcome(x: Item, y: Item, s: seq<Byte>, d: nat, k: C.Cont, rho: Outcome)
    requires d <= |s|
  {
    var body := Snoc(Nil, x);
    C.Fold(C.LoopEnds(body, s, d) + [d], C.ThroughItem(y, s, k), rho)
      == C.ThroughItem(y, s, k)(C.Longest(body, s, d), rho)
  }

  lemma OneCharMatches(x: Item, s: seq<Byte>, d: nat)
    requires OneChar(x) && d <= |s|
    ensures DemandItem(x)
    ensures Matches(Snoc(Nil, x), s, d) == if d < |s| && CanStart(x, s[d]) then [d + 1] else []
  {
    MatchesSnoc(Nil, x, s, d);
    OneCharItem(x, s, d);
    hide MatchesItem, Accepts;
  }

  lemma OneCharItem(x: Item, s: seq<Byte>, d: nat)
    requires OneChar(x) && d <= |s|
    ensures DemandItem(x)
    ensures MatchesItem(x, s, d) == if d < |s| && CanStart(x, s[d]) then [d + 1] else []
  {
    if x.Chars? && d < |s| {
      assert s[d..d + 1] == [s[d]];
    }
  }

  lemma Unfolds(x: Item, s: seq<Byte>, d: nat)
    requires OneChar(x) && d < |s| && DemandItem(x) && CanStart(x, s[d])
    ensures C.LoopEnds(Snoc(Nil, x), s, d) == C.LoopEnds(Snoc(Nil, x), s, d + 1) + [d + 1]
    ensures C.Longest(Snoc(Nil, x), s, d) == C.Longest(Snoc(Nil, x), s, d + 1)
  {
    var body := Snoc(Nil, x);
    OneCharMatches(x, s, d);
    C.LoopUnfold(body, s, d);
    assert ThenLoop(body, s, d, Matches(body, s, d)[1..]) == [];
  }

  lemma Stops(x: Item, s: seq<Byte>, d: nat)
    requires OneChar(x) && d <= |s| && DemandItem(x) && (d < |s| ==> !CanStart(x, s[d]))
    ensures C.LoopEnds(Snoc(Nil, x), s, d) == [] && C.Longest(Snoc(Nil, x), s, d) == d
  {
    OneCharMatches(x, s, d);
  }

  lemma DemandFails(y: Item, s: seq<Byte>, d: nat)
    requires DemandItem(y) && d < |s| && !CanStart(y, s[d])
    ensures MatchesItem(y, s, d) == []
  {
    if y.Chars? && d + |y.chars| <= |s| {
      assert s[d..d + |y.chars|][0] == s[d];
    }
  }

  lemma {:induction false} ApartIsEnough(x: Item, y: Item, s: seq<Byte>, d: nat, k: C.Cont, rho: Outcome)
    requires OneChar(x) && DemandItem(x) && DemandItem(y) && Apart(x, y) && d <= |s|
    ensures SameOutcome(x, y, s, d, k, rho)
    decreases |s| - d
  {
    var body, k' := Snoc(Nil, x), C.ThroughItem(y, s, k);
    assert C.Fold([d], k', rho) == k'(d, C.Fold([], k', rho));
    if d < |s| && CanStart(x, s[d]) {
      Unfolds(x, s, d);
      DemandFails(y, s, d);
      C.FoldAppend(C.LoopEnds(body, s, d), [d], k', rho);
      ApartIsEnough(x, y, s, d + 1, k, rho);
    } else {
      Stops(x, s, d);
      assert C.LoopEnds(body, s, d) + [d] == [d];
    }
  }

  /** Where y ends when it stands at the start of `Witness`. */
  function WitnessEnd(y: Item): nat
    requires DemandItem(y)
  {
    if y.Chars? then |y.chars| else if y.Test? then 0 else 1
  }

  /** A text on which y fits at the start, or in front of it, and nowhere else. */
  function Witness(y: Item, c: Byte): seq<Byte>
    requires DemandItem(y)
  {
    if y.Chars? then y.chars else [c]
  }

  ghost function WitnessCont(y: Item): C.Cont
    requires DemandItem(y)
  {
    (j: nat, r: Outcome) => if j == WitnessEnd(y) then Match(j) else r
  }

  /** If one character can start both, the most repetitions can be too many. */
  lemma SharedIsTooMuch(x: Item, y: Item, c: Byte)
    requires OneChar(x) && DemandItem(x) && DemandItem(y) && CanStart(x, c) && CanStart(y, c)
    ensures !SameOutcome(x, y, Witness(y, c), 0, WitnessCont(y), NoMatch)
  {
    var s, k := Witness(y, c), WitnessCont(y);
    var body, k' := Snoc(Nil, x), C.ThroughItem(y, s, k);
    Unfolds(x, s, 0);
    var ends := C.LoopEnds(body, s, 0);
    LongestWithin(x, s, 0);
    C.FoldAppend(ends, [0], k', NoMatch);
    assert C.Fold([0], k', NoMatch) == k'(0, C.Fold([], k', NoMatch));
    WitnessFits(y, c);
    AllFail(y, c, ends, k'(0, NoMatch));
    AllFail(y, c, [C.Longest(body, s, 0)], NoMatch);
    assert C.Fold([C.Longest(body, s, 0)], k', NoMatch) == k'(C.Longest(body, s, 0), C.Fold([], k', NoMatch));
  }

  lemma WitnessFits(y: Item, c: Byte)
    requires DemandItem(y) && CanStart(y, c)
    ensures C.ThroughItem(y, Witness(y, c), WitnessCont(y))(0, NoMatch) == Match(WitnessEnd(y))
  {
    var s, k := Witness(y, c), WitnessCont(y);
    var ends := MatchesItem(y, s, 0);
    assert ends == [WitnessEnd(y)] by {
      if y.Chars? {
        assert s[0..|y.chars|] == y.chars;
      }
    }
    assert C.Fold(ends, k, NoMatch) == k(ends[0], C.Fold([], k, NoMatch));
  }

  lemma {:induction false} AllFail(y: Item, c: Byte, ends: seq<nat>, r: Outcome)
    requires DemandItem(y) && Within(ends, 1, |Witness(y, c)|)
    ensures C.Fold(ends, C.ThroughItem(y, Witness(y, c), WitnessCont(y)), r) == r
    decreases |ends|
  {
    if ends != [] {
      var s, k := Witness(y, c), WitnessCont(y);
      AllFail(y, c, ends[1..], r);
      var late := MatchesItem(y, s, ends[0]);
      if y.Test? && late != [] {
        assert C.Fold(late, k, r) == k(late[0], C.Fold([], k, r));
      }
    }
  }

  lemma {:induction false} LongestWithin(x: Item, s: seq<Byte>, d: nat)
    requires OneChar(x) && d < |s| && DemandItem(x) && CanStart(x, s[d])
    ensures d < C.Longest(Snoc(Nil, x), s, d) <= |s| && Within(C.LoopEnds(Snoc(Nil, x), s, d), d + 1, |s|)
    decreases |s| - d
  {
    Unfolds(x, s, d);
    if d + 1 < |s| && CanStart(x, s[d + 1]) {
      LongestWithin(x, s, d + 1);
    } else {
      Stops(x, s, d + 1);
    }
  }

  /** A loop over one character may drop, whatever the text, the position and what comes
      after the next demand, if and only if no character can start both. */
  lemma DroppingIsExact(x: Item, y: Item)
    requires OneChar(x) && DemandItem(x) && DemandItem(y)
    ensures Apart(x, y)
       <==> forall s: seq<Byte>, d: nat, k: C.Cont, rho: Outcome :: d <= |s| ==> SameOutcome(x, y, s, d, k, rho)
  {
    if Apart(x, y) {
      forall s: seq<Byte>, d: nat, k: C.Cont, rho: Outcome | d <= |s| ensures SameOutcome(x, y, s, d, k, rho) {
        ApartIsEnough(x, y, s, d, k, rho);
      }
    } else {
      var c: Byte :| CanStart(x, c) && CanStart(y, c);
      SharedIsTooMuch(x, y, c);
    }
  }

  // ---- Whole patterns: a repetition before a demand, in a group or not ----

  function Star(x: Item): Item {
    Repeat(true, true, Snoc(Nil, x))
  }

  /** x*y */
  function StarThen(x: Item, y: Item): Alts {
    One(Snoc(Snoc(Nil, Star(x)), y))
  }

  /** \(x*\)y, the group having this number */
  function GroupThen(reg: Byte, x: Item, y: Item): Alts {
    One(Snoc(Snoc(Snoc(Nil, StartMem(reg)), Group(reg, One(Snoc(Nil, Star(x))))), y))
  }

  /** Whether these drops change no result, for any text. */
  ghost predicate SameResults(code: seq<Byte>, drops: set<nat>) {
    forall s: seq<Byte>, d: nat, r: Outcome :: d <= |s| ==>
      (Evals(Machine(code, s, drops), Running(0, d, []), r) <==> Evals(Machine(code, s, {}), Running(0, d, []), r))
  }

  /** The repetition of x is at p, and behind its exit at b, and perhaps a memory
      command, comes y to the end. */
  ghost predicate Layout(code: seq<Byte>, x: Item, y: Item, p: nat, b: nat) {
    && OneChar(x) && WellFormedItem(x) && DemandItem(x)
    && DemandItem(y) && !y.Test? && WellFormedItem(y)
    && |code| <= MAX_CODE
    && C.LoopAt(code, p, p, b, true, true, ItemCode(x))
    && var z := AfterMemory(code, b); At(code, z, ItemCode(y)) && z + |ItemCode(y)| == |code|
  }

  lemma StartsAs(code: seq<Byte>, a: nat, e: Item)
    requires WellFormedItem(e) && DemandItem(e) && At(code, a, ItemCode(e))
    ensures Demands(code, a) && !IsJumpOp(code[a]) && CommandSize(code, a) == |ItemCode(e)| && (code[a] == ENDLINE <==> e.Test?)
    ensures forall c: Byte {:trigger CanStart(e, c)} :: Starts(code, a, c) <==> CanStart(e, c)
  {
    AtByte(code, a, ItemCode(e), 0);
    if e.Chars? {
      AtByte(code, a, ItemCode(e), 1);
      AtByte(code, a, ItemCode(e), 2);
    } else if e.CharSet? {
      AtByte(code, a, ItemCode(e), 1);
      assert ItemCode(e) == ItemCode(e)[..2] + e.bits;
      AtSplit(code, a, ItemCode(e)[..2], e.bits);
      AtSlice(code, a + 2, e.bits);
    }
  }

  lemma LayoutRefuses(code: seq<Byte>, x: Item, y: Item, p: nat, b: nat)
    requires Layout(code, x, y, p, b)
    ensures 3 <= b && StraightAt(code, p + 3, b - 3)
    ensures Demands(code, p + 3) && code[p + 3] != ENDLINE
    ensures Refuses(code, p + 3, b) <==> Apart(x, y)
  {
    StartsAs(code, p + 3, x);
    var z := AfterMemory(code, b);
    StartsAs(code, z, y);
    assert StraightAt(code, b - 3, b - 3);
    if Apart(x, y) {
      forall c: Byte {:trigger Starts(code, p + 3, c)} | Starts(code, p + 3, c) ensures !Starts(code, z, c) {
        assert CanStart(x, c);
      }
    } else {
      var c: Byte :| CanStart(x, c) && CanStart(y, c);
      assert Starts(code, p + 3, c) && Starts(code, z, c);
    }
  }

  /** With its points dropped the repetition tries y after the most repetitions only. */
  lemma DroppedTries(code: seq<Byte>, x: Item, y: Item, p: nat, b: nat, s: seq<Byte>, drops: set<nat>)
    requires Layout(code, x, y, p, b) && b - 3 in drops
    ensures var g := C.Longest(Snoc(Nil, x), s, 0);
            MatchesItem(y, s, g) == [] ==> Evals(Machine(code, s, drops), Running(p, 0, []), NoMatch)
  {
    var m, body := C.System(Machine(code, s, drops)), Snoc(Nil, x);
    var g := C.Longest(body, s, 0);
    if MatchesItem(y, s, g) == [] {
      C.SystemIsLawful(Machine(code, s, drops));
      C.EvalsDone(m, NoMatch);
      C.EvalsStep(m, Failing([]), NoMatch);
      var k := C.ThroughItem(y, s, (j: nat, r: Outcome) => Match(j));
      DemandRuns(m, y, b);
      SingleLoop(x, code, p, b);
      C.LoopDropped(m, body, p, b, 0, 0, [], k, NoMatch);
      assert k(g, NoMatch) == NoMatch;
    }
  }

  lemma SingleLoop(x: Item, code: seq<Byte>, p: nat, b: nat)
    requires OneChar(x) && WellFormedItem(x) && C.LoopAt(code, p, p, b, true, true, ItemCode(x))
    ensures var body := Snoc(Nil, x);
            && WellFormed(body) && ProperLoops(body) && !Nullable(body) && Straight(body)
            && SeqCode(body) == ItemCode(x)
  {
    assert SeqCode(Nil) + ItemCode(x) == ItemCode(x);
  }

  /** What running from the exit of the repetition comes to. */
  lemma DemandRuns(m: C.Sys, y: Item, b: nat)
    requires C.Lawful(m) && DemandItem(y) && !y.Test? && WellFormedItem(y) && b <= |m.code|
    requires var z := AfterMemory(m.code, b); At(m.code, z, ItemCode(y)) && z + |ItemCode(y)| == |m.code|
    ensures C.ContFrom(m, b, C.ThroughItem(y, m.text, (j: nat, r: Outcome) => Match(j)), 0)
  {
    var z := AfterMemory(m.code, b);
    var end: C.Cont := (j: nat, r: Outcome) => Match(j);
    var k := C.ThroughItem(y, m.text, end);
    forall d: nat, stack: seq<Point>, rho: Outcome {:trigger C.ContAt(m, b, k, d, stack, rho)} | 0 <= d <= |m.text|
      ensures C.ContAt(m, b, k, d, stack, rho)
    {
      if C.Evals(m, Failing(stack), rho) {
        var ends := MatchesItem(y, m.text, d);
        C.SingleStep(m, y, z, d, stack);
        if ends != [] {
          C.EvalsDone(m, Match(ends[0]));
          C.EvalsStep(m, Running(|m.code|, ends[0], stack), Match(ends[0]));
          assert C.Fold(ends, end, rho) == end(ends[0], C.Fold(ends[1..], end, rho));
        }
        C.EvalsStep(m, Running(z, d, stack), k(d, rho));
        C.PastMemory(m, b, d, stack, k(d, rho));
      }
    }
  }

  lemma TooLate(y: Item, c: Byte, g: nat)
    requires DemandItem(y) && !y.Test? && 1 <= g <= |Witness(y, c)|
    ensures MatchesItem(y, Witness(y, c), g) == []
  {
  }

  lemma StarEmpty(x: Item, s: seq<Byte>)
    ensures Lang(Snoc(Nil, Star(x)), s, 0, 0)
  {
    assert LangItem(Star(x), s, 0, 0);
    assert Lang(Nil, s, 0, 0) && Cut(0, 0, 0);
  }

  lemma Then(e: Seq, y: Item, s: seq<Byte>, n: nat)
    requires Lang(e, s, 0, 0) && LangItem(y, s, 0, n)
    ensures Lang(Snoc(e, y), s, 0, n)
  {
    assert Cut(0, 0, n);
  }

  lemma WitnessIs(y: Item, c: Byte)
    requires DemandItem(y) && !y.Test? && CanStart(y, c)
    ensures LangItem(y, Witness(y, c), 0, |Witness(y, c)|)
  {
    if y.Chars? {
      assert y.chars[0..|y.chars|] == y.chars;
    }
  }

  lemma LangFound(e: Alts, s: seq<Byte>, n: nat)
    requires WellFormedAlts(e) && ProperLoopsAlts(e) && LangAlts(e, s, 0, n)
    ensures L.Expected(e, s, 0) != NoMatch
  {
    hide LangAlts, L.Expected;
    L.ExpectedIsLang(e, s, 0);
  }

  /** On the witness the pattern matches, repeating nothing. */
  lemma StarMatches(x: Item, y: Item, c: Byte)
    requires WellFormedAlts(StarThen(x, y)) && ProperLoopsAlts(StarThen(x, y)) && DemandItem(y) && !y.Test? && CanStart(y, c)
    ensures L.Expected(StarThen(x, y), Witness(y, c), 0) != NoMatch
  {
    var s := Witness(y, c);
    WitnessIs(y, c);
    StarEmpty(x, s);
    Then(Snoc(Nil, Star(x)), y, s, |s|);
    hide Lang, LangItem, L.Expected;
    LangFound(StarThen(x, y), s, |s|);
  }

  lemma Opening(reg: Byte, s: seq<Byte>)
    ensures Lang(Snoc(Nil, StartMem(reg)), s, 0, 0)
  {
    assert Lang(Nil, s, 0, 0) && LangItem(StartMem(reg), s, 0, 0);
    Then(Nil, StartMem(reg), s, 0);
  }

  lemma GroupEmpty(reg: Byte, inner: Seq, s: seq<Byte>)
    requires Lang(inner, s, 0, 0)
    ensures LangItem(Group(reg, One(inner)), s, 0, 0)
  {
    assert LangAlts(One(inner), s, 0, 0);
  }

  lemma GroupMatches(reg: Byte, x: Item, y: Item, c: Byte)
    requires WellFormedAlts(GroupThen(reg, x, y)) && ProperLoopsAlts(GroupThen(reg, x, y))
    requires DemandItem(y) && !y.Test? && CanStart(y, c)
    ensures L.Expected(GroupThen(reg, x, y), Witness(y, c), 0) != NoMatch
  {
    var e, s := GroupThen(reg, x, y), Witness(y, c);
    var inner, group := Snoc(Nil, Star(x)), Group(reg, One(Snoc(Nil, Star(x))));
    WitnessIs(y, c);
    StarEmpty(x, s);
    Opening(reg, s);
    GroupEmpty(reg, inner, s);
    hide Lang, LangItem, L.Expected;
    Then(Snoc(Nil, StartMem(reg)), group, s, 0);
    Then(Snoc(Snoc(Nil, StartMem(reg)), group), y, s, |s|);
    LangFound(e, s, |s|);
  }

  /** The pattern e starts its repetition at p, after at most a memory command. */
  ghost predicate LeadsTo(code: seq<Byte>, p: nat) {
    p == 0 || (p == 2 && |code| >= 2 && code[0] == START_MEMORY)
  }

  lemma ApartChangesNothing(e: Alts, x: Item, y: Item, p: nat, b: nat)
    requires WellFormedAlts(e) && ProperLoopsAlts(e) && Layout(AltsCode(e), x, y, p, b) && Apart(x, y)
    ensures SameResults(AltsCode(e), {b - 3})
  {
    var code := AltsCode(e);
    LayoutRefuses(code, x, y, p, b);
    assert LegalDrop(code, b - 3);
    hide LegalDrop, Apart;
    forall s: seq<Byte>, d: nat, r: Outcome | d <= |s|
      ensures Evals(Machine(code, s, {b - 3}), Running(0, d, []), r) <==> Evals(Machine(code, s, {}), Running(0, d, []), r)
    {
      L.DroppingChangesNothing(e, s, d, {b - 3}, r);
    }
  }

  /** With a text on which the pattern matches, repeating nothing, but not after the
      most repetitions. */
  lemma SharedChanges(e: Alts, x: Item, y: Item, p: nat, b: nat, c: Byte)
    requires WellFormedAlts(e) && ProperLoopsAlts(e) && Layout(AltsCode(e), x, y, p, b) && LeadsTo(AltsCode(e), p)
    requires CanStart(x, c) && CanStart(y, c) && L.Expected(e, Witness(y, c), 0) != NoMatch
    ensures !SameResults(AltsCode(e), {b - 3})
  {
    var code, s := AltsCode(e), Witness(y, c);
    L.ProgramRuns(e, s, 0, {});
    LongestWithin(x, s, 0);
    TooLate(y, c, C.Longest(Snoc(Nil, x), s, 0));
    var m := Machine(code, s, {b - 3});
    DroppedTries(code, x, y, p, b, s, {b - 3});
    hide Layout, CanStart, MatchesItem, L.Expected;
    if p == 2 {
      EvalsStep(m, Running(0, 0, []), NoMatch);
    }
    if Evals(Machine(code, s, {}), Running(0, 0, []), NoMatch) {
      EvalsUnique(Machine(code, s, {}), Running(0, 0, []), NoMatch, L.Expected(e, s, 0));
    }
  }

  lemma StarWell(x: Item)
    requires OneChar(x) && WellFormedItem(x)
    ensures WellFormedItem(Star(x)) && ProperLoopsItem(Star(x)) && ItemCode(Star(x)) == RepeatCode(true, true, ItemCode(x))
    ensures WellFormed(Snoc(Nil, Star(x))) && ProperLoops(Snoc(Nil, Star(x))) && SeqCode(Snoc(Nil, Star(x))) == ItemCode(Star(x))
    ensures |ItemCode(Star(x))| == 6 + |ItemCode(x)| <= 135
  {
    var body := Snoc(Nil, x);
    assert WellFormed(Nil) && ProperLoops(Nil) && ProperLoopsItem(x) && !NullableItem(x);
    assert WellFormed(body) && ProperLoops(body) && !Nullable(body);
    assert SeqCode(Nil) + ItemCode(x) == ItemCode(x);
    assert SeqCode(Nil) + ItemCode(Star(x)) == ItemCode(Star(x));
  }

  lemma LoopSize(body: seq<Byte>)
    ensures |RepeatCode(true, true, body)| == 6 + |body|
  {
  }

  lemma Pieces(code: seq<Byte>, lead: seq<Byte>, loop: seq<Byte>, tail: seq<Byte>, last: seq<Byte>)
    requires code == lead + (loop + tail) + last
    ensures At(code, |lead|, loop) && At(code, |lead| + |loop|, tail) && At(code, |lead| + |loop| + |tail|, last)
    ensures |lead| + |loop| + |tail| + |last| == |code|
  {
    AtSlice(code, 0, code);
    AtSplit3(code, 0, lead, loop + tail, last);
    AtSplit(code, |lead|, loop, tail);
  }

  lemma LayoutFrom(code: seq<Byte>, x: Item, y: Item, p: nat, b: nat, tail: seq<Byte>)
    requires OneChar(x) && WellFormedItem(x) && DemandItem(x) && DemandItem(y) && !y.Test? && WellFormedItem(y)
    requires |code| <= MAX_CODE && At(code, p, RepeatCode(true, true, ItemCode(x))) && b == p + 6 + |ItemCode(x)|
    requires At(code, b, tail) && At(code, b + |tail|, ItemCode(y)) && b + |tail| + |ItemCode(y)| == |code|
    requires tail == [] || (|tail| == 2 && tail[0] == STOP_MEMORY)
    ensures Layout(code, x, y, p, b) && AfterMemory(code, b) == b + |tail|
  {
    var z := b + |tail|;
    LoopSize(ItemCode(x));
    var at := C.LoopLayout(code, p, true, true, ItemCode(x));
    hide RepeatCode, At;
    StartsAs(code, z, y);
    hide C.LoopAt, ItemCode, WellFormedItem, Starts;
    assert AfterMemory(code, z) == z;
    if tail != [] {
      AtByte(code, b, tail, 0);
    }
  }

  lemma StarLayout(x: Item, y: Item)
    requires OneChar(x) && WellFormedItem(x) && DemandItem(x) && DemandItem(y) && !y.Test? && WellFormedItem(y)
    ensures WellFormedAlts(StarThen(x, y)) && ProperLoopsAlts(StarThen(x, y))
    ensures var code, b := AltsCode(StarThen(x, y)), 6 + |ItemCode(x)|;
            Layout(code, x, y, 0, b) && At(code, b, ItemCode(y)) && AfterMemory(code, b) == b
  {
    StarCodeIs(x, y);
    var code, b := AltsCode(StarThen(x, y)), 6 + |ItemCode(x)|;
    hide AltsCode, RepeatCode, ItemCode, At, Layout;
    LoopSize(ItemCode(x));
    Pieces(code, [], RepeatCode(true, true, ItemCode(x)), [], ItemCode(y));
    LayoutFrom(code, x, y, 0, b, []);
  }

  lemma StarCodeIs(x: Item, y: Item)
    requires OneChar(x) && WellFormedItem(x) && DemandItem(y) && WellFormedItem(y)
    ensures WellFormedAlts(StarThen(x, y)) && ProperLoopsAlts(StarThen(x, y))
    ensures AltsCode(StarThen(x, y)) == [] + (RepeatCode(true, true, ItemCode(x)) + []) + ItemCode(y)
    ensures |AltsCode(StarThen(x, y))| <= MAX_CODE
  {
    StarWell(x);
    assert ProperLoopsItem(y);
    var e := StarThen(x, y);
    assert WellFormed(e.only) && ProperLoops(e.only);
    assert AltsCode(e) == SeqCode(e.only) == SeqCode(Snoc(Nil, Star(x))) + ItemCode(y);
  }

  lemma GroupLayout(reg: Byte, x: Item, y: Item)
    requires OneChar(x) && WellFormedItem(x) && DemandItem(x) && DemandItem(y) && !y.Test? && WellFormedItem(y)
    ensures WellFormedAlts(GroupThen(reg, x, y)) && ProperLoopsAlts(GroupThen(reg, x, y))
    ensures var code, b := AltsCode(GroupThen(reg, x, y)), 8 + |ItemCode(x)|;
            && Layout(code, x, y, 2, b) && code[0] == START_MEMORY
            && At(code, b, [STOP_MEMORY, reg]) && At(code, b + 2, ItemCode(y))
  {
    GroupWell(reg, x, y);
    var code, b := AltsCode(GroupThen(reg, x, y)), 8 + |ItemCode(x)|;
    hide AltsCode, RepeatCode, ItemCode, At, Layout;
    LoopSize(ItemCode(x));
    Pieces(code, [START_MEMORY, reg], RepeatCode(true, true, ItemCode(x)), [STOP_MEMORY, reg], ItemCode(y));
    LayoutFrom(code, x, y, 2, b, [STOP_MEMORY, reg]);
  }

  lemma GroupWell(reg: Byte, x: Item, y: Item)
    requires OneChar(x) && WellFormedItem(x) && DemandItem(y) && WellFormedItem(y)
    ensures WellFormedAlts(GroupThen(reg, x, y)) && ProperLoopsAlts(GroupThen(reg, x, y))
    ensures AltsCode(GroupThen(reg, x, y))
            == [START_MEMORY, reg] + (RepeatCode(true, true, ItemCode(x)) + [STOP_MEMORY, reg]) + ItemCode(y)
    ensures |AltsCode(GroupThen(reg, x, y))| <= MAX_CODE
  {
    StarWell(x);
    assert ProperLoopsItem(y);
    var start, inner := Snoc(Nil, StartMem(reg)), Snoc(Nil, Star(x));
    var group := Group(reg, One(inner));
    assert WellFormedAlts(One(inner)) && ProperLoopsAlts(One(inner)) && AltsCode(One(inner)) == ItemCode(Star(x));
    assert WellFormedItem(group) && ProperLoopsItem(group) && ItemCode(group) == ItemCode(Star(x)) + [STOP_MEMORY, reg];
    assert WellFormed(Nil) && ProperLoops(Nil) && ProperLoopsItem(StartMem(reg));
    assert ItemCode(StartMem(reg)) == [START_MEMORY, reg] && SeqCode(Nil) + [START_MEMORY, reg] == [START_MEMORY, reg];
    assert WellFormed(start) && ProperLoops(start);
    assert SeqCode(start) == SeqCode(Nil) + ItemCode(StartMem(reg)) == [START_MEMORY, reg];
    var both := Snoc(start, group);
    assert WellFormed(both) && ProperLoops(both) && SeqCode(both) == [START_MEMORY, reg] + ItemCode(group);
    assert WellFormed(Snoc(both, y)) && ProperLoops(Snoc(both, y));
  }

  /** x*y: dropping at the repetition changes no result just when x and y are apart. */
  lemma StarExact(x: Item, y: Item)
    requires OneChar(x) && WellFormedItem(x) && DemandItem(x) && DemandItem(y) && !y.Test? && WellFormedItem(y)
    ensures WellFormedAlts(StarThen(x, y)) && (SameResults(AltsCode(StarThen(x, y)), {3 + |ItemCode(x)|}) <==> Apart(x, y))
  {
    StarLayout(x, y);
    if Apart(x, y) {
      ApartChangesNothing(StarThen(x, y), x, y, 0, 6 + |ItemCode(x)|);
    } else {
      var c: Byte :| CanStart(x, c) && CanStart(y, c);
      StarMatches(x, y, c);
      SharedChanges(StarThen(x, y), x, y, 0, 6 + |ItemCode(x)|, c);
    }
  }

  /** \(x*\)y: so it is with a group around the repetition. */
  lemma GroupExact(reg: Byte, x: Item, y: Item)
    requires OneChar(x) && WellFormedItem(x) && DemandItem(x) && DemandItem(y) && !y.Test? && WellFormedItem(y)
    ensures WellFormedAlts(GroupThen(reg, x, y)) && (SameResults(AltsCode(GroupThen(reg, x, y)), {5 + |ItemCode(x)|}) <==> Apart(x, y))
  {
    GroupLayout(reg, x, y);
    if Apart(x, y) {
      ApartChangesNothing(GroupThen(reg, x, y), x, y, 2, 8 + |ItemCode(x)|);
    } else {
      var c: Byte :| CanStart(x, c) && CanStart(y, c);
      GroupMatches(reg, x, y, c);
      SharedChanges(GroupThen(reg, x, y), x, y, 2, 8 + |ItemCode(x)|, c);
    }
  }

  // ---- With the decisions of the code ----

  /** The drops the code decides on, of a single jump back at j. */
  function Decisions(code: seq<Byte>, j: nat): set<nat>
    requires j + 3 <= |code|
  {
    if Finalizes(code, j) then {j} else {}
  }

  /** c*ys goes wrong for some text just when ys starts with c and c is an eight-bit character. */
  lemma EightBitExactly(c: Byte, ys: seq<Byte>)
    requires 1 <= |ys| <= 127
    ensures WellFormedAlts(StarThen(Chars([c]), Chars(ys)))
    ensures var code := AltsCode(StarThen(Chars([c]), Chars(ys)));
            6 <= |code| - 3 && (SameResults(code, Decisions(code, 6)) <==> !(ys[0] == c && c >= 128))
  {
    var x, y := Chars([c]), Chars(ys);
    StarLayout(x, y);
    StarExact(x, y);
    var code := AltsCode(StarThen(x, y));
    assert |ItemCode(x)| == 3;
    LayoutRefuses(code, x, y, 0, 9);
    StartsAs(code, 9, y);
    assert Apart(x, y) <==> ys[0] != c by {
      assert CanStart(x, c);
    }
    AtByte(code, 9, ItemCode(y), 2);
    AtByte(code, 3, ItemCode(x), 0);
    AtByte(code, 3, ItemCode(x), 2);
    assert SkipMemory(code, 9) == 9;
    assert Finalizes(code, 6) <==> c != SignedChar(ys[0]);
  }

  /** \(c*\)ys goes wrong for some text just when ys starts with c, and the group is the
      first and c is not the length of ys, or it is the third and c is not a newline. */
  lemma GroupExactly(reg: Byte, c: Byte, ys: seq<Byte>)
    requires 1 <= |ys| <= 127 && reg < START_MEMORY
    ensures WellFormedAlts(GroupThen(reg, Chars([c]), Chars(ys)))
    ensures var code := AltsCode(GroupThen(reg, Chars([c]), Chars(ys)));
            8 <= |code| - 3 && (SameResults(code, Decisions(code, 8))
                            <==> !(ys[0] == c && ((reg == 1 && c != |ys|) || (reg == 3 && c != NEWLINE))))
  {
    var x, y := Chars([c]), Chars(ys);
    GroupLayout(reg, x, y);
    GroupExact(reg, x, y);
    var code := AltsCode(GroupThen(reg, x, y));
    assert |ItemCode(x)| == 3;
    LayoutRefuses(code, x, y, 2, 11);
    assert Apart(x, y) <==> ys[0] != c by {
      assert CanStart(x, c);
    }
    AtByte(code, 11, [STOP_MEMORY, reg], 0);
    AtByte(code, 11, [STOP_MEMORY, reg], 1);
    AtByte(code, 13, ItemCode(y), 1);
    AtByte(code, 5, ItemCode(x), 0);
    AtByte(code, 5, ItemCode(x), 2);
    MemoryDecides(code, 8);
  }
}
