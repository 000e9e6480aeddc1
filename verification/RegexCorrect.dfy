/** Running the code of a tree finds the tree's end positions in their order.

    The proof is compositional over continuations.  A continuation k for a code
    position b says what running from b comes to, as a function of the text
    position reached and of what a later failure would come to; see ContFrom. */
module RegexCorrect {
  import opened RegexSyntax
  import opened RegexCode
  import opened RegexDrops
  import opened RegexMachine

  type Cont = (nat, Outcome) -> Outcome

  /** A machine together with the relation "comes to", of which the proof uses
      only that it respects single steps and is single-valued; see Lawful. */
  datatype Sys = Sys(code: seq<Byte>, text: seq<Byte>, drops: set<nat>, comesTo: (Config, Outcome) -> bool)

  function Step(m: Sys, c: Config): Config
    requires !c.Done?
  {
    RegexMachine.Step(Machine(m.code, m.text, m.drops), c)
  }

  ghost predicate Evals(m: Sys, c: Config, r: Outcome) {
    m.comesTo(c, r)
  }

  ghost predicate Law(m: Sys, c: Config, r: Outcome) {
    && (c == Done(r) ==> Evals(m, c, r))
    && (!c.Done? ==> (Evals(m, Step(m, c), r) <==> Evals(m, c, r)))
    && forall r' :: Evals(m, c, r) && Evals(m, c, r') ==> r == r'
  }

  ghost predicate Lawful(m: Sys) {
    forall c, r {:trigger Law(m, c, r)} :: Law(m, c, r)
  }

  lemma EvalsStep(m: Sys, c: Config, r: Outcome)
    requires Lawful(m) && !c.Done?
    ensures Evals(m, Step(m, c), r) <==> Evals(m, c, r)
  {
    assert Law(m, c, r);
  }

  lemma EvalsDone(m: Sys, r: Outcome)
    requires Lawful(m)
    ensures Evals(m, Done(r), r)
  {
    assert Law(m, Done(r), r);
  }

  lemma EvalsUnique(m: Sys, c: Config, r: Outcome, r': Outcome)
    requires Lawful(m) && Evals(m, c, r) && Evals(m, c, r')
    ensures r == r'
  {
    assert Law(m, c, r);
  }

  ghost function System(m: Machine): Sys {
    Sys(m.code, m.text, m.drops, (c, r) => RegexMachine.Evals(m, c, r))
  }

  lemma SystemIsLawful(m: Machine)
    ensures Lawful(System(m))
  {
    var sys := System(m);
    forall c, r ensures Law(sys, c, r) {
      if c == Done(r) {
        RegexMachine.EvalsDone(m, r);
      }
      if !c.Done? {
        RegexMachine.EvalsStep(m, c, r);
      }
      forall r' | Evals(sys, c, r) && Evals(sys, c, r') ensures r == r' {
        RegexMachine.EvalsUnique(m, c, r, r');
      }
    }
  }

  /** Tries the end positions in turn; rho is what remains when all have failed. */
  ghost function Fold(ends: seq<nat>, k: Cont, rho: Outcome): Outcome {
    if ends == [] then rho else k(ends[0], Fold(ends[1..], k, rho))
  }

  lemma {:induction false} FoldAppend(x: seq<nat>, y: seq<nat>, k: Cont, rho: Outcome)
    ensures Fold(x + y, k, rho) == Fold(x, k, Fold(y, k, rho))
  {
    if x == [] {
      assert x + y == y;
    } else {
      FoldAppend(x[1..], y, k, rho);
      assert (x + y)[1..] == x[1..] + y;
    }
  }

  ghost predicate ContAt(m: Sys, b: nat, k: Cont, d: nat, stack: seq<Point>, rho: Outcome) {
    Evals(m, Failing(stack), rho) ==> Evals(m, Running(b, d, stack), k(d, rho))
  }

  /** k describes running from b at any text position from lo on, with any stack. */
  ghost predicate ContFrom(m: Sys, b: nat, k: Cont, lo: nat) {
    && Lawful(m)
    && forall d: nat, stack: seq<Point>, rho: Outcome {:trigger ContAt(m, b, k, d, stack, rho)} ::
      lo <= d <= |m.text| ==> ContAt(m, b, k, d, stack, rho)
  }

  /** Failure points are dropped where that does no harm only. */
  predicate Legal(m: Sys) {
    AllLegal(m.code, m.drops)
  }

  // ---- Lists of end positions ----

  lemma {:induction false} MoreThanStart(e: Seq, s: seq<Byte>, d: nat)
    requires WellFormed(e) && d <= |s| && !Nullable(e)
    ensures Within(Matches(e, s, d), d + 1, |s|)
    decreases e, 0, 0
  {
    if Nullable(e.init) {
      MoreThanStartThen(e.last, s, d, Matches(e.init, s, d), d);
    } else {
      MoreThanStart(e.init, s, d);
      KeepsLow(e.last, s, d, Matches(e.init, s, d), d + 1);
    }
  }

  lemma {:induction false} KeepsLow(e: Item, s: seq<Byte>, d: nat, ends: seq<nat>, lo: nat)
    requires d <= |s| && Within(ends, d, |s|) && Within(ends, lo, |s|)
    ensures Within(ThenItem(e, s, d, ends), lo, |s|)
    decreases |ends|
  {
    if ends != [] {
      KeepsLow(e, s, d, ends[1..], lo);
    }
  }

  lemma {:induction false} MoreThanStartThen(e: Item, s: seq<Byte>, d: nat, ends: seq<nat>, lo: nat)
    requires WellFormedItem(e) && d <= |s| && Within(ends, d, |s|) && lo <= d && !NullableItem(e)
    ensures Within(ThenItem(e, s, d, ends), lo + 1, |s|)
    decreases e, 1, |ends|
  {
    if ends != [] {
      MoreThanStartItem(e, s, ends[0]);
      MoreThanStartThen(e, s, d, ends[1..], lo);
    }
  }

  lemma {:induction false} MoreThanStartItem(e: Item, s: seq<Byte>, d: nat)
    requires WellFormedItem(e) && d <= |s| && !NullableItem(e)
    ensures Within(MatchesItem(e, s, d), d + 1, |s|)
    decreases e, 0, 0
  {
    match e
    case Group(_, alts) => MoreThanStartAlts(alts, s, d);
    case Repeat(zero, many, body) =>
      MoreThanStart(body, s, d);
      if many {
        LoopKeepsLow(body, s, d, Matches(body, s, d), d + 1);
      }
    case _ =>
  }

  lemma {:induction false} LoopKeepsLow(body: Seq, s: seq<Byte>, d: nat, ends: seq<nat>, lo: nat)
    requires d <= |s| && Within(ends, d, |s|) && Within(ends, lo, |s|)
    ensures Within(ThenLoop(body, s, d, ends), lo, |s|)
    decreases |ends|
  {
    if ends != [] {
      LoopKeepsLow(body, s, d, ends[1..], lo);
    }
  }

  lemma {:induction false} MoreThanStartAlts(e: Alts, s: seq<Byte>, d: nat)
    requires WellFormedAlts(e) && d <= |s| && !NullableAlts(e)
    ensures Within(MatchesAlts(e, s, d), d + 1, |s|)
    decreases e, 0, 0
  {
    match e
    case One(only) => MoreThanStart(only, s, d);
    case More(others, final) =>
      MoreThanStartAlts(others, s, d);
      MoreThanStart(final, s, d);
  }

  // ---- Continuations through an item, and through further repetitions ----

  ghost function ThroughItem(e: Item, s: seq<Byte>, k: Cont): Cont {
    (j: nat, r: Outcome) => if j <= |s| then Fold(MatchesItem(e, s, j), k, r) else r
  }

  lemma {:induction false} FoldThenItem(e: Item, s: seq<Byte>, d: nat, ends: seq<nat>, k: Cont, rho: Outcome)
    requires d <= |s| && Within(ends, d, |s|)
    ensures Fold(ThenItem(e, s, d, ends), k, rho) == Fold(ends, ThroughItem(e, s, k), rho)
    decreases |ends|
  {
    if ends != [] {
      FoldThenItem(e, s, d, ends[1..], k, rho);
      FoldAppend(MatchesItem(e, s, ends[0]), ThenItem(e, s, d, ends[1..]), k, rho);
    }
  }

  function LoopEnds(body: Seq, s: seq<Byte>, d: nat): seq<nat>
    requires d <= |s|
  {
    ThenLoop(body, s, d, Matches(body, s, d))
  }

  ghost function ThroughLoop(body: Seq, s: seq<Byte>, k: Cont): Cont {
    (j: nat, r: Outcome) => if j <= |s| then Fold(LoopEnds(body, s, j) + [j], k, r) else r
  }

  lemma {:induction false} FoldThenLoop(body: Seq, s: seq<Byte>, d: nat, ends: seq<nat>, k: Cont, rho: Outcome)
    requires d <= |s| && Within(ends, d + 1, |s|)
    ensures Fold(ThenLoop(body, s, d, ends), k, rho) == Fold(ends, ThroughLoop(body, s, k), rho)
    decreases |ends|
  {
    if ends != [] {
      FoldThenLoop(body, s, d, ends[1..], k, rho);
      FoldAppend(LoopEnds(body, s, ends[0]) + [ends[0]], ThenLoop(body, s, d, ends[1..]), k, rho);
    }
  }

  // ---- Single commands ----

  /** What every lemma below assumes about where it starts and what follows. */
  ghost predicate Ready(m: Sys, b: nat, lo: nat, nullable: bool, d: nat, stack: seq<Point>, k: Cont, rho: Outcome) {
    && |m.code| <= MAX_CODE
    && d <= |m.text|
    && lo <= d + (if nullable then 0 else 1)
    && ContFrom(m, b, k, lo)
    && Evals(m, Failing(stack), rho)
    && Legal(m)
  }

  lemma SingleRuns(m: Sys, e: Item, a: nat, lo: nat, d: nat, stack: seq<Point>, k: Cont, rho: Outcome)
    requires WellFormedItem(e) && At(m.code, a, ItemCode(e))
    requires e.Chars? || IsSingle(e) || e.Test? || e.StartMem?
    requires Ready(m, a + |ItemCode(e)|, lo, NullableItem(e), d, stack, k, rho)
    ensures Evals(m, Running(a, d, stack), Fold(MatchesItem(e, m.text, d), k, rho))
  {
    SingleStep(m, e, a, d, stack);
    var ends := MatchesItem(e, m.text, d);
    if ends != [] {
      assert ContAt(m, a + |ItemCode(e)|, k, ends[0], stack, rho);
      assert Fold(ends, k, rho) == k(ends[0], Fold(ends[1..], k, rho));
    }
    EvalsStep(m, Running(a, d, stack), Fold(ends, k, rho));
  }

  /** One step over the code of e either fails or leads to the only end position. */
  predicate StepsOver(m: Sys, e: Item, a: nat, size: nat, d: nat, stack: seq<Point>)
    requires d <= |m.text|
  {
    var ends := MatchesItem(e, m.text, d);
    && Decodes(m.code, a)
    && |ends| <= 1
    && Step(m, Running(a, d, stack)) == if ends == [] then Failing(stack) else Running(a + size, ends[0], stack)
  }

  lemma SingleStep(m: Sys, e: Item, a: nat, d: nat, stack: seq<Point>)
    requires WellFormedItem(e) && At(m.code, a, ItemCode(e)) && d <= |m.text|
    requires e.Chars? || IsSingle(e) || e.Test? || e.StartMem?
    ensures StepsOver(m, e, a, |ItemCode(e)|, d, stack)
  {
    AtByte(m.code, a, ItemCode(e), 0);
    if e.Chars? {
      CharsStep(m, e.chars, a, d, stack);
    } else if e.CharSet? {
      SetStep(m, e.negated, e.bits, a, d, stack);
    }
  }

  lemma CharsStep(m: Sys, chars: seq<Byte>, a: nat, d: nat, stack: seq<Point>)
    requires 1 <= |chars| <= 127 && At(m.code, a, [EXACTN, |chars|] + chars) && d <= |m.text|
    ensures StepsOver(m, Chars(chars), a, 2 + |chars|, d, stack)
  {
    var bytes := [EXACTN, |chars|] + chars;
    AtByte(m.code, a, bytes, 0);
    AtByte(m.code, a, bytes, 1);
    AtSplit(m.code, a, bytes[..2], chars);
    AtSlice(m.code, a + 2, chars);
  }

  lemma SetStep(m: Sys, negated: bool, bits: seq<Byte>, a: nat, d: nat, stack: seq<Point>)
    requires |bits| <= 32 && d <= |m.text|
    requires At(m.code, a, [if negated then CHARSET_NOT else CHARSET, |bits|] + bits)
    ensures StepsOver(m, CharSet(negated, bits), a, 2 + |bits|, d, stack)
  {
    var bytes := [if negated then CHARSET_NOT else CHARSET, |bits|] + bits;
    AtByte(m.code, a, bytes, 0);
    AtByte(m.code, a, bytes, 1);
    AtSplit(m.code, a, bytes[..2], bits);
    AtSlice(m.code, a + 2, bits);
    assert SingleItem(m.code, a) == CharSet(negated, bits);
  }

  /** A failure resumes at the top failure point, or flushes it. */
  lemma FailPops(m: Sys, stack: seq<Point>, top: Point, r: Outcome)
    requires Lawful(m)
    ensures Evals(m, Failing(stack + [top]), r)
       <==> Evals(m, if top.Dummy? then Failing(stack) else Running(top.p, top.d, stack), r)
  {
    var full := stack + [top];
    assert full[..|full| - 1] == stack;
    EvalsStep(m, Failing(full), r);
  }

  // ---- Commands that only pass control on ----

  predicate JumpsTo(code: seq<Byte>, p: nat, op: Byte, t: nat) {
    p + 3 <= |code| && IsJumpOp(op) && code[p] == op && Target(code, p) == t && 0 <= t <= |code|
  }

  lemma JumpLands(code: seq<Byte>, p: nat, op: Byte, offset: int)
    requires At(code, p, Jump(op, offset)) && |code| <= MAX_CODE && IsJumpOp(op)
    requires 0 <= p + 3 + offset <= |code|
    ensures JumpsTo(code, p, op, p + 3 + offset)
  {
    AtJump(code, p, op, offset);
  }

  lemma Pushes(m: Sys, p: nat, t: nat, d: nat, stack: seq<Point>, r: Outcome)
    requires Lawful(m) && JumpsTo(m.code, p, ON_FAILURE_JUMP, t) && d <= |m.text|
    ensures Evals(m, Running(p + 3, d, stack + [Point(t, d)]), r) <==> Evals(m, Running(p, d, stack), r)
  {
    EvalsStep(m, Running(p, d, stack), r);
  }

  lemma ThroughJump(m: Sys, p: nat, t: nat, k: Cont, lo: nat)
    requires JumpsTo(m.code, p, JUMP, t) && ContFrom(m, t, k, lo)
    ensures ContFrom(m, p, k, lo)
  {
    forall d: nat, st: seq<Point>, r: Outcome {:trigger ContAt(m, p, k, d, st, r)} | lo <= d <= |m.text|
      ensures ContAt(m, p, k, d, st, r)
    {
      assert ContAt(m, t, k, d, st, r);
      EvalsStep(m, Running(p, d, st), k(d, r));
    }
  }

  lemma ThroughMemory(m: Sys, p: nat, k: Cont, lo: nat)
    requires Decodes(m.code, p) && m.code[p] == STOP_MEMORY && ContFrom(m, p + 2, k, lo)
    ensures ContFrom(m, p, k, lo)
  {
    forall d: nat, st: seq<Point>, r: Outcome {:trigger ContAt(m, p, k, d, st, r)} | lo <= d <= |m.text|
      ensures ContAt(m, p, k, d, st, r)
    {
      assert ContAt(m, p + 2, k, d, st, r);
      EvalsStep(m, Running(p, d, st), k(d, r));
    }
  }

  // ---- Alternatives ----

  lemma GuardLayout(code: seq<Byte>, a: nat, body: seq<Byte>, t: nat)
    requires At(code, a, GuardedCode(body) + Jump(JUMP, t - (a + |body| + 6))) && |code| <= MAX_CODE && t <= |code|
    ensures a + |body| + 6 <= |code|
    ensures JumpsTo(code, a, ON_FAILURE_JUMP, a + |body| + 6)
    ensures At(code, a + 3, body)
    ensures JumpsTo(code, a + |body| + 3, JUMP, t)
  {
    var n := |body|;
    AtSplit(code, a, GuardedCode(body), Jump(JUMP, t - (a + n + 6)));
    AtSplit(code, a, Jump(ON_FAILURE_JUMP, n + 3), body);
    JumpLands(code, a, ON_FAILURE_JUMP, n + 3);
    JumpLands(code, a + n + 3, JUMP, t - (a + n + 6));
  }

  lemma {:induction false} GuardRuns(m: Sys, e: Seq, a: nat, b: nat, t: nat, lo: nat, d: nat, stack: seq<Point>, k: Cont, rho: Outcome)
    requires WellFormed(e) && ProperLoops(e) && Legal(m)
    requires |m.code| <= MAX_CODE && d <= |m.text| && lo <= d + (if Nullable(e) then 0 else 1)
    requires At(m.code, a + 3, SeqCode(e)) && b == a + |SeqCode(e)| + 3
    requires JumpsTo(m.code, a, ON_FAILURE_JUMP, b + 3)
    requires JumpsTo(m.code, b, JUMP, t)
    requires ContFrom(m, t, k, lo)
    requires Evals(m, Running(b + 3, d, stack), rho)
    ensures Evals(m, Running(a, d, stack), Fold(Matches(e, m.text, d), k, rho))
    decreases e, 1, 0
  {
    var result := Fold(Matches(e, m.text, d), k, rho);
    FailPops(m, stack, Point(b + 3, d), rho);
    ThroughJump(m, b, t, k, lo);
    Pushes(m, a, b + 3, d, stack, result);
    SeqRuns(m, e, a + 3, lo, d, stack + [Point(b + 3, d)], k, rho);
  }

  lemma PrefixLayout(code: seq<Byte>, a: nat, b: nat, others: Alts, final: Seq, t: nat) returns (mid: nat)
    requires WellFormedAlts(others) && WellFormed(final)
    requires At(code, a, PrefixCode(More(others, final), t - b)) && b == a + |PrefixCode(More(others, final), t - b)|
    ensures mid + |SeqCode(final)| + 6 == b
    ensures At(code, a, PrefixCode(others, |SeqCode(final)| + 3)) && mid == a + |PrefixCode(others, |SeqCode(final)| + 3)|
    ensures At(code, mid, GuardedCode(SeqCode(final)) + Jump(JUMP, t - b))
  {
    var n := |SeqCode(final)|;
    mid := b - (n + 6);
    SplitPrefix(code, a, PrefixCode(others, n + 3), GuardedCode(SeqCode(final)), Jump(JUMP, t - b));
  }

  lemma SplitPrefix(code: seq<Byte>, a: nat, x: seq<Byte>, y: seq<Byte>, z: seq<Byte>)
    requires At(code, a, x + y + z)
    ensures At(code, a, x) && At(code, a + |x|, y + z)
  {
    AtSplit3(code, a, x, y, z);
    AtSplit(code, a + |x|, y, z);
  }

  lemma {:induction false} PrefixRuns(m: Sys, e: Alts, a: nat, b: nat, t: nat, lo: nat, d: nat, stack: seq<Point>, k: Cont, rho: Outcome)
    requires WellFormedAlts(e) && ProperLoopsAlts(e) && Legal(m)
    requires t <= |m.code|
    requires At(m.code, a, PrefixCode(e, t - b)) && b == a + |PrefixCode(e, t - b)|
    requires |m.code| <= MAX_CODE && d <= |m.text| && lo <= d + (if NullableAlts(e) then 0 else 1)
    requires ContFrom(m, t, k, lo)
    requires Evals(m, Running(b, d, stack), rho)
    ensures Evals(m, Running(a, d, stack), Fold(MatchesAlts(e, m.text, d), k, rho))
    decreases e, 1, 0
  {
    if e.One? {
      GuardLayout(m.code, a, SeqCode(e.only), t);
      GuardRuns(m, e.only, a, b - 3, t, lo, d, stack, k, rho);
    } else {
      var mid := PrefixLayout(m.code, a, b, e.others, e.final, t);
      GuardLayout(m.code, mid, SeqCode(e.final), t);
      LastGuardRuns(m, e, e.others, e.final, |SeqCode(e.final)|, a, mid, t, lo, d, stack, k, rho);
    }
  }

  lemma {:induction false} LastGuardRuns(m: Sys, e: Alts, others: Alts, final: Seq, n: nat, a: nat, mid: nat, t: nat, lo: nat, d: nat, stack: seq<Point>, k: Cont, rho: Outcome)
    requires others < e && final < e
    requires WellFormedAlts(others) && ProperLoopsAlts(others) && Legal(m)
    requires WellFormed(final) && n == |SeqCode(final)| && ProperLoops(final) && Legal(m)
    requires At(m.code, a, PrefixCode(others, n + 3)) && mid == a + |PrefixCode(others, n + 3)|
    requires JumpsTo(m.code, mid, ON_FAILURE_JUMP, mid + n + 6)
    requires At(m.code, mid + 3, SeqCode(final))
    requires JumpsTo(m.code, mid + n + 3, JUMP, t)
    requires |m.code| <= MAX_CODE && d <= |m.text|
    requires lo <= d + (if NullableAlts(others) || Nullable(final) then 0 else 1)
    requires ContFrom(m, t, k, lo)
    requires Evals(m, Running(mid + n + 6, d, stack), rho)
    ensures Evals(m, Running(a, d, stack), Fold(MatchesAlts(others, m.text, d) + Matches(final, m.text, d), k, rho))
    decreases e, 0, 0
  {
    GuardRuns(m, final, mid, mid + n + 3, t, lo, d, stack, k, rho);
    ThroughJump(m, mid + n + 3, t, k, lo);
    PrefixRuns(m, others, a, mid, mid + n + 3, lo, d, stack, k, Fold(Matches(final, m.text, d), k, rho));
    FoldAppend(MatchesAlts(others, m.text, d), Matches(final, m.text, d), k, rho);
  }

  lemma AltsLayout(code: seq<Byte>, a: nat, others: Alts, final: Seq) returns (mid: nat)
    requires WellFormedAlts(others) && WellFormed(final)
    requires At(code, a, AltsCode(More(others, final)))
    ensures mid + |SeqCode(final)| == a + |AltsCode(More(others, final))| <= |code|
    ensures At(code, a, PrefixCode(others, |SeqCode(final)|)) && mid == a + |PrefixCode(others, |SeqCode(final)|)|
    ensures At(code, mid, SeqCode(final))
  {
    mid := a + |PrefixCode(others, |SeqCode(final)|)|;
    AtSplit(code, a, PrefixCode(others, |SeqCode(final)|), SeqCode(final));
  }

  lemma {:induction false} AltsRuns(m: Sys, e: Alts, a: nat, lo: nat, d: nat, stack: seq<Point>, k: Cont, rho: Outcome)
    requires WellFormedAlts(e) && ProperLoopsAlts(e) && Legal(m)
    requires At(m.code, a, AltsCode(e))
    requires Ready(m, a + |AltsCode(e)|, lo, NullableAlts(e), d, stack, k, rho)
    ensures Evals(m, Running(a, d, stack), Fold(MatchesAlts(e, m.text, d), k, rho))
    decreases e, 2, 0
  {
    if e.One? {
      SeqRuns(m, e.only, a, lo, d, stack, k, rho);
    } else {
      var mid := AltsLayout(m.code, a, e.others, e.final);
      SeqRuns(m, e.final, mid, lo, d, stack, k, rho);
      PrefixRuns(m, e.others, a, mid, mid + |SeqCode(e.final)|, lo, d, stack, k, Fold(Matches(e.final, m.text, d), k, rho));
      FoldAppend(MatchesAlts(e.others, m.text, d), Matches(e.final, m.text, d), k, rho);
    }
  }

  // ---- Sequences ----

  lemma {:induction false} SeqRuns(m: Sys, e: Seq, a: nat, lo: nat, d: nat, stack: seq<Point>, k: Cont, rho: Outcome)
    requires WellFormed(e) && ProperLoops(e) && Legal(m)
    requires At(m.code, a, SeqCode(e))
    requires Ready(m, a + |SeqCode(e)|, lo, Nullable(e), d, stack, k, rho)
    ensures Evals(m, Running(a, d, stack), Fold(Matches(e, m.text, d), k, rho))
    decreases e, 0, 0
  {
    match e
    case Nil =>
      assert ContAt(m, a, k, d, stack, rho);
      assert Fold([d], k, rho) == k(d, Fold([], k, rho));
    case Snoc(init, last) =>
      var mid := a + |SeqCode(init)|;
      AtSplit(m.code, a, SeqCode(init), ItemCode(last));
      var k' := ThroughItem(last, m.text, k);
      var lo' := if NullableItem(last) || lo == 0 then lo else lo - 1;
      forall d': nat, st: seq<Point>, r: Outcome {:trigger ContAt(m, mid, k', d', st, r)} | lo' <= d' <= |m.text|
        ensures ContAt(m, mid, k', d', st, r)
      {
        if Evals(m, Failing(st), r) {
          ItemRuns(m, last, mid, lo, d', st, k, r);
        }
      }
      SeqRuns(m, init, a, lo', d, stack, k', rho);
      FoldThenItem(last, m.text, d, Matches(init, m.text, d), k, rho);
  }

  lemma {:induction false} ItemRuns(m: Sys, e: Item, a: nat, lo: nat, d: nat, stack: seq<Point>, k: Cont, rho: Outcome)
    requires WellFormedItem(e) && ProperLoopsItem(e) && Legal(m)
    requires At(m.code, a, ItemCode(e))
    requires Ready(m, a + |ItemCode(e)|, lo, NullableItem(e), d, stack, k, rho)
    ensures Evals(m, Running(a, d, stack), Fold(MatchesItem(e, m.text, d), k, rho))
    decreases e, 0, 0
  {
    if e.Group? {
      GroupRuns(m, e.reg, e.alts, a, lo, d, stack, k, rho);
    } else if e.Repeat? {
      var p := LoopLayout(m.code, a, e.zero, e.many, SeqCode(e.body));
      RepeatRuns(m, e.zero, e.many, e.body, a, p, a + |ItemCode(e)|, lo, d, stack, k, rho);
    } else {
      SingleRuns(m, e, a, lo, d, stack, k, rho);
    }
  }

  lemma {:induction false} GroupRuns(m: Sys, reg: Byte, alts: Alts, a: nat, lo: nat, d: nat, stack: seq<Point>, k: Cont, rho: Outcome)
    requires WellFormedAlts(alts) && ProperLoopsAlts(alts)
    requires At(m.code, a, AltsCode(alts) + [STOP_MEMORY, reg])
    requires Ready(m, a + |AltsCode(alts)| + 2, lo, NullableAlts(alts), d, stack, k, rho)
    ensures Evals(m, Running(a, d, stack), Fold(MatchesAlts(alts, m.text, d), k, rho))
    decreases alts, 3, 0
  {
    var b := a + |AltsCode(alts)|;
    AtSplit(m.code, a, AltsCode(alts), [STOP_MEMORY, reg]);
    AtByte(m.code, b, [STOP_MEMORY, reg], 0);
    ThroughMemory(m, b, k, lo);
    AltsRuns(m, alts, a, lo, d, stack, k, rho);
  }

  // ---- Repetitions ----

  /** A repetition occupies a .. b and its on_failure_jump is at p. */
  predicate LoopAt(code: seq<Byte>, a: nat, p: nat, b: nat, zero: bool, many: bool, body: seq<Byte>) {
    && p == (if zero then a else a + 3)
    && b == p + 3 + |body| + (if many then 3 else 0) <= |code|
    && At(code, p + 3, body)
    && JumpsTo(code, p, ON_FAILURE_JUMP, b)
    && (!zero ==> JumpsTo(code, a, DUMMY_FAILURE_JUMP, p + 3))
    && (many ==> JumpsTo(code, b - 3, MAYBE_FINALIZE_JUMP, p))
  }

  lemma LoopLayout(code: seq<Byte>, a: nat, zero: bool, many: bool, body: seq<Byte>) returns (p: nat)
    requires At(code, a, RepeatCode(zero, many, body)) && |code| <= MAX_CODE
    ensures LoopAt(code, a, p, a + |RepeatCode(zero, many, body)|, zero, many, body)
  {
    var lead := if zero then [] else Jump(DUMMY_FAILURE_JUMP, 3);
    var guard := Jump(ON_FAILURE_JUMP, |body| + if many then 3 else 0);
    var back := if many then Jump(MAYBE_FINALIZE_JUMP, -(|body| + 6)) else [];
    p := a + |lead|;
    LoopPieces(code, a, lead, guard, body, back);
    JumpLands(code, p, ON_FAILURE_JUMP, |body| + if many then 3 else 0);
    if !zero {
      JumpLands(code, a, DUMMY_FAILURE_JUMP, 3);
    }
    if many {
      BackJumpLands(code, p, |body|);
    }
  }

  lemma BackJumpLands(code: seq<Byte>, p: nat, n: nat)
    requires At(code, p + 3 + n, Jump(MAYBE_FINALIZE_JUMP, -(n + 6))) && |code| <= MAX_CODE
    ensures JumpsTo(code, p + 3 + n, MAYBE_FINALIZE_JUMP, p)
  {
    JumpLands(code, p + 3 + n, MAYBE_FINALIZE_JUMP, -(n + 6));
  }

  lemma LoopPieces(code: seq<Byte>, a: nat, lead: seq<Byte>, guard: seq<Byte>, body: seq<Byte>, back: seq<Byte>)
    requires At(code, a, lead + guard + body + back)
    ensures At(code, a, lead) && At(code, a + |lead|, guard)
    ensures At(code, a + |lead| + |guard|, body) && At(code, a + |lead| + |guard| + |body|, back)
  {
    AtSplit(code, a, lead + guard + body, back);
    AtSplit3(code, a, lead, guard, body);
  }

  lemma {:induction false} RepeatRuns(m: Sys, zero: bool, many: bool, body: Seq, a: nat, p: nat, b: nat, lo: nat, d: nat, stack: seq<Point>, k: Cont, rho: Outcome)
    requires WellFormed(body) && ProperLoops(body) && (zero || many) && (many ==> !Nullable(body))
    requires LoopAt(m.code, a, p, b, zero, many, SeqCode(body))
    requires Ready(m, b, lo, zero || Nullable(body), d, stack, k, rho)
    ensures Evals(m, Running(a, d, stack), Fold(MatchesItem(Repeat(zero, many, body), m.text, d), k, rho))
    decreases body, |m.text| + 2, 2
  {
    if !zero {
      assert LoopEnds(body, m.text, d) + [] == LoopEnds(body, m.text, d);
      PlusRuns(m, body, a, p, b, lo, d, stack, k, rho);
    } else if many {
      FoldAppend(LoopEnds(body, m.text, d), [d], k, rho);
      if b - 3 in m.drops {
        DroppingHead(m, body, p, b, lo, d, stack, k, rho);
      } else {
        LoopHead(m, body, p, b, lo, d, stack, k, rho);
      }
    } else {
      OptionalRuns(m, body, p, b, lo, d, stack, k, rho);
    }
  }

  lemma {:induction false} OptionalRuns(m: Sys, body: Seq, p: nat, b: nat, lo: nat, d: nat, stack: seq<Point>, k: Cont, rho: Outcome)
    requires WellFormed(body) && ProperLoops(body) && Legal(m)
    requires b == p + 3 + |SeqCode(body)| && At(m.code, p + 3, SeqCode(body)) && JumpsTo(m.code, p, ON_FAILURE_JUMP, b)
    requires Ready(m, b, lo, true, d, stack, k, rho)
    ensures Evals(m, Running(p, d, stack), Fold(Matches(body, m.text, d) + [d], k, rho))
    decreases body, |m.text| + 1, 1
  {
    var rho' := PushExit(m, p, b, lo, d, stack, k, rho);
    SeqRuns(m, body, p + 3, lo, d, stack + [Point(b, d)], k, rho');
    FoldAppend(Matches(body, m.text, d), [d], k, rho);
    EvalsStep(m, Running(p, d, stack), Fold(Matches(body, m.text, d) + [d], k, rho));
  }

  lemma {:induction false} PlusRuns(m: Sys, body: Seq, a: nat, p: nat, b: nat, lo: nat, d: nat, stack: seq<Point>, k: Cont, rho: Outcome)
    requires WellFormed(body) && ProperLoops(body) && !Nullable(body)
    requires LoopAt(m.code, a, p, b, false, true, SeqCode(body))
    requires Ready(m, b, lo, false, d, stack, k, rho)
    ensures Evals(m, Running(a, d, stack), Fold(LoopEnds(body, m.text, d), k, rho))
    decreases body, |m.text| + 2, 1
  {
    if b - 3 in m.drops {
      DroppingOnce(m, body, p, b, lo, d, stack, k, rho);
    } else {
      FailPops(m, stack, Dummy, rho);
      OnceMore(m, body, p, b, lo, d, stack + [Dummy], k, rho);
    }
    EvalsStep(m, Running(a, d, stack), Fold(LoopEnds(body, m.text, d), k, rho));
  }

  /** The on_failure_jump at p leaves a failure point that resumes after the loop. */
  lemma PushExit(m: Sys, p: nat, b: nat, lo: nat, d: nat, stack: seq<Point>, k: Cont, rho: Outcome)
    returns (rho': Outcome)
    requires JumpsTo(m.code, p, ON_FAILURE_JUMP, b)
    requires lo <= d <= |m.text| && ContFrom(m, b, k, lo) && Evals(m, Failing(stack), rho)
    ensures Step(m, Running(p, d, stack)) == Running(p + 3, d, stack + [Point(b, d)])
    ensures rho' == Fold([d], k, rho) && Evals(m, Failing(stack + [Point(b, d)]), rho')
  {
    rho' := k(d, rho);
    assert Fold([d], k, rho) == k(d, Fold([], k, rho));
    assert ContAt(m, b, k, d, stack, rho);
    FailPops(m, stack, Point(b, d), rho');
  }

  /** What the loop lemmas share: the loop p .. b in front of continuation k. */
  ghost predicate Loop(m: Sys, body: Seq, p: nat, b: nat, lo: nat, k: Cont) {
    && WellFormed(body) && ProperLoops(body) && !Nullable(body)
    && At(m.code, p + 3, SeqCode(body)) && |m.code| <= MAX_CODE
    && Legal(m)
    && JumpsTo(m.code, p, ON_FAILURE_JUMP, b)
    && b == p + 6 + |SeqCode(body)|
    && JumpsTo(m.code, b - 3, MAYBE_FINALIZE_JUMP, p)
    && ContFrom(m, b, k, lo)
  }

  lemma {:induction false} LoopHead(m: Sys, body: Seq, p: nat, b: nat, lo: nat, d: nat, stack: seq<Point>, k: Cont, rho: Outcome)
    requires Loop(m, body, p, b, lo, k) && b - 3 !in m.drops
    requires lo <= d <= |m.text| && Evals(m, Failing(stack), rho)
    ensures Evals(m, Running(p, d, stack), Fold(LoopEnds(body, m.text, d) + [d], k, rho))
    decreases body, |m.text| - d + 1, 1
  {
    var rho' := PushExit(m, p, b, lo, d, stack, k, rho);
    OnceMore(m, body, p, b, lo, d, stack + [Point(b, d)], k, rho');
    FoldAppend(LoopEnds(body, m.text, d), [d], k, rho);
    EvalsStep(m, Running(p, d, stack), Fold(LoopEnds(body, m.text, d), k, rho'));
  }

  lemma {:induction false} OnceMore(m: Sys, body: Seq, p: nat, b: nat, lo: nat, d: nat, stack: seq<Point>, k: Cont, rho: Outcome)
    requires Loop(m, body, p, b, lo, k) && b - 3 !in m.drops
    requires d <= |m.text| && lo <= d + 1 && Evals(m, Failing(stack), rho)
    ensures Evals(m, Running(p + 3, d, stack), Fold(LoopEnds(body, m.text, d), k, rho))
    decreases body, |m.text| - d + 1, 0
  {
    var k' := ThroughLoop(body, m.text, k);
    forall d': nat, st: seq<Point>, r: Outcome {:trigger ContAt(m, b - 3, k', d', st, r)} | d + 1 <= d' <= |m.text|
      ensures ContAt(m, b - 3, k', d', st, r)
    {
      if Evals(m, Failing(st), r) {
        LoopHead(m, body, p, b, lo, d', st, k, r);
        EvalsStep(m, Running(b - 3, d', st), k'(d', r));
      }
    }
    SeqRuns(m, body, p + 3, d + 1, d, stack, k', rho);
    MoreThanStart(body, m.text, d);
    FoldThenLoop(body, m.text, d, Matches(body, m.text, d), k, rho);
  }

  // ---- Straight code ----

  /** Running straight code from a to b took the text to its only end position, or
      failed, and left the stack alone. */
  ghost predicate RanOver(m: Sys, a: nat, b: nat, d: nat, ends: seq<nat>, stack: seq<Point>, r: Outcome) {
    if ends == [] then Evals(m, Failing(stack), r) ==> Evals(m, Running(a, d, stack), r)
    else Evals(m, Running(b, ends[0], stack), r) ==> Evals(m, Running(a, d, stack), r)
  }

  lemma {:induction false} StraightRuns(m: Sys, e: Seq, a: nat, d: nat, stack: seq<Point>, r: Outcome)
    requires Lawful(m)
    requires WellFormed(e) && Straight(e) && At(m.code, a, SeqCode(e)) && d <= |m.text|
    ensures RanOver(m, a, a + |SeqCode(e)|, d, Matches(e, m.text, d), stack, r)
    decreases e, 1
  {
    if e.Snoc? {
      AtSplit(m.code, a, SeqCode(e.init), ItemCode(e.last));
      StraightEnds(e.init, m.text, d);
      MatchesSnoc(e.init, e.last, m.text, d);
      StraightRuns(m, e.init, a, d, stack, r);
      if Matches(e.init, m.text, d) != [] {
        StraightItemRuns(m, e.last, a + |SeqCode(e.init)|, Matches(e.init, m.text, d)[0], stack, r);
      }
    }
  }

  lemma {:induction false} StraightItemRuns(m: Sys, e: Item, a: nat, d: nat, stack: seq<Point>, r: Outcome)
    requires Lawful(m)
    requires WellFormedItem(e) && StraightItem(e) && At(m.code, a, ItemCode(e)) && d <= |m.text|
    ensures RanOver(m, a, a + |ItemCode(e)|, d, MatchesItem(e, m.text, d), stack, r)
    decreases e, 0
  {
    if e.Group? {
      var b := a + |AltsCode(e.alts)|;
      AtSplit(m.code, a, AltsCode(e.alts), [STOP_MEMORY, e.reg]);
      AtByte(m.code, b, [STOP_MEMORY, e.reg], 0);
      StraightRuns(m, e.alts.only, a, d, stack, r);
      var ends := Matches(e.alts.only, m.text, d);
      assert MatchesItem(e, m.text, d) == ends && AltsCode(e.alts) == SeqCode(e.alts.only);
      if ends != [] {
        EvalsStep(m, Running(b, ends[0], stack), r);
      }
    } else {
      SingleStep(m, e, a, d, stack);
      EvalsStep(m, Running(a, d, stack), r);
    }
  }

  // ---- Repetitions that drop their failure point ----

  /** The layout of a loop, whatever follows it. */
  ghost predicate DropLoop(m: Sys, body: Seq, p: nat, b: nat) {
    && WellFormed(body) && ProperLoops(body) && !Nullable(body)
    && At(m.code, p + 3, SeqCode(body))
    && JumpsTo(m.code, p, ON_FAILURE_JUMP, b)
    && b == p + 6 + |SeqCode(body)|
    && JumpsTo(m.code, b - 3, MAYBE_FINALIZE_JUMP, p)
    && b - 3 in m.drops
  }

  /** The end position of the most repetitions that a straight body allows. */
  function Longest(body: Seq, s: seq<Byte>, d: nat): (j: nat)
    requires d <= |s|
    ensures d <= j <= |s|
  {
    (LoopEnds(body, s, d) + [d])[0]
  }

  lemma LoopUnfold(body: Seq, s: seq<Byte>, d: nat)
    requires d <= |s| && Matches(body, s, d) != [] && Within(Matches(body, s, d), d + 1, |s|)
    ensures var ends := Matches(body, s, d);
            LoopEnds(body, s, d) == LoopEnds(body, s, ends[0]) + [ends[0]] + ThenLoop(body, s, d, ends[1..])
    ensures Longest(body, s, d) == Longest(body, s, Matches(body, s, d)[0])
  {
    var j := Matches(body, s, d)[0];
    var first := LoopEnds(body, s, j) + [j];
    assert LoopEnds(body, s, d)[0] == first[0];
  }

  /** The jump at the end of a loop that drops takes the top failure point away. */
  lemma BackAndDrop(m: Sys, p: nat, b: nat, d: nat, stack: seq<Point>, top: Point, r: Outcome)
    requires Lawful(m) && d <= |m.text| && 3 <= b && b - 3 in m.drops
    requires JumpsTo(m.code, b - 3, MAYBE_FINALIZE_JUMP, p)
    ensures Evals(m, Running(b - 3, d, stack + [top]), r) <==> Evals(m, Running(p, d, stack), r)
  {
    var full := stack + [top];
    assert Dropped(full) == stack;
    EvalsStep(m, Running(b - 3, d, full), r);
  }

  /** A loop with a straight body that drops its failure points comes to its longest
      repetition and goes on from there, whatever follows. */
  lemma {:induction false} LoopDropped(m: Sys, body: Seq, p: nat, b: nat, lo: nat, d: nat, stack: seq<Point>, k: Cont, rho: Outcome)
    requires DropLoop(m, body, p, b) && Straight(body) && ContFrom(m, b, k, lo)
    requires lo <= d <= |m.text| && Evals(m, Failing(stack), rho)
    ensures Evals(m, Running(p, d, stack), k(Longest(body, m.text, d), rho))
    decreases |m.text| - d, 1
  {
    var result := k(Longest(body, m.text, d), rho);
    var full := stack + [Point(b, d)];
    if Matches(body, m.text, d) == [] {
      assert ContAt(m, b, k, d, stack, rho);
      FailPops(m, stack, Point(b, d), result);
      StraightRuns(m, body, p + 3, d, full, result);
    } else {
      DroppedOnce(m, body, p, b, lo, d, stack, Point(b, d), k, rho);
    }
    Pushes(m, p, b, d, stack, result);
  }

  /** One repetition that succeeds, with `top` on the stack, which the jump back then drops. */
  lemma {:induction false} DroppedOnce(m: Sys, body: Seq, p: nat, b: nat, lo: nat, d: nat, stack: seq<Point>, top: Point, k: Cont, rho: Outcome)
    requires DropLoop(m, body, p, b) && Straight(body) && ContFrom(m, b, k, lo)
    requires d <= |m.text| && lo <= d + 1 && Evals(m, Failing(stack), rho) && Matches(body, m.text, d) != []
    ensures Evals(m, Running(p + 3, d, stack + [top]), k(Longest(body, m.text, d), rho))
    decreases |m.text| - d, 0
  {
    var result := k(Longest(body, m.text, d), rho);
    MoreThanStart(body, m.text, d);
    LoopUnfold(body, m.text, d);
    var j := Matches(body, m.text, d)[0];
    LoopDropped(m, body, p, b, lo, j, stack, k, rho);
    BackAndDrop(m, p, b, j, stack, top, result);
    StraightRuns(m, body, p + 3, d, stack + [top], result);
  }

  /** Dropping at the back jump is legal, in terms of the body's tree. */
  lemma LegalLoop(m: Sys, body: Seq, p: nat, b: nat)
    requires DropLoop(m, body, p, b) && Legal(m)
    ensures AfterMemory(m.code, b) == |m.code| || (Straight(body) && Refuses(m.code, p + 3, b))
  {
    assert LegalDrop(m.code, b - 3);
    if StraightAt(m.code, p + 3, b - 3) {
      StraightTree(m.code, body, p + 3, b - 3);
    }
  }

  lemma {:induction false} DroppingHead(m: Sys, body: Seq, p: nat, b: nat, lo: nat, d: nat, stack: seq<Point>, k: Cont, rho: Outcome)
    requires Loop(m, body, p, b, lo, k) && b - 3 in m.drops
    requires lo <= d <= |m.text| && Evals(m, Failing(stack), rho)
    ensures Evals(m, Running(p, d, stack), Fold(LoopEnds(body, m.text, d) + [d], k, rho))
    decreases body, |m.text| - d + 1, 2
  {
    LegalLoop(m, body, p, b);
    if AfterMemory(m.code, b) == |m.code| {
      EndHead(m, body, p, b, d, stack);
      EndFold(m, b, lo, LoopEnds(body, m.text, d) + [d], stack, k, rho);
    } else {
      LoopDropped(m, body, p, b, lo, d, stack, k, rho);
      OnlyLongest(m, body, p, b, lo, d, stack, k, rho);
    }
  }

  /** The first repetition of +. */
  lemma {:induction false} DroppingOnce(m: Sys, body: Seq, p: nat, b: nat, lo: nat, d: nat, stack: seq<Point>, k: Cont, rho: Outcome)
    requires Loop(m, body, p, b, lo, k) && b - 3 in m.drops
    requires d <= |m.text| && lo <= d + 1 && Evals(m, Failing(stack), rho)
    ensures Evals(m, Running(p + 3, d, stack + [Dummy]), Fold(LoopEnds(body, m.text, d), k, rho))
    decreases body, |m.text| - d + 1, 2
  {
    LegalLoop(m, body, p, b);
    MoreThanStart(body, m.text, d);
    var ends := Matches(body, m.text, d);
    FailPops(m, stack, Dummy, rho);
    if AfterMemory(m.code, b) == |m.code| {
      EndOnce(m, body, p, b, d, stack + [Dummy], rho);
      if ends != [] {
        LoopUnfold(body, m.text, d);
        LoopEndsWithin(body, m.text, d);
        EndFold(m, b, lo, LoopEnds(body, m.text, d), stack, k, rho);
      }
    } else if ends == [] {
      StraightRuns(m, body, p + 3, d, stack + [Dummy], rho);
    } else {
      DroppedOnce(m, body, p, b, lo, d, stack, Dummy, k, rho);
      OnlyLongestOnce(m, body, p, b, lo, d, stack, k, rho);
    }
  }

  // ---- What follows the loop refuses what could start another repetition ----

  /** Running from b fails where another repetition could start. */
  lemma NextFails(m: Sys, body: Seq, p: nat, b: nat, lo: nat, j: nat, stack: seq<Point>, k: Cont, rho: Outcome)
    requires Loop(m, body, p, b, lo, k) && Straight(body) && Refuses(m.code, p + 3, b)
    requires lo <= j <= |m.text| && Matches(body, m.text, j) != [] && Evals(m, Failing(stack), rho)
    ensures k(j, rho) == rho
  {
    StartOf(m.code, body, p + 3, m.text, j) by {
      if SeqCode(body) == [] {
        NothingEmitted(body);
      }
    }
    var x := AfterMemory(m.code, b);
    assert !Starts(m.code, x, m.text[j]);
    RefusedStep(m, x, j, stack);
    EvalsStep(m, Running(x, j, stack), rho);
    PastMemory(m, b, j, stack, rho);
    assert ContAt(m, b, k, j, stack, rho);
    EvalsUnique(m, Running(b, j, stack), rho, k(j, rho));
  }

  /** A demand fails before a character that cannot start it. */
  lemma RefusedStep(m: Sys, x: nat, j: nat, stack: seq<Point>)
    requires Demands(m.code, x) && j < |m.text| && !Starts(m.code, x, m.text[j])
    ensures Step(m, Running(x, j, stack)) == Failing(stack)
  {
    if m.code[x] == EXACTN {
      var n := m.code[x + 1];
      if j + n <= |m.text| {
        assert m.text[j..j + n][0] == m.text[j] && m.code[x + 2..x + 2 + n][0] == m.code[x + 2];
      }
    }
  }

  lemma {:induction false} PastMemory(m: Sys, b: nat, j: nat, stack: seq<Point>, r: Outcome)
    requires Lawful(m) && j <= |m.text| && b <= |m.code|
    ensures Evals(m, Running(AfterMemory(m.code, b), j, stack), r) <==> Evals(m, Running(b, j, stack), r)
    decreases |m.code| - b
  {
    if AfterMemory(m.code, b) != b {
      EvalsStep(m, Running(b, j, stack), r);
      PastMemory(m, b + 2, j, stack, r);
    }
  }

  lemma {:induction false} OnlyLongest(m: Sys, body: Seq, p: nat, b: nat, lo: nat, d: nat, stack: seq<Point>, k: Cont, rho: Outcome)
    requires Loop(m, body, p, b, lo, k) && Straight(body) && Refuses(m.code, p + 3, b)
    requires lo <= d <= |m.text| && Evals(m, Failing(stack), rho)
    ensures Fold(LoopEnds(body, m.text, d) + [d], k, rho) == k(Longest(body, m.text, d), rho)
    decreases |m.text| - d, 1
  {
    var ends := Matches(body, m.text, d);
    if ends == [] {
      assert LoopEnds(body, m.text, d) + [d] == [d];
      assert Fold([d], k, rho) == k(d, Fold([], k, rho));
    } else {
      NextFails(m, body, p, b, lo, d, stack, k, rho);
      assert Fold([d], k, rho) == k(d, Fold([], k, rho));
      FoldAppend(LoopEnds(body, m.text, d), [d], k, rho);
      OnlyLongestOnce(m, body, p, b, lo, d, stack, k, rho);
    }
  }

  lemma {:induction false} OnlyLongestOnce(m: Sys, body: Seq, p: nat, b: nat, lo: nat, d: nat, stack: seq<Point>, k: Cont, rho: Outcome)
    requires Loop(m, body, p, b, lo, k) && Straight(body) && Refuses(m.code, p + 3, b)
    requires d <= |m.text| && lo <= d + 1 && Evals(m, Failing(stack), rho) && Matches(body, m.text, d) != []
    ensures Fold(LoopEnds(body, m.text, d), k, rho) == k(Longest(body, m.text, d), rho)
    decreases |m.text| - d, 0
  {
    MoreThanStart(body, m.text, d);
    LoopUnfold(body, m.text, d);
    StraightEnds(body, m.text, d);
    var j := Matches(body, m.text, d)[0];
    assert ThenLoop(body, m.text, d, Matches(body, m.text, d)[1..]) == [];
    assert LoopEnds(body, m.text, d) == LoopEnds(body, m.text, j) + [j];
    OnlyLongest(m, body, p, b, lo, j, stack, k, rho);
  }

  // ---- The program ends behind the loop ----

  lemma EndMatches(m: Sys, b: nat, lo: nat, j: nat, stack: seq<Point>, k: Cont, r: Outcome)
    requires ContFrom(m, b, k, lo) && AfterMemory(m.code, b) == |m.code| && b <= |m.code|
    requires lo <= j <= |m.text| && Evals(m, Failing(stack), r)
    ensures k(j, r) == Match(j)
  {
    assert ContAt(m, b, k, j, stack, r);
    AtEnd(m, b, j, stack);
    EvalsUnique(m, Running(b, j, stack), Match(j), k(j, r));
  }

  lemma AtEnd(m: Sys, b: nat, j: nat, stack: seq<Point>)
    requires Lawful(m) && AfterMemory(m.code, b) == |m.code| && b <= |m.code| && j <= |m.text|
    ensures Evals(m, Running(b, j, stack), Match(j))
  {
    EvalsDone(m, Match(j));
    EvalsStep(m, Running(|m.code|, j, stack), Match(j));
    PastMemory(m, b, j, stack, Match(j));
  }

  /** Some stack comes to trying the given end positions. */
  lemma {:induction false} StackFor(m: Sys, b: nat, lo: nat, ends: seq<nat>, stack: seq<Point>, k: Cont, rho: Outcome)
    returns (stack': seq<Point>)
    requires ContFrom(m, b, k, lo) && Within(ends, lo, |m.text|) && Evals(m, Failing(stack), rho)
    ensures Evals(m, Failing(stack'), Fold(ends, k, rho))
    decreases |ends|
  {
    if ends == [] {
      stack' := stack;
    } else {
      var rest := StackFor(m, b, lo, ends[1..], stack, k, rho);
      assert ContAt(m, b, k, ends[0], rest, Fold(ends[1..], k, rho));
      stack' := rest + [Point(b, ends[0])];
      FailPops(m, rest, Point(b, ends[0]), Fold(ends, k, rho));
    }
  }

  /** Where the program ends behind b the first end position is the result. */
  lemma EndFold(m: Sys, b: nat, lo: nat, ends: seq<nat>, stack: seq<Point>, k: Cont, rho: Outcome)
    requires ContFrom(m, b, k, lo) && AfterMemory(m.code, b) == |m.code| && b <= |m.code|
    requires ends != [] && Within(ends, lo, |m.text|) && Evals(m, Failing(stack), rho)
    ensures Fold(ends, k, rho) == Match(ends[0])
  {
    var rest := StackFor(m, b, lo, ends[1..], stack, k, rho);
    EndMatches(m, b, lo, ends[0], rest, k, Fold(ends[1..], k, rho));
  }

  lemma LoopEndsWithin(body: Seq, s: seq<Byte>, d: nat)
    requires WellFormed(body) && d <= |s| && !Nullable(body)
    ensures Within(LoopEnds(body, s, d), d + 1, |s|)
  {
    MoreThanStart(body, s, d);
    LoopKeepsLow(body, s, d, Matches(body, s, d), d + 1);
  }

  /** At the end of a program even a loop with choices in its body may drop: it matches
      with the first way to repeat the most, whatever is left on the stack. */
  lemma {:induction false} EndHead(m: Sys, body: Seq, p: nat, b: nat, d: nat, stack: seq<Point>)
    requires Lawful(m) && Legal(m) && |m.code| <= MAX_CODE
    requires DropLoop(m, body, p, b) && AfterMemory(m.code, b) == |m.code| && d <= |m.text|
    ensures Evals(m, Running(p, d, stack), Match(Longest(body, m.text, d)))
    decreases body, |m.text| - d + 1, 1
  {
    var full := stack + [Point(b, d)];
    AtEnd(m, b, d, stack);
    FailPops(m, stack, Point(b, d), Match(d));
    EndOnce(m, body, p, b, d, full, Match(d));
    MoreThanStart(body, m.text, d);
    if Matches(body, m.text, d) != [] {
      LoopUnfold(body, m.text, d);
    }
    Pushes(m, p, b, d, stack, Match(Longest(body, m.text, d)));
  }

  /** One repetition at the end of a program. */
  lemma {:induction false} EndOnce(m: Sys, body: Seq, p: nat, b: nat, d: nat, stack: seq<Point>, rho: Outcome)
    requires Lawful(m) && Legal(m) && |m.code| <= MAX_CODE
    requires DropLoop(m, body, p, b) && AfterMemory(m.code, b) == |m.code| && d <= |m.text|
    requires Evals(m, Failing(stack), rho)
    ensures Evals(m, Running(p + 3, d, stack), if Matches(body, m.text, d) == [] then rho else Match(Longest(body, m.text, d)))
    decreases body, |m.text| - d + 1, 0
  {
    var k: Cont := (j: nat, r: Outcome) => if j <= |m.text| then Match(Longest(body, m.text, j)) else r;
    forall j: nat, st: seq<Point>, r: Outcome {:trigger ContAt(m, b - 3, k, j, st, r)} | d + 1 <= j <= |m.text|
      ensures ContAt(m, b - 3, k, j, st, r)
    {
      EndHead(m, body, p, b, j, Dropped(st));
      EvalsStep(m, Running(b - 3, j, st), k(j, r));
    }
    SeqRuns(m, body, p + 3, d + 1, d, stack, k, rho);
    MoreThanStart(body, m.text, d);
    if Matches(body, m.text, d) != [] {
      LoopUnfold(body, m.text, d);
    }
  }
}
