/** The failure stack is deep enough.  Every place of a program is given a height: how
    many failure points there are at least when it is reached, one for each loop it is
    inside of.  Each command leads from a place to places that are no higher than what
    it leaves on the stack, so a jump back that drops a point always finds one. */
module RegexHeights {
  import opened RegexSyntax
  import opened RegexCode
  import opened RegexMachine
  import opened RegexLayout
  import C = RegexCorrect

  function Level(n: nat, base: nat): (h: seq<nat>)
    ensures |h| == n && forall i :: 0 <= i < n ==> h[i] == base
  {
    seq(n, _ => base)
  }

  function HeightsItem(e: Item, base: nat): (h: seq<nat>)
    requires WellFormedItem(e)
    ensures |h| == |ItemCode(e)|
    decreases e, 0
  {
    match e
    case Group(_, alts) => HeightsAlts(alts, base) + Level(2, base)
    case Repeat(zero, many, body) =>
      Level(if zero then 3 else 6, base)
      + HeightsSeq(body, if many then base + 1 else base)
      + Level(if many then 3 else 0, base + 1)
    case _ => Level(|ItemCode(e)|, base)
  }

  function HeightsSeq(e: Seq, base: nat): (h: seq<nat>)
    requires WellFormed(e)
    ensures |h| == |SeqCode(e)|
    decreases e, 0
  {
    match e
    case Nil => []
    case Snoc(init, last) => HeightsSeq(init, base) + HeightsItem(last, base)
  }

  function HeightsAlts(e: Alts, base: nat): (h: seq<nat>)
    requires WellFormedAlts(e)
    ensures |h| == |AltsCode(e)|
    decreases e, 0
  {
    match e
    case One(only) => HeightsSeq(only, base)
    case More(others, final) => HeightsPrefix(others, |SeqCode(final)|, base) + HeightsSeq(final, base)
  }

  function HeightsPrefix(e: Alts, offset: int, base: nat): (h: seq<nat>)
    requires WellFormedAlts(e)
    ensures |h| == |PrefixCode(e, offset)|
    decreases e, 0
  {
    match e
    case One(only) => HeightsAlternative(only, base)
    case More(others, final) => HeightsPrefix(others, |SeqCode(final)| + 3, base) + HeightsAlternative(final, base)
  }

  function HeightsAlternative(e: Seq, base: nat): (h: seq<nat>)
    requires WellFormed(e)
    ensures |h| == |SeqCode(e)| + 6
    decreases e, 1
  {
    Level(3, base) + HeightsSeq(e, base) + Level(3, base)
  }

  // ---- What heights have to satisfy ----

  /** Where the command at i leads is no higher than what it leaves on the stack. */
  predicate LevelOk(code: seq<Byte>, h: seq<nat>, i: nat)
    requires |h| == |code| + 1 && Decodes(code, i)
  {
    if !IsJumpOp(code[i]) then h[i + CommandSize(code, i)] <= h[i]
    else
      var t := Target(code, i);
      if code[i] == ON_FAILURE_JUMP then h[i + 3] <= h[i] + 1 && h[t] <= h[i]
      else if code[i] == DUMMY_FAILURE_JUMP then h[t] <= h[i] + 1
      else if code[i] == MAYBE_FINALIZE_JUMP then h[t] + 1 <= h[i]
      else h[t] <= h[i]
  }

  ghost predicate Leveled(code: seq<Byte>, h: seq<nat>, a: nat, b: nat) {
    && |h| == |code| + 1
    && forall i: nat {:trigger Boundary(code, a, i)} :: Boundary(code, a, i) && i < b ==> Decodes(code, i) && LevelOk(code, h, i)
  }

  ghost predicate Balanced(code: seq<Byte>, h: seq<nat>) {
    |h| == |code| + 1 && h[0] == 0 && Leveled(code, h, 0, |code|)
  }

  predicate HeightsAt(h: seq<nat>, a: nat, block: seq<nat>) {
    a + |block| <= |h| && h[a..a + |block|] == block
  }

  lemma HeightsSplit(h: seq<nat>, a: nat, x: seq<nat>, y: seq<nat>)
    requires HeightsAt(h, a, x + y)
    ensures HeightsAt(h, a, x) && HeightsAt(h, a + |x|, y)
  {
    var z := x + y;
    assert h[a..a + |x|] == z[..|x|] == x;
    assert h[a + |x|..a + |x| + |y|] == z[|x|..] == y;
  }

  lemma HeightsLevel(h: seq<nat>, a: nat, n: nat, base: nat, i: nat)
    requires HeightsAt(h, a, Level(n, base)) && i < n
    ensures h[a + i] == base
  {
    assert h[a + i] == h[a..a + n][i];
  }

  lemma LeveledConcat(code: seq<Byte>, h: seq<nat>, a: nat, b: nat, c: nat)
    requires Leveled(code, h, a, b) && Leveled(code, h, b, c) && Boundary(code, a, b)
    ensures Leveled(code, h, a, c)
  {
    forall i: nat {:trigger Boundary(code, a, i)} | Boundary(code, a, i) && i < c
      ensures Decodes(code, i) && LevelOk(code, h, i)
    {
      if b <= i {
        BoundaryLinear(code, a, b, i);
      }
    }
  }

  lemma LeveledOne(code: seq<Byte>, h: seq<nat>, a: nat, b: nat)
    requires |h| == |code| + 1 && Decodes(code, a) && LevelOk(code, h, a) && b <= a + CommandSize(code, a)
    ensures Leveled(code, h, a, b)
  {
    forall i: nat {:trigger Boundary(code, a, i)} | Boundary(code, a, i) && i < b
      ensures i == a
    {
      if i != a {
        BoundaryBounds(code, a + CommandSize(code, a), i);
      }
    }
  }

  // ---- The heights of a tree ----

  /** A block of code has its heights, and what follows it is no higher than base. */
  ghost predicate Placed(code: seq<Byte>, h: seq<nat>, a: nat, block: seq<nat>, base: nat) {
    && |code| <= MAX_CODE && |h| == |code| + 1 && a + |block| <= |code|
    && HeightsAt(h, a, block) && h[a + |block|] <= base
  }

  lemma {:induction false} SeqLeveled(code: seq<Byte>, h: seq<nat>, e: Seq, a: nat, base: nat)
    requires WellFormed(e) && At(code, a, SeqCode(e)) && Placed(code, h, a, HeightsSeq(e, base), base)
    ensures Leveled(code, h, a, a + |SeqCode(e)|) && h[a] <= base
    decreases e, 0
  {
    match e
    case Nil =>
      forall i: nat {:trigger Boundary(code, a, i)} | Boundary(code, a, i) && i < a ensures false {
        BoundaryBounds(code, a, i);
      }
    case Snoc(init, last) =>
      var mid := a + |SeqCode(init)|;
      AtSplit(code, a, SeqCode(init), ItemCode(last));
      HeightsSplit(h, a, HeightsSeq(init, base), HeightsItem(last, base));
      ItemLeveled(code, h, last, mid, base);
      SeqLeveled(code, h, init, a, base);
      SeqClosed(code, init, a, false);
      LeveledConcat(code, h, a, mid, mid + |ItemCode(last)|);
  }

  lemma {:induction false} ItemLeveled(code: seq<Byte>, h: seq<nat>, e: Item, a: nat, base: nat)
    requires WellFormedItem(e) && At(code, a, ItemCode(e)) && Placed(code, h, a, HeightsItem(e, base), base)
    ensures Leveled(code, h, a, a + |ItemCode(e)|) && h[a] <= base
    decreases e, 0
  {
    if e.Group? {
      GroupLeveled(code, h, e.reg, e.alts, a, base);
    } else if e.Repeat? {
      var p := C.LoopLayout(code, a, e.zero, e.many, SeqCode(e.body));
      LoopHeights(h, e.zero, e.many, e.body, a, p, base);
      RepeatLeveled(code, h, e.zero, e.many, e.body, a, p, a + |ItemCode(e)|, base);
    } else {
      SingleLeveled(code, h, e, a, base);
    }
  }

  lemma SingleLeveled(code: seq<Byte>, h: seq<nat>, e: Item, a: nat, base: nat)
    requires WellFormedItem(e) && !e.Group? && !e.Repeat?
    requires At(code, a, ItemCode(e)) && Placed(code, h, a, HeightsItem(e, base), base)
    ensures Leveled(code, h, a, a + |ItemCode(e)|) && h[a] <= base
  {
    C.SingleStep(C.Sys(code, [], {}, (c, r) => false), e, a, 0, []);
    SingleSize(code, e, a);
    HeightsLevel(h, a, |ItemCode(e)|, base, 0);
    LeveledOne(code, h, a, a + |ItemCode(e)|);
  }

  lemma {:induction false} GroupLeveled(code: seq<Byte>, h: seq<nat>, reg: Byte, alts: Alts, a: nat, base: nat)
    requires WellFormedAlts(alts) && At(code, a, AltsCode(alts) + [STOP_MEMORY, reg])
    requires Placed(code, h, a, HeightsAlts(alts, base) + Level(2, base), base)
    ensures Leveled(code, h, a, a + |AltsCode(alts)| + 2) && h[a] <= base
    decreases alts, 2
  {
    var b := a + |AltsCode(alts)|;
    AtSplit(code, a, AltsCode(alts), [STOP_MEMORY, reg]);
    AtByte(code, b, [STOP_MEMORY, reg], 0);
    HeightsSplit(h, a, HeightsAlts(alts, base), Level(2, base));
    HeightsLevel(h, b, 2, base, 0);
    LeveledOne(code, h, b, b + 2);
    AltsLeveled(code, h, alts, a, base);
    AltsClosed(code, alts, a, false);
    LeveledConcat(code, h, a, b, b + 2);
  }

  /** What the heights of a repetition are at its jumps. */
  ghost predicate LoopHigh(h: seq<nat>, zero: bool, many: bool, body: Seq, a: nat, p: nat, base: nat)
    requires WellFormed(body)
  {
    var q, inner := p + 3 + |SeqCode(body)|, if many then base + 1 else base;
    && q < |h| && a <= p && h[p] == base && h[a] == base
    && HeightsAt(h, p + 3, HeightsSeq(body, inner))
    && (many ==> h[q] == base + 1)
  }

  lemma LoopHeights(h: seq<nat>, zero: bool, many: bool, body: Seq, a: nat, p: nat, base: nat)
    requires WellFormed(body) && (zero || many) && p == if zero then a else a + 3
    requires HeightsAt(h, a, HeightsItem(Repeat(zero, many, body), base))
    requires a + |HeightsItem(Repeat(zero, many, body), base)| < |h|
    ensures LoopHigh(h, zero, many, body, a, p, base)
  {
    var lead, tail := if zero then 3 else 6, if many then 3 else 0;
    var inner := HeightsSeq(body, if many then base + 1 else base);
    HeightsSplit(h, a, Level(lead, base) + inner, Level(tail, base + 1));
    HeightsSplit(h, a, Level(lead, base), inner);
    HeightsLevel(h, a, lead, base, 0);
    HeightsLevel(h, a, lead, base, lead - 3);
    if many {
      HeightsLevel(h, a + lead + |inner|, 3, base + 1, 0);
    }
  }

  lemma {:induction false} RepeatLeveled(code: seq<Byte>, h: seq<nat>, zero: bool, many: bool, body: Seq, a: nat, p: nat, b: nat, base: nat)
    requires WellFormed(body) && C.LoopAt(code, a, p, b, zero, many, SeqCode(body)) && LoopHigh(h, zero, many, body, a, p, base)
    requires |code| <= MAX_CODE && |h| == |code| + 1 && h[b] <= base
    ensures Leveled(code, h, a, b) && h[a] <= base
    decreases body, 1
  {
    hide At, Leveled, SeqCode, HeightsSeq, HeightsAt, CommandOk;
    var n := |SeqCode(body)|;
    assert Placed(code, h, p + 3, HeightsSeq(body, if many then base + 1 else base), if many then base + 1 else base);
    SeqLeveled(code, h, body, p + 3, if many then base + 1 else base);
    SeqClosed(code, body, p + 3, false);
    LoopLeveled(code, h, zero, many, SeqCode(body), a, p, b, base);
  }

  /** The jumps around a body. */
  lemma LoopLeveled(code: seq<Byte>, h: seq<nat>, zero: bool, many: bool, body: seq<Byte>, a: nat, p: nat, b: nat, base: nat)
    requires C.LoopAt(code, a, p, b, zero, many, body) && |h| == |code| + 1 && h[b] <= base
    requires h[p] == base && h[a] == base && h[p + 3] <= (if many then base + 1 else base) && (many ==> h[p + 3 + |body|] == base + 1)
    requires Leveled(code, h, p + 3, p + 3 + |body|) && Boundary(code, p + 3, p + 3 + |body|)
    ensures Leveled(code, h, a, b)
  {
    hide Leveled, At;
    var q := p + 3 + |body|;
    assert Decodes(code, p) && CommandSize(code, p) == 3;
    LeveledOne(code, h, p, p + 3);
    assert Boundary(code, p, p + 3) by {
      assert Boundary(code, p + 3, p + 3);
    }
    if many {
      LeveledOne(code, h, q, b);
      LeveledConcat(code, h, p + 3, q, b);
    }
    LeveledConcat(code, h, p, p + 3, b);
    if !zero {
      LeveledOne(code, h, a, p);
      assert Boundary(code, a, p) by {
        assert Boundary(code, p, p);
      }
      LeveledConcat(code, h, a, p, b);
    }
  }

  lemma {:induction false} AltsLeveled(code: seq<Byte>, h: seq<nat>, e: Alts, a: nat, base: nat)
    requires WellFormedAlts(e) && At(code, a, AltsCode(e)) && Placed(code, h, a, HeightsAlts(e, base), base)
    ensures Leveled(code, h, a, a + |AltsCode(e)|) && h[a] <= base
    decreases e, 1
  {
    hide At, Leveled, SeqCode, HeightsSeq, CommandOk, HeightsAt;
    if e.One? {
      SeqLeveled(code, h, e.only, a, base);
    } else {
      var n := |SeqCode(e.final)|;
      var mid := C.AltsLayout(code, a, e.others, e.final);
      HeightsSplit(h, a, HeightsPrefix(e.others, n, base), HeightsSeq(e.final, base));
      SeqLeveled(code, h, e.final, mid, base);
      PrefixLeveled(code, h, e.others, a, mid, mid + n, base);
      PrefixClosed(code, e.others, a, mid, mid + n, false);
      LeveledConcat(code, h, a, mid, mid + n);
    }
  }

  lemma {:induction false} PrefixLeveled(code: seq<Byte>, h: seq<nat>, e: Alts, a: nat, b: nat, t: nat, base: nat)
    requires WellFormedAlts(e) && b <= t <= |code| && At(code, a, PrefixCode(e, t - b)) && b == a + |PrefixCode(e, t - b)|
    requires Placed(code, h, a, HeightsPrefix(e, t - b, base), base) && h[t] <= base
    ensures Leveled(code, h, a, b) && h[a] <= base
    decreases e, 1
  {
    hide At, Leveled, SeqCode, HeightsSeq, CommandOk, HeightsAt, PrefixCode, GuardedCode, Boundary;
    if e.One? {
      OnlyPrefix(e.only, t - b);
      AlternativeLeveled(code, h, e.only, a, t, base);
    } else {
      var n := |SeqCode(e.final)|;
      var mid := C.PrefixLayout(code, a, b, e.others, e.final, t);
      HeightsSplit(h, a, HeightsPrefix(e.others, n + 3, base), HeightsAlternative(e.final, base));
      AlternativeLeveled(code, h, e.final, mid, t, base);
      PrefixLeveled(code, h, e.others, a, mid, b - 3, base);
      PrefixClosed(code, e.others, a, mid, b - 3, false);
      LeveledConcat(code, h, a, mid, b);
    }
  }

  lemma {:induction false} AlternativeLeveled(code: seq<Byte>, h: seq<nat>, e: Seq, a: nat, t: nat, base: nat)
    requires WellFormed(e) && a + |SeqCode(e)| + 6 <= t <= |code|
    requires At(code, a, GuardedCode(SeqCode(e)) + Jump(JUMP, t - (a + |SeqCode(e)| + 6)))
    requires Placed(code, h, a, HeightsAlternative(e, base), base) && h[t] <= base
    ensures Leveled(code, h, a, a + |SeqCode(e)| + 6) && h[a] <= base && h[a + |SeqCode(e)| + 3] <= base
    decreases e, 1
  {
    var q := a + |SeqCode(e)| + 3;
    C.GuardLayout(code, a, SeqCode(e), t);
    HeightsSplit(h, a, Level(3, base) + HeightsSeq(e, base), Level(3, base));
    HeightsSplit(h, a, Level(3, base), HeightsSeq(e, base));
    HeightsLevel(h, a, 3, base, 0);
    HeightsLevel(h, q, 3, base, 0);
    hide At, Leveled, SeqCode, HeightsSeq, HeightsAt, CommandOk, GuardedCode;
    SeqLeveled(code, h, e, a + 3, base);
    SeqClosed(code, e, a + 3, false);
    GuardLeveled(code, h, a, |SeqCode(e)|, t, base);
  }

  lemma GuardLeveled(code: seq<Byte>, h: seq<nat>, a: nat, n: nat, t: nat, base: nat)
    requires C.JumpsTo(code, a, ON_FAILURE_JUMP, a + n + 6) && C.JumpsTo(code, a + n + 3, JUMP, t)
    requires |h| == |code| + 1 && h[a] == base && h[a + 3] <= base && h[a + n + 3] == base && h[a + n + 6] <= base && h[t] <= base
    requires Leveled(code, h, a + 3, a + n + 3) && Boundary(code, a + 3, a + n + 3)
    ensures Leveled(code, h, a, a + n + 6)
  {
    hide Leveled;
    var q := a + n + 3;
    assert Decodes(code, a) && CommandSize(code, a) == 3 && Decodes(code, q) && CommandSize(code, q) == 3;
    LeveledOne(code, h, a, a + 3);
    LeveledOne(code, h, q, q + 3);
    LeveledConcat(code, h, a + 3, q, q + 3);
    assert Boundary(code, a, a + 3) by {
      assert Boundary(code, a + 3, a + 3);
    }
    LeveledConcat(code, h, a, a + 3, q + 3);
  }

  /** The heights of a compiled pattern: how many loops a place is inside of. */
  function Heights(e: Alts): (h: seq<nat>)
    requires WellFormedAlts(e)
  {
    HeightsAlts(e, 0) + [0]
  }

  lemma ProgramBalanced(e: Alts)
    requires WellFormedAlts(e) && |AltsCode(e)| <= MAX_CODE
    ensures Balanced(AltsCode(e), Heights(e))
  {
    var code, h := AltsCode(e), Heights(e);
    AtSlice(code, 0, code);
    assert h[0..|code|] == HeightsAlts(e, 0);
    AltsLeveled(code, h, e, 0, 0);
  }
}
