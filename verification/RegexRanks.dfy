/** Every match ends.  Each place of a program whose loops are proper is given a rank that
    gets smaller with every command that consumes nothing: a loop leads back to a higher
    rank only through its body, and that consumes.  So there is a bound on what is left
    to be tried from any place, whichever failure points are dropped, and the failure
    stack holds only so much of it. */
module RegexRanks {
  import opened RegexSyntax
  import opened RegexCode
  import opened RegexMachine
  import opened RegexHeights
  import opened RegexLayout
  import opened RegexMatch
  import C = RegexCorrect

  // ---- The ranks of a tree ----

  /** The rank at the start of a block, or behind it if it is empty. */
  function First(block: seq<nat>, exit: nat): nat {
    if block == [] then exit else block[0]
  }

  /** One above both. */
  function Over(x: nat, y: nat): (z: nat)
    ensures x < z && y < z
  {
    if x < y then y + 1 else x + 1
  }

  /** Behind the block of e the rank is no higher than exit. */
  function RanksItem(e: Item, exit: nat): (h: seq<nat>)
    requires WellFormedItem(e)
    ensures |h| == |ItemCode(e)|
    decreases e, 0
  {
    match e
    case Group(_, alts) => RanksAlts(alts, exit + 1) + Level(2, exit + 1)
    case Repeat(zero, many, body) =>
      var head := LoopRank(many, body, exit);
      Level(if zero then 0 else 3, First(RanksSeq(body, 0), 0) + 1)
      + Level(3, head)
      + RanksSeq(body, if many then head + 1 else exit)
      + Level(if many then 3 else 0, head + 1)
    case Test(_) => Level(1, exit + 1)
    case StartMem(_) => Level(2, exit + 1)
    case _ => Level(|ItemCode(e)|, 0)
  }

  /** The rank at the on_failure_jump of a repetition. */
  function LoopRank(many: bool, body: Seq, exit: nat): (head: nat)
    requires WellFormed(body)
    ensures exit < head
    decreases body, 1
  {
    var x := if many then 0 else exit;
    Over(exit, First(RanksSeq(body, x), x))
  }

  function RanksSeq(e: Seq, exit: nat): (h: seq<nat>)
    requires WellFormed(e)
    ensures |h| == |SeqCode(e)|
    decreases e, 0
  {
    match e
    case Nil => []
    case Snoc(init, last) =>
      var block := RanksItem(last, exit);
      RanksSeq(init, First(block, exit)) + block
  }

  function RanksAlts(e: Alts, exit: nat): (h: seq<nat>)
    requires WellFormedAlts(e)
    ensures |h| == |AltsCode(e)|
    decreases e, 0
  {
    match e
    case One(only) => RanksSeq(only, exit)
    case More(others, final) =>
      var block := RanksSeq(final, exit);
      RanksPrefix(others, |SeqCode(final)|, First(block, exit), exit) + block
  }

  /** Alternatives, with the rank of the one behind them and of where their jumps lead. */
  function RanksPrefix(e: Alts, offset: int, next: nat, exit: nat): (h: seq<nat>)
    requires WellFormedAlts(e)
    ensures |h| == |PrefixCode(e, offset)| && h != []
    decreases e, 0
  {
    match e
    case One(only) => RanksAlternative(only, next, exit)
    case More(others, final) =>
      var block := RanksAlternative(final, next, exit);
      RanksPrefix(others, |SeqCode(final)| + 3, block[0], exit + 1) + block
  }

  function RanksAlternative(e: Seq, next: nat, exit: nat): (h: seq<nat>)
    requires WellFormed(e)
    ensures |h| == |SeqCode(e)| + 6 && h[0] > next
    decreases e, 1
  {
    var block := RanksSeq(e, exit + 1);
    Level(3, Over(next, First(block, exit + 1))) + block + Level(3, exit + 1)
  }

  // ---- What must consume starts at the same rank whatever follows it ----

  lemma {:induction false} FixedItem(e: Item, x: nat, y: nat)
    requires WellFormedItem(e) && !NullableItem(e)
    ensures First(RanksItem(e, x), x) == First(RanksItem(e, y), y)
    decreases e, 0
  {
    if e.Group? {
      FixedAlts(e.alts, x + 1, y + 1);
    } else if !e.Repeat? {
      assert ItemCode(e) != [];
    }
  }

  lemma {:induction false} FixedSeq(e: Seq, x: nat, y: nat)
    requires WellFormed(e) && !Nullable(e)
    ensures First(RanksSeq(e, x), x) == First(RanksSeq(e, y), y)
    decreases e, 0
  {
    var rx, ry := First(RanksItem(e.last, x), x), First(RanksItem(e.last, y), y);
    FirstOfSeq(e.init, e.last, x);
    FirstOfSeq(e.init, e.last, y);
    if NullableItem(e.last) {
      FixedSeq(e.init, rx, ry);
    } else {
      FixedItem(e.last, x, y);
    }
  }

  lemma FirstOfSeq(init: Seq, last: Item, x: nat)
    requires WellFormed(init) && WellFormedItem(last)
    ensures First(RanksSeq(Snoc(init, last), x), x)
         == First(RanksSeq(init, First(RanksItem(last, x), x)), First(RanksItem(last, x), x))
  {
  }

  lemma {:induction false} FixedAlts(e: Alts, x: nat, y: nat)
    requires WellFormedAlts(e) && !NullableAlts(e)
    ensures First(RanksAlts(e, x), x) == First(RanksAlts(e, y), y)
    decreases e, 0
  {
    match e
    case One(only) => FixedSeq(only, x, y);
    case More(others, final) =>
      FixedSeq(final, x, y);
      FixedPrefix(others, |SeqCode(final)|, First(RanksSeq(final, x), x), x, y);
  }

  lemma {:induction false} FixedPrefix(e: Alts, offset: int, next: nat, x: nat, y: nat)
    requires WellFormedAlts(e) && !NullableAlts(e)
    ensures RanksPrefix(e, offset, next, x)[0] == RanksPrefix(e, offset, next, y)[0]
    decreases e, 0
  {
    match e
    case One(only) => FixedSeq(only, x + 1, y + 1);
    case More(others, final) =>
      FixedSeq(final, x + 1, y + 1);
      FixedPrefix(others, |SeqCode(final)| + 3, RanksAlternative(final, next, x)[0], x + 1, y + 1);
  }

  // ---- What ranks have to satisfy ----

  /** The command at i leads to lower ranks, unless it consumes. */
  predicate RankOk(code: seq<Byte>, h: seq<nat>, i: nat)
    requires |h| == |code| + 1 && Decodes(code, i)
  {
    if IsJumpOp(code[i]) then h[Target(code, i)] < h[i] && (code[i] == ON_FAILURE_JUMP ==> h[i + 3] < h[i])
    else Consumes(code, i) == 0 ==> h[i + CommandSize(code, i)] < h[i]
  }

  ghost predicate Ranked(code: seq<Byte>, h: seq<nat>, a: nat, b: nat) {
    && |h| == |code| + 1
    && forall i: nat {:trigger Boundary(code, a, i)} :: Boundary(code, a, i) && i < b ==> Decodes(code, i) && RankOk(code, h, i)
  }

  lemma RankedConcat(code: seq<Byte>, h: seq<nat>, a: nat, b: nat, c: nat)
    requires Ranked(code, h, a, b) && Ranked(code, h, b, c) && Boundary(code, a, b)
    ensures Ranked(code, h, a, c)
  {
    forall i: nat {:trigger Boundary(code, a, i)} | Boundary(code, a, i) && i < c
      ensures Decodes(code, i) && RankOk(code, h, i)
    {
      if b <= i {
        BoundaryLinear(code, a, b, i);
      }
    }
  }

  lemma RankedOne(code: seq<Byte>, h: seq<nat>, a: nat, b: nat)
    requires |h| == |code| + 1 && Decodes(code, a) && RankOk(code, h, a) && b <= a + CommandSize(code, a)
    ensures Ranked(code, h, a, b)
  {
    forall i: nat {:trigger Boundary(code, a, i)} | Boundary(code, a, i) && i < b
      ensures i == a
    {
      if i != a {
        BoundaryBounds(code, a + CommandSize(code, a), i);
      }
    }
  }

  // ---- The ranks of a tree are ranks of its code ----

  /** A block of code has its ranks, and what follows it is no higher than exit. */
  ghost predicate Below(code: seq<Byte>, h: seq<nat>, a: nat, block: seq<nat>, exit: nat) {
    && |code| <= MAX_CODE && |h| == |code| + 1 && a + |block| <= |code|
    && HeightsAt(h, a, block) && h[a + |block|] <= exit
  }

  lemma FirstAt(code: seq<Byte>, h: seq<nat>, a: nat, block: seq<nat>, exit: nat)
    requires Below(code, h, a, block, exit)
    ensures h[a] <= First(block, exit)
  {
    if block != [] {
      assert h[a] == h[a..a + |block|][0];
    }
  }

  lemma BelowSplit(code: seq<Byte>, h: seq<nat>, a: nat, x: seq<nat>, y: seq<nat>, exit: nat)
    requires Below(code, h, a, x + y, exit)
    ensures Below(code, h, a, x, First(y, exit)) && Below(code, h, a + |x|, y, exit)
  {
    HeightsSplit(h, a, x, y);
    hide HeightsAt;
    assert Below(code, h, a + |x|, y, exit);
    FirstAt(code, h, a + |x|, y, exit);
  }

  lemma {:induction false} SeqRanked(code: seq<Byte>, h: seq<nat>, e: Seq, a: nat, exit: nat)
    requires WellFormed(e) && ProperLoops(e) && At(code, a, SeqCode(e)) && Below(code, h, a, RanksSeq(e, exit), exit)
    ensures Ranked(code, h, a, a + |SeqCode(e)|)
    decreases e, 0
  {
    match e
    case Nil =>
      forall i: nat {:trigger Boundary(code, a, i)} | Boundary(code, a, i) && i < a ensures false {
        BoundaryBounds(code, a, i);
      }
    case Snoc(init, last) =>
      var mid, block := a + |SeqCode(init)|, RanksItem(last, exit);
      AtSplit(code, a, SeqCode(init), ItemCode(last));
      BelowSplit(code, h, a, RanksSeq(init, First(block, exit)), block, exit);
      hide At, Ranked, CommandOk, ItemCode, RanksItem, RanksSeq, First, Below, Boundary;
      ItemRanked(code, h, last, mid, exit);
      SeqRanked(code, h, init, a, First(block, exit));
      SeqClosed(code, init, a, false);
      RankedConcat(code, h, a, mid, mid + |ItemCode(last)|);
  }

  lemma {:induction false} ItemRanked(code: seq<Byte>, h: seq<nat>, e: Item, a: nat, exit: nat)
    requires WellFormedItem(e) && ProperLoopsItem(e) && At(code, a, ItemCode(e)) && Below(code, h, a, RanksItem(e, exit), exit)
    ensures Ranked(code, h, a, a + |ItemCode(e)|)
    decreases e, 0
  {
    hide At, HeightsAt, Ranked, RanksAlts, RanksSeq, AltsCode, SeqCode, RepeatCode, LoopRank, CommandOk;
    if e.Group? {
      GroupRanked(code, h, e.reg, e.alts, a, exit);
    } else if e.Repeat? {
      var p := C.LoopLayout(code, a, e.zero, e.many, SeqCode(e.body));
      LoopRanks(h, e.zero, e.many, e.body, a, p, exit);
      RepeatRanked(code, h, e.zero, e.many, e.body, a, p, a + |ItemCode(e)|, exit);
    } else {
      SingleRanked(code, h, e, a, exit);
    }
  }

  lemma SingleRanked(code: seq<Byte>, h: seq<nat>, e: Item, a: nat, exit: nat)
    requires WellFormedItem(e) && !e.Group? && !e.Repeat?
    requires At(code, a, ItemCode(e)) && Below(code, h, a, RanksItem(e, exit), exit)
    ensures Ranked(code, h, a, a + |ItemCode(e)|)
  {
    C.SingleStep(C.Sys(code, [], {}, (c, r) => false), e, a, 0, []);
    SingleSize(code, e, a);
    AtByte(code, a, ItemCode(e), 0);
    HeightsLevel(h, a, |ItemCode(e)|, if NullableItem(e) then exit + 1 else 0, 0);
    RankedOne(code, h, a, a + |ItemCode(e)|);
  }

  lemma {:induction false} GroupRanked(code: seq<Byte>, h: seq<nat>, reg: Byte, alts: Alts, a: nat, exit: nat)
    requires WellFormedAlts(alts) && ProperLoopsAlts(alts) && At(code, a, AltsCode(alts) + [STOP_MEMORY, reg])
    requires Below(code, h, a, RanksAlts(alts, exit + 1) + Level(2, exit + 1), exit)
    ensures Ranked(code, h, a, a + |AltsCode(alts)| + 2)
    decreases alts, 2
  {
    var b := a + |AltsCode(alts)|;
    AtSplit(code, a, AltsCode(alts), [STOP_MEMORY, reg]);
    AtByte(code, b, [STOP_MEMORY, reg], 0);
    HeightsSplit(h, a, RanksAlts(alts, exit + 1), Level(2, exit + 1));
    HeightsLevel(h, b, 2, exit + 1, 0);
    RankedOne(code, h, b, b + 2);
    AltsRanked(code, h, alts, a, exit + 1);
    AltsClosed(code, alts, a, false);
    RankedConcat(code, h, a, b, b + 2);
  }

  /** What the ranks of a repetition are at its jumps. */
  ghost predicate LoopRanksAt(h: seq<nat>, zero: bool, many: bool, body: Seq, a: nat, p: nat, exit: nat)
    requires WellFormed(body)
  {
    var q, head := p + 3 + |SeqCode(body)|, LoopRank(many, body, exit);
    && q < |h| && a <= p && h[p] == head && (!zero ==> h[a] == First(RanksSeq(body, 0), 0) + 1)
    && HeightsAt(h, p + 3, RanksSeq(body, if many then head + 1 else exit))
    && (many ==> h[q] == head + 1)
  }

  lemma LoopRanks(h: seq<nat>, zero: bool, many: bool, body: Seq, a: nat, p: nat, exit: nat)
    requires WellFormed(body) && (zero || many) && p == if zero then a else a + 3
    requires HeightsAt(h, a, RanksItem(Repeat(zero, many, body), exit))
    requires a + |RanksItem(Repeat(zero, many, body), exit)| < |h|
    ensures LoopRanksAt(h, zero, many, body, a, p, exit)
  {
    hide HeightsAt, RanksSeq, LoopRank, SeqCode;
    var head := LoopRank(many, body, exit);
    var first := First(RanksSeq(body, 0), 0) + 1;
    var inner := RanksSeq(body, if many then head + 1 else exit);
    LoopParts(h, a, if zero then 0 else 3, first, head, inner, if many then 3 else 0);
    HeightsLevel(h, p, 3, head, 0);
    if !zero {
      HeightsLevel(h, a, 3, first, 0);
    }
    if many {
      HeightsLevel(h, p + 3 + |inner|, 3, head + 1, 0);
    }
  }

  lemma LoopParts(h: seq<nat>, a: nat, n: nat, first: nat, head: nat, inner: seq<nat>, k: nat)
    requires HeightsAt(h, a, Level(n, first) + Level(3, head) + inner + Level(k, head + 1))
    ensures HeightsAt(h, a, Level(n, first)) && HeightsAt(h, a + n, Level(3, head))
    ensures HeightsAt(h, a + n + 3, inner) && HeightsAt(h, a + n + 3 + |inner|, Level(k, head + 1))
  {
    hide HeightsAt;
    HeightsSplit(h, a, Level(n, first) + Level(3, head) + inner, Level(k, head + 1));
    HeightsSplit(h, a, Level(n, first) + Level(3, head), inner);
    HeightsSplit(h, a, Level(n, first), Level(3, head));
  }

  lemma {:induction false} RepeatRanked(code: seq<Byte>, h: seq<nat>, zero: bool, many: bool, body: Seq, a: nat, p: nat, b: nat, exit: nat)
    requires WellFormed(body) && ProperLoops(body) && (zero || many) && (many ==> !Nullable(body))
    requires C.LoopAt(code, a, p, b, zero, many, SeqCode(body)) && LoopRanksAt(h, zero, many, body, a, p, exit)
    requires |code| <= MAX_CODE && |h| == |code| + 1 && h[b] <= exit
    ensures Ranked(code, h, a, b)
    decreases body, 1
  {
    hide At, Ranked, SeqCode, RanksSeq, HeightsAt, CommandOk;
    var head := LoopRank(many, body, exit);
    var inner := if many then head + 1 else exit;
    assert Below(code, h, p + 3, RanksSeq(body, inner), inner);
    FirstAt(code, h, p + 3, RanksSeq(body, inner), inner);
    if many {
      FixedSeq(body, inner, 0);
    }
    SeqRanked(code, h, body, p + 3, inner);
    SeqClosed(code, body, p + 3, false);
    LoopRanked(code, h, zero, many, SeqCode(body), a, p, b);
  }

  /** The jumps around a body. */
  lemma LoopRanked(code: seq<Byte>, h: seq<nat>, zero: bool, many: bool, body: seq<Byte>, a: nat, p: nat, b: nat)
    requires C.LoopAt(code, a, p, b, zero, many, body) && |h| == |code| + 1
    requires h[b] < h[p] && h[p + 3] < h[p] && (!zero ==> h[p + 3] < h[a]) && (many ==> h[p] < h[p + 3 + |body|])
    requires Ranked(code, h, p + 3, p + 3 + |body|) && Boundary(code, p + 3, p + 3 + |body|)
    ensures Ranked(code, h, a, b)
  {
    hide Ranked, At;
    var q := p + 3 + |body|;
    assert Decodes(code, p) && CommandSize(code, p) == 3;
    RankedOne(code, h, p, p + 3);
    assert Boundary(code, p, p + 3) by {
      assert Boundary(code, p + 3, p + 3);
    }
    if many {
      RankedOne(code, h, q, b);
      RankedConcat(code, h, p + 3, q, b);
    }
    RankedConcat(code, h, p, p + 3, b);
    if !zero {
      RankedOne(code, h, a, p);
      assert Boundary(code, a, p) by {
        assert Boundary(code, p, p);
      }
      RankedConcat(code, h, a, p, b);
    }
  }

  lemma {:induction false} AltsRanked(code: seq<Byte>, h: seq<nat>, e: Alts, a: nat, exit: nat)
    requires WellFormedAlts(e) && ProperLoopsAlts(e) && At(code, a, AltsCode(e)) && Below(code, h, a, RanksAlts(e, exit), exit)
    ensures Ranked(code, h, a, a + |AltsCode(e)|)
    decreases e, 1
  {
    hide At, Ranked, SeqCode, RanksSeq, RanksPrefix, PrefixCode, First, CommandOk, HeightsAt, Boundary;
    if e.One? {
      SeqRanked(code, h, e.only, a, exit);
    } else {
      var n, block := |SeqCode(e.final)|, RanksSeq(e.final, exit);
      var mid := C.AltsLayout(code, a, e.others, e.final);
      BelowSplit(code, h, a, RanksPrefix(e.others, n, First(block, exit), exit), block, exit);
      SeqRanked(code, h, e.final, mid, exit);
      PrefixRanked(code, h, e.others, a, mid, mid + n, First(block, exit), exit);
      PrefixClosed(code, e.others, a, mid, mid + n, false);
      RankedConcat(code, h, a, mid, mid + n);
    }
  }

  lemma {:induction false} PrefixRanked(code: seq<Byte>, h: seq<nat>, e: Alts, a: nat, b: nat, t: nat, next: nat, exit: nat)
    requires WellFormedAlts(e) && ProperLoopsAlts(e)
    requires b <= t <= |code| && At(code, a, PrefixCode(e, t - b)) && b == a + |PrefixCode(e, t - b)|
    requires Below(code, h, a, RanksPrefix(e, t - b, next, exit), next) && h[t] <= exit
    ensures Ranked(code, h, a, b)
    decreases e, 1
  {
    hide At, Ranked, SeqCode, RanksSeq, CommandOk, HeightsAt, PrefixCode, GuardedCode, Boundary;
    if e.One? {
      OnlyPrefix(e.only, t - b);
      AlternativeRanked(code, h, e.only, a, t, next, exit);
    } else {
      var n, block := |SeqCode(e.final)|, RanksAlternative(e.final, next, exit);
      var mid := C.PrefixLayout(code, a, b, e.others, e.final, t);
      HeightsSplit(h, a, RanksPrefix(e.others, n + 3, block[0], exit + 1), block);
      AlternativeRanked(code, h, e.final, mid, t, next, exit);
      PrefixRanked(code, h, e.others, a, mid, b - 3, block[0], exit + 1);
      PrefixClosed(code, e.others, a, mid, b - 3, false);
      RankedConcat(code, h, a, mid, b);
    }
  }

  lemma {:induction false} AlternativeRanked(code: seq<Byte>, h: seq<nat>, e: Seq, a: nat, t: nat, next: nat, exit: nat)
    requires WellFormed(e) && ProperLoops(e) && a + |SeqCode(e)| + 6 <= t <= |code|
    requires At(code, a, GuardedCode(SeqCode(e)) + Jump(JUMP, t - (a + |SeqCode(e)| + 6)))
    requires Below(code, h, a, RanksAlternative(e, next, exit), next) && h[t] <= exit
    ensures Ranked(code, h, a, a + |SeqCode(e)| + 6)
    ensures h[a] == RanksAlternative(e, next, exit)[0] && h[a + |SeqCode(e)| + 3] == exit + 1
    decreases e, 1
  {
    var q, block := a + |SeqCode(e)| + 3, RanksSeq(e, exit + 1);
    var head := Over(next, First(block, exit + 1));
    C.GuardLayout(code, a, SeqCode(e), t);
    hide At, Ranked, SeqCode, RanksSeq, HeightsAt, CommandOk, GuardedCode, First;
    HeightsSplit(h, a, Level(3, head) + block, Level(3, exit + 1));
    HeightsSplit(h, a, Level(3, head), block);
    HeightsLevel(h, a, 3, head, 0);
    HeightsLevel(h, q, 3, exit + 1, 0);
    FirstAt(code, h, a + 3, block, exit + 1);
    SeqRanked(code, h, e, a + 3, exit + 1);
    SeqClosed(code, e, a + 3, false);
    GuardRanked(code, h, a, |SeqCode(e)|, t);
  }

  lemma GuardRanked(code: seq<Byte>, h: seq<nat>, a: nat, n: nat, t: nat)
    requires C.JumpsTo(code, a, ON_FAILURE_JUMP, a + n + 6) && C.JumpsTo(code, a + n + 3, JUMP, t)
    requires |h| == |code| + 1 && h[a + 3] < h[a] && h[a + n + 6] < h[a] && h[t] < h[a + n + 3]
    requires Ranked(code, h, a + 3, a + n + 3) && Boundary(code, a + 3, a + n + 3)
    ensures Ranked(code, h, a, a + n + 6)
  {
    hide Ranked;
    var q := a + n + 3;
    assert Decodes(code, a) && CommandSize(code, a) == 3 && Decodes(code, q) && CommandSize(code, q) == 3;
    RankedOne(code, h, a, a + 3);
    RankedOne(code, h, q, q + 3);
    RankedConcat(code, h, a + 3, q, q + 3);
    assert Boundary(code, a, a + 3) by {
      assert Boundary(code, a + 3, a + 3);
    }
    RankedConcat(code, h, a, a + 3, q + 3);
  }

  function Ranks(e: Alts): (h: seq<nat>)
    requires WellFormedAlts(e)
  {
    RanksAlts(e, 0) + [0]
  }

  lemma ProgramRanked(e: Alts)
    requires WellFormedAlts(e) && ProperLoopsAlts(e) && |AltsCode(e)| <= MAX_CODE
    ensures Ranked(AltsCode(e), Ranks(e), 0, |AltsCode(e)|)
  {
    var code, h := AltsCode(e), Ranks(e);
    AtSlice(code, 0, code);
    assert h[0..|code|] == RanksAlts(e, 0);
    AltsRanked(code, h, e, 0, 0);
  }
}
