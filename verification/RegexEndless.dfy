/** Where matching need not end: a repetition at the end of a program drops its failure
    points, so one whose operand has matched nothing is gone through again and again. */
module RegexEndless {
  import opened RegexSyntax
  import opened RegexCode
  import opened RegexMachine
  import opened RegexDrops
  import opened RegexMatch
  import opened RegexSearch
  import C = RegexCorrect

  // ---- Straight code is run as its tree matches ----

  /** Where straight code from x at i comes to at end, or -1 if it fails. */
  function Through(code: seq<Byte>, text: seq<Byte>, x: nat, i: nat, end: nat): (j: int)
    requires StraightAt(code, x, end) && i <= |text|
    ensures j == -1 || i <= j <= |text|
    decreases end - x
  {
    if x == end then i
    else if !Reads(code, text, x, i) then -1
    else Through(code, text, x + CommandSize(code, x), i + Consumes(code, x), end)
  }

  /** Where a straight tree ends, or -1. */
  function EndOf(ends: seq<nat>): int {
    if ends == [] then -1 else ends[0]
  }

  lemma {:induction false} ThroughOn(code: seq<Byte>, text: seq<Byte>, x: nat, i: nat, m: nat, end: nat)
    requires StraightAt(code, x, m) && StraightAt(code, m, end) && i <= |text| && x <= m
    ensures StraightAt(code, x, end)
    ensures var k := Through(code, text, x, i, m);
            Through(code, text, x, i, end) == if k < 0 then -1 else Through(code, text, m, k, end)
    decreases m - x
  {
    if x < m {
      var x' := x + CommandSize(code, x);
      if Reads(code, text, x, i) {
        ThroughOn(code, text, x', i + Consumes(code, x), m, end);
      } else {
        ThroughOn(code, text, x', i, m, end);
      }
    }
  }

  lemma NothingThrough(code: seq<Byte>, text: seq<Byte>, x: nat, i: nat)
    requires i <= |text|
    ensures StraightAt(code, x, x) && Through(code, text, x, i, x) == i && Matches(Nil, text, i) == [i]
  {
  }

  lemma {:induction false} SeqThrough(code: seq<Byte>, e: Seq, a: nat, text: seq<Byte>, i: nat)
    requires WellFormed(e) && Straight(e) && At(code, a, SeqCode(e)) && i <= |text|
    ensures StraightAt(code, a, a + |SeqCode(e)|)
    ensures Through(code, text, a, i, a + |SeqCode(e)|) == EndOf(Matches(e, text, i))
    decreases e, 1
  {
    hide At, Through, Matches, MatchesItem, ItemCode, StraightAt;
    match e
    case Nil =>
      NothingThrough(code, text, a, i);
    case Snoc(init, last) =>
      var m := a + |SeqCode(init)|;
      AtSplit(code, a, SeqCode(init), ItemCode(last));
      SeqThrough(code, init, a, text, i);
      StraightEnds(init, text, i);
      MatchesSnoc(init, last, text, i);
      var k := if Matches(init, text, i) == [] then i else Matches(init, text, i)[0];
      ItemThrough(code, last, m, text, k);
      ThroughOn(code, text, a, i, m, m + |ItemCode(last)|);
  }

  lemma {:induction false} ItemThrough(code: seq<Byte>, e: Item, a: nat, text: seq<Byte>, i: nat)
    requires WellFormedItem(e) && StraightItem(e) && At(code, a, ItemCode(e)) && i <= |text|
    ensures StraightAt(code, a, a + |ItemCode(e)|)
    ensures Through(code, text, a, i, a + |ItemCode(e)|) == EndOf(MatchesItem(e, text, i))
    decreases e, 0
  {
    if e.Group? {
      var body := e.alts.only;
      assert AltsCode(e.alts) == SeqCode(body);
      var m := a + |SeqCode(body)|;
      AtSplit(code, a, SeqCode(body), [STOP_MEMORY, e.reg]);
      AtByte(code, m, [STOP_MEMORY, e.reg], 0);
      SeqThrough(code, body, a, text, i);
      assert StraightAt(code, m + 2, m + 2);
      ThroughOn(code, text, a, i, m, m + 2);
    } else {
      SingleThrough(code, e, a, text, i);
    }
  }

  lemma SingleThrough(code: seq<Byte>, e: Item, a: nat, text: seq<Byte>, i: nat)
    requires WellFormedItem(e) && !e.Group? && !e.Repeat? && At(code, a, ItemCode(e)) && i <= |text|
    ensures StraightAt(code, a, a + |ItemCode(e)|)
    ensures Through(code, text, a, i, a + |ItemCode(e)|) == EndOf(MatchesItem(e, text, i))
  {
    var m := C.Sys(code, text, {}, (c, r) => false);
    C.SingleStep(m, e, a, i, []);
    AtByte(code, a, ItemCode(e), 0);
    if e.Chars? || e.CharSet? {
      AtByte(code, a, ItemCode(e), 1);
    }
    assert StraightAt(code, a + |ItemCode(e)|, a + |ItemCode(e)|);
  }

  lemma StraightStep(text: seq<Byte>, r: Live, x: nat, i: nat)
    requires r.config.Running? && r.config.p == x && r.config.d == i <= |text| && Decodes(r.code, x) && !IsJumpOp(r.code[x])
    ensures LiveStep(text, r) == r.(config := if !Reads(r.code, text, x, i) then Failing(r.config.stack)
                                            else Running(x + CommandSize(r.code, x), i + Consumes(r.code, x), r.config.stack))
    ensures Reads(r.code, text, x, i) ==> i + Consumes(r.code, x) <= |text|
  {
  }

  /** The matcher runs through straight code and rewrites nothing there. */
  lemma {:induction false} StraightRuns(text: seq<Byte>, r: Live, x: nat, i: nat, end: nat) returns (n: nat)
    requires r.config.Running? && r.config.p == x && r.config.d == i && i <= |text| && StraightAt(r.code, x, end)
    ensures var j := Through(r.code, text, x, i, end);
            LiveRun(text, r, n) == r.(config := if j < 0 then Failing(r.config.stack) else Running(end, j, r.config.stack))
    decreases end - x
  {
    hide LiveStep, Reads;
    if x == end {
      n := 0;
      return;
    }
    StraightStep(text, r, x, i);
    if Reads(r.code, text, x, i) {
      n := StraightRuns(text, LiveStep(text, r), x + CommandSize(r.code, x), i + Consumes(r.code, x), end);
      n := n + 1;
    } else {
      n := 1;
      assert LiveRun(text, LiveStep(text, r), 0) == LiveStep(text, r);
    }
  }

  // ---- A loop at the end of a program ----

  /** The code ends in a repetition of a straight body, at p, whose jump back at q has been
      rewritten or not yet. */
  ghost predicate LoopCode(code: seq<Byte>, p: nat, q: nat, body: Seq) {
    && WellFormed(body) && Straight(body) && q == p + 3 + |SeqCode(body)| && |code| == q + 3
    && C.JumpsTo(code, p, ON_FAILURE_JUMP, q + 3) && At(code, p + 3, SeqCode(body))
    && (code[q] == MAYBE_FINALIZE_JUMP || code[q] == FINALIZE_JUMP) && Target(code, q) == p
  }

  /** There is room on the failure stack for one more point. */
  predicate Room(h: nat, capacity: nat) {
    2 * h < capacity || (2 * h == capacity && capacity <= 2 * MAX_FAILURES)
  }

  /** At the jump back a point is dropped. */
  lemma TurnsBack(text: seq<Byte>, r: Live, p: nat, q: nat, body: Seq, j: nat)
    requires LoopCode(r.code, p, q, body) && r.config.Running? && r.config.p == q && r.config.d == j <= |text|
    requires r.config.stack != []
    ensures var r', stack := LiveStep(text, r), r.config.stack;
            r'.capacity == r.capacity && r'.config == Running(p, j, stack[..|stack| - 1]) && LoopCode(r'.code, p, q, body)
  {
    if r.code[q] == MAYBE_FINALIZE_JUMP {
      assert SkipMemory(r.code, q + 3) == q + 3;
      var code := r.code[q := FINALIZE_JUMP];
      assert LiveStep(text, r).code == code && Target(code, q) == p;
      forall i: nat {:trigger SameByte(code, p + 3, SeqCode(body), i)} | i < |SeqCode(body)|
        ensures SameByte(code, p + 3, SeqCode(body), i)
      {
        assert SameByte(r.code, p + 3, SeqCode(body), i);
      }
      assert C.JumpsTo(code, p, ON_FAILURE_JUMP, q + 3);
    }
  }

  /** From the start of the body: back to the head of the loop, or to a failure. */
  lemma BodyRuns(text: seq<Byte>, r: Live, p: nat, q: nat, body: Seq, i: nat) returns (n: nat)
    requires LoopCode(r.code, p, q, body) && r.config.Running? && r.config.p == p + 3 && r.config.d == i <= |text|
    requires r.config.stack != []
    ensures var r', stack, j := LiveRun(text, r, n), r.config.stack, EndOf(Matches(body, text, i));
            if j < 0 then r' == r.(config := Failing(stack))
            else r'.capacity == r.capacity && r'.config == Running(p, j, stack[..|stack| - 1]) && LoopCode(r'.code, p, q, body)
  {
    hide LiveStep, LiveRun, StraightAt, Through, At, SeqCode, Straight, WellFormed, Matches;
    SeqThrough(r.code, body, p + 3, text, i);
    n := StraightRuns(text, r, p + 3, i, q);
    var j := EndOf(Matches(body, text, i));
    if j >= 0 {
      var back := r.(config := Running(q, j, r.config.stack));
      TurnsBack(text, back, p, q, body, j);
      OneMore(text, r, n);
      n := n + 1;
    }
  }

  lemma OneMore(text: seq<Byte>, r: Live, n: nat)
    requires !LiveRun(text, r, n).config.Done?
    ensures LiveRun(text, r, n + 1) == LiveStep(text, LiveRun(text, r, n))
  {
    hide LiveStep;
    MoreSteps(text, r, n, n + 1);
    var now := LiveRun(text, r, n);
    assert LiveRun(text, now, 1) == LiveRun(text, LiveStep(text, now), 0);
  }

  /** Once around: the end of the body is where the next round starts; if the body fails,
      the program is left and the match succeeds. */
  lemma Round(text: seq<Byte>, r: Live, p: nat, q: nat, body: Seq, d: nat) returns (n: nat)
    requires LoopCode(r.code, p, q, body) && r.config.Running? && r.config.p == p && r.config.d == d <= |text|
    requires Room(|r.config.stack|, r.capacity)
    ensures n > 0
    ensures var r', j := LiveRun(text, r, n), EndOf(Matches(body, text, d));
            if j < 0 then r'.config == Done(Match(d))
            else r'.config == Running(p, j, r.config.stack) && LoopCode(r'.code, p, q, body) && Room(|r.config.stack|, r'.capacity)
  {
    hide LiveStep, LoopCode, Room, Matches;
    var stack, inside := r.config.stack, LiveStep(text, r);
    Enters(text, r, p, q, body, d);
    n := BodyRuns(text, inside, p, q, body, d);
    assert LiveRun(text, r, n + 1) == LiveRun(text, inside, n);
    n := n + 1;
    assert inside.config.stack[..|stack|] == stack;
    if Matches(body, text, d) == [] {
      Leaves(text, inside.(config := Failing(inside.config.stack)), q, d, stack);
      MoreSteps(text, r, n, n + 2);
      n := n + 2;
    }
  }

  lemma Enters(text: seq<Byte>, r: Live, p: nat, q: nat, body: Seq, d: nat)
    requires LoopCode(r.code, p, q, body) && r.config.Running? && r.config.p == p && r.config.d == d <= |text|
    requires Room(|r.config.stack|, r.capacity)
    ensures var r', stack := LiveStep(text, r), r.config.stack;
            && r'.code == r.code && |r.code| == q + 3 && r'.config == Running(p + 3, d, stack + [Point(q + 3, d)])
            && Room(|stack|, r'.capacity)
  {
  }

  lemma Leaves(text: seq<Byte>, r: Live, q: nat, d: nat, stack: seq<Point>)
    requires r.config == Failing(stack + [Point(q + 3, d)]) && |r.code| == q + 3 && d <= |text|
    ensures LiveRun(text, r, 2).config == Done(Match(d))
  {
    var out := LiveStep(text, r);
    assert (stack + [Point(q + 3, d)])[..|stack|] == stack;
    assert out == r.(config := Running(q + 3, d, stack));
    assert LiveRun(text, r, 2) == LiveRun(text, out, 1) == LiveRun(text, LiveStep(text, out), 0);
  }

  /** Going round from d, the body comes to match nothing. */
  predicate Stuck(body: Seq, text: seq<Byte>, d: nat)
    requires d <= |text|
    decreases |text| - d
  {
    var ends := Matches(body, text, d);
    ends != [] && (ends[0] == d || Stuck(body, text, ends[0]))
  }

  /** If it does not, the loop is left. */
  lemma {:induction false} LoopIsLeft(text: seq<Byte>, r: Live, p: nat, q: nat, body: Seq, d: nat) returns (n: nat)
    requires LoopCode(r.code, p, q, body) && r.config.Running? && r.config.p == p && r.config.d == d <= |text|
    requires Room(|r.config.stack|, r.capacity) && !Stuck(body, text, d)
    ensures LiveRun(text, r, n).config.Done?
    decreases |text| - d
  {
    hide LiveStep, LoopCode, Room;
    n := Round(text, r, p, q, body, d);
    if Matches(body, text, d) != [] {
      var more := LoopIsLeft(text, LiveRun(text, r, n), p, q, body, Matches(body, text, d)[0]);
      MoreSteps(text, r, n, n + more);
      n := n + more;
    }
  }

  /** If it does, there is no end to it. */
  lemma {:induction false} LoopGoesOn(text: seq<Byte>, r: Live, p: nat, q: nat, body: Seq, d: nat, k: nat) returns (n: nat)
    requires LoopCode(r.code, p, q, body) && r.config.Running? && r.config.p == p && r.config.d == d <= |text|
    requires Room(|r.config.stack|, r.capacity) && Stuck(body, text, d)
    ensures n >= k && !LiveRun(text, r, n).config.Done?
    decreases k
  {
    hide LiveStep, LoopCode, Room;
    if k == 0 {
      n := 0;
    } else {
      n := Round(text, r, p, q, body, d);
      var more := LoopGoesOn(text, LiveRun(text, r, n), p, q, body, Matches(body, text, d)[0], k - 1);
      MoreSteps(text, r, n, n + more);
      n := n + more;
    }
  }

  lemma NoEnd(text: seq<Byte>, r: Live, p: nat, q: nat, body: Seq, d: nat, steps: nat)
    requires LoopCode(r.code, p, q, body) && r.config.Running? && r.config.p == p && r.config.d == d <= |text|
    requires Room(|r.config.stack|, r.capacity) && Stuck(body, text, d)
    ensures !LiveRun(text, r, steps).config.Done?
  {
    var n := LoopGoesOn(text, r, p, q, body, d, steps);
    if LiveRun(text, r, steps).config.Done? {
      LiveStays(text, r, steps, n);
    }
  }

  // ---- Patterns that end in a repetition ----

  /** A pattern that is a straight part and then a repetition of a straight part. */
  function EndingLoop(pre: Seq, zero: bool, body: Seq): Alts {
    One(Snoc(pre, Repeat(zero, true, body)))
  }

  function EndingCode(pre: Seq, zero: bool, body: Seq): seq<Byte>
    requires WellFormed(pre) && WellFormed(body)
  {
    SeqCode(pre) + RepeatCode(zero, true, SeqCode(body))
  }

  lemma EndingCodeIs(pre: Seq, zero: bool, body: Seq)
    requires WellFormed(pre) && WellFormed(body)
    ensures WellFormedAlts(EndingLoop(pre, zero, body)) && AltsCode(EndingLoop(pre, zero, body)) == EndingCode(pre, zero, body)
  {
    var loop := Repeat(zero, true, body);
    assert WellFormedItem(loop) && WellFormed(Snoc(pre, loop));
    assert SeqCode(Snoc(pre, loop)) == SeqCode(pre) + ItemCode(loop);
    assert ItemCode(loop) == RepeatCode(zero, true, SeqCode(body));
  }

  lemma EndingLayout(pre: Seq, zero: bool, body: Seq) returns (a: nat, p: nat, q: nat)
    requires WellFormed(pre) && WellFormed(body) && Straight(body) && |EndingCode(pre, zero, body)| <= MAX_CODE
    ensures var code := EndingCode(pre, zero, body);
            && a == |SeqCode(pre)| && At(code, 0, SeqCode(pre)) && LoopCode(code, p, q, body)
            && (if zero then p == a else C.JumpsTo(code, a, DUMMY_FAILURE_JUMP, p + 3))
  {
    hide At, SeqCode, RepeatCode, Straight, WellFormed;
    var code, loop := EndingCode(pre, zero, body), RepeatCode(zero, true, SeqCode(body));
    a := |SeqCode(pre)|;
    AtSlice(code, 0, code);
    AtSplit(code, 0, SeqCode(pre), loop);
    p := C.LoopLayout(code, a, zero, true, SeqCode(body));
    q := |code| - 3;
  }

  /** Where an attempt comes to the repetition: nowhere if the first part fails, and not in
      front of the head if the body has to be gone through first. */
  lemma Arrives(pre: Seq, zero: bool, body: Seq, text: seq<Byte>, pos: nat) returns (n: nat, p: nat, q: nat)
    requires WellFormed(pre) && Straight(pre) && WellFormed(body) && Straight(body)
    requires |EndingCode(pre, zero, body)| <= MAX_CODE && pos <= |text|
    ensures var r, d := LiveRun(text, Start(EndingCode(pre, zero, body), pos), n), EndOf(Matches(pre, text, pos));
            if d < 0 then r.config.Done?
            else r.capacity == INITIAL_ENTRIES && LoopCode(r.code, p, q, body)
                 && r.config == if zero then Running(p, d, []) else Running(p + 3, d, [Dummy])
  {
    hide LiveStep, LoopCode, EndingCode, SeqCode, Straight, WellFormed, At, Matches, Through, StraightAt;
    var code := EndingCode(pre, zero, body);
    var start := Start(code, pos);
    var a;
    a, p, q := EndingLayout(pre, zero, body);
    SeqThrough(code, pre, 0, text, pos);
    n := StraightRuns(text, start, 0, pos, a);
    var d := EndOf(Matches(pre, text, pos));
    if d < 0 {
      OneMore(text, start, n);
      FailsAtLast(text, LiveRun(text, start, n));
      n := n + 1;
    } else if !zero {
      OneMore(text, start, n);
      SkipsHead(text, LiveRun(text, start, n), p, d);
      n := n + 1;
    }
  }

  lemma FailsAtLast(text: seq<Byte>, r: Live)
    requires r.config == Failing([])
    ensures LiveStep(text, r).config == Done(NoMatch)
  {
  }

  lemma SkipsHead(text: seq<Byte>, r: Live, p: nat, d: nat)
    requires r.config.Running? && r.config.stack == [] && r.config.d == d <= |text| && r.capacity == INITIAL_ENTRIES
    requires C.JumpsTo(r.code, r.config.p, DUMMY_FAILURE_JUMP, p + 3)
    ensures LiveStep(text, r) == r.(config := Running(p + 3, d, [Dummy]))
  {
    assert [] + [Dummy] == [Dummy];
  }

  /** The first time through the body of a loop that does not test for none. */
  lemma FirstTime(text: seq<Byte>, r: Live, p: nat, q: nat, body: Seq, d: nat) returns (n: nat)
    requires LoopCode(r.code, p, q, body) && d <= |text| && r.config == Running(p + 3, d, [Dummy]) && r.capacity == INITIAL_ENTRIES
    ensures var r', j := LiveRun(text, r, n), EndOf(Matches(body, text, d));
            if j < 0 then r'.config.Done?
            else r'.capacity == INITIAL_ENTRIES && r'.config == Running(p, j, []) && LoopCode(r'.code, p, q, body)
  {
    hide LiveStep, LoopCode;
    n := BodyRuns(text, r, p, q, body, d);
    assert [Dummy][..0] == [];
    if Matches(body, text, d) == [] {
      DropsDummy(text, LiveRun(text, r, n));
      MoreSteps(text, r, n, n + 2);
      n := n + 2;
    }
  }

  lemma DropsDummy(text: seq<Byte>, r: Live)
    requires r.config == Failing([Dummy])
    ensures LiveRun(text, r, 2).config.Done?
  {
    var empty := LiveStep(text, r);
    assert [Dummy][..0] == [];
    assert empty.config == Failing([]);
    assert LiveRun(text, r, 2) == LiveRun(text, empty, 1) == LiveRun(text, LiveStep(text, empty), 0);
  }

  /** The attempt comes to a repetition that matches nothing some time. */
  predicate Endless(pre: Seq, body: Seq, text: seq<Byte>, pos: nat)
    requires pos <= |text|
  {
    Matches(pre, text, pos) != [] && Stuck(body, text, Matches(pre, text, pos)[0])
  }

  lemma EndsUnlessStuck(pre: Seq, zero: bool, body: Seq, text: seq<Byte>, pos: nat) returns (n: nat)
    requires WellFormed(pre) && Straight(pre) && WellFormed(body) && Straight(body)
    requires |EndingCode(pre, zero, body)| <= MAX_CODE && pos <= |text| && !Endless(pre, body, text, pos)
    ensures LiveRun(text, Start(EndingCode(pre, zero, body), pos), n).config.Done?
  {
    hide LiveStep, LiveRun, LoopCode, EndingCode, Straight, WellFormed, Matches;
    var start := Start(EndingCode(pre, zero, body), pos);
    var p, q;
    n, p, q := Arrives(pre, zero, body, text, pos);
    if Matches(pre, text, pos) != [] {
      var d := Matches(pre, text, pos)[0];
      if !zero {
        var first := FirstTime(text, LiveRun(text, start, n), p, q, body, d);
        MoreSteps(text, start, n, n + first);
        n := n + first;
      }
      if zero || Matches(body, text, d) != [] {
        var more := LoopIsLeft(text, LiveRun(text, start, n), p, q, body, if zero then d else Matches(body, text, d)[0]);
        MoreSteps(text, start, n, n + more);
        n := n + more;
      }
    }
  }

  lemma StuckNeverEnds(pre: Seq, zero: bool, body: Seq, text: seq<Byte>, pos: nat, steps: nat)
    requires WellFormed(pre) && Straight(pre) && WellFormed(body) && Straight(body)
    requires |EndingCode(pre, zero, body)| <= MAX_CODE && pos <= |text| && Endless(pre, body, text, pos)
    ensures !LiveRun(text, Start(EndingCode(pre, zero, body), pos), steps).config.Done?
  {
    hide LiveStep, LiveRun, LoopCode, EndingCode, Straight, WellFormed, Matches;
    var start := Start(EndingCode(pre, zero, body), pos);
    var n, p, q := Arrives(pre, zero, body, text, pos);
    var d := Matches(pre, text, pos)[0];
    if !zero {
      var first := FirstTime(text, LiveRun(text, start, n), p, q, body, d);
      MoreSteps(text, start, n, n + first);
      n := n + first;
      d := Matches(body, text, d)[0];
    }
    NoEnd(text, LiveRun(text, start, n), p, q, body, d, steps);
    MoreSteps(text, start, n, n + steps);
    if LiveRun(text, start, steps).config.Done? {
      LiveStays(text, start, steps, n + steps);
    }
  }

  /** Exactly then an attempt at a pattern that ends in such a repetition has no end. */
  lemma EndsExactly(pre: Seq, zero: bool, body: Seq, text: seq<Byte>, pos: nat)
    requires WellFormed(pre) && Straight(pre) && WellFormed(body) && Straight(body)
    requires |EndingCode(pre, zero, body)| <= MAX_CODE && pos <= |text|
    ensures WellFormedAlts(EndingLoop(pre, zero, body))
    ensures AttemptEnds(AltsCode(EndingLoop(pre, zero, body)), text, pos) <==> !Endless(pre, body, text, pos)
  {
    hide Endless, LiveRun, EndingCode;
    EndingCodeIs(pre, zero, body);
    if Endless(pre, body, text, pos) {
      forall n: nat ensures !LiveRun(text, Start(EndingCode(pre, zero, body), pos), n).config.Done? {
        StuckNeverEnds(pre, zero, body, text, pos, n);
      }
    } else {
      var n := EndsUnlessStuck(pre, zero, body, text, pos);
    }
  }
}
