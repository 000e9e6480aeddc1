/** re_match_2 on one string: the matcher that rewrites its program as it runs. */
module RegexMatch {
  import opened RegexSyntax
  import opened RegexCode
  import opened RegexMachine
  import opened RegexDrops
  import opened RegexHeights
  import opened RegexLayout
  import C = RegexCorrect
  import L = RegexLanguage

  /** Initial number of entries of the failure stack; each point takes two. */
  const INITIAL_ENTRIES := 160
  const MAX_FAILURES := 2000

  // ---- Specification: program, stack capacity and configuration change together ----

  datatype Live = Live(code: seq<Byte>, capacity: nat, config: Config)

  function Start(code: seq<Byte>, pos: nat): Live {
    Live(code, INITIAL_ENTRIES, Running(0, pos, []))
  }

  function LiveStep(text: seq<Byte>, r: Live): Live
    requires !r.config.Done?
  {
    if r.config.Running? && r.config.d <= |text| && Decodes(r.code, r.config.p) then
      LiveCommand(text, r, r.config.p, r.config.stack)
    else
      r.(config := Step(Machine(r.code, text, {}), r.config))
  }

  function LiveCommand(text: seq<Byte>, r: Live, p: nat, stack: seq<Point>): Live
    requires r.config.Running? && r.config.p == p && r.config.stack == stack && r.config.d <= |text| && Decodes(r.code, p)
  {
    var op := r.code[p];
    if op == MAYBE_FINALIZE_JUMP then
      var code := r.code[p := Decided(r.code, p)];
      Live(code, r.capacity, Step(Machine(code, text, {}), r.config))
    else if (op == ON_FAILURE_JUMP || op == DUMMY_FAILURE_JUMP) && 2 * |stack| == r.capacity then
      if op == ON_FAILURE_JUMP && r.capacity > 2 * MAX_FAILURES then r.(config := Done(Overflow))
      else Live(r.code, 2 * r.capacity, Step(Machine(r.code, text, {}), r.config))
    else
      r.(config := Step(Machine(r.code, text, {}), r.config))
  }

  /** What a maybe_finalize_jump is rewritten to. */
  function Decided(code: seq<Byte>, p: nat): Byte
    requires p + 3 <= |code|
  {
    if Finalizes(code, p) then FINALIZE_JUMP else JUMP
  }

  function LiveRun(text: seq<Byte>, r: Live, steps: nat): Live
    decreases steps
  {
    if steps == 0 || r.config.Done? then r else LiveRun(text, LiveStep(text, r), steps - 1)
  }

  // ---- What the program may become ----

  /** The decision at p depends on a byte that may itself be rewritten: the look past
      memory commands has landed between two commands. */
  predicate Unsteady(code: seq<Byte>, p: nat)
    requires p + 3 <= |code|
  {
    var next := SkipMemory(code, p + 3);
    next != p + 3 && next < |code| && code[next] == EXACTN && Peek(code, next + 2) == MAYBE_FINALIZE_JUMP
  }

  predicate MayBecome(code: seq<Byte>, p: nat, op: Byte) {
    && p + 3 <= |code|
    && (op == Decided(code, p) || (Unsteady(code, p) && (op == FINALIZE_JUMP || op == JUMP)))
  }

  /** code' is code after some maybe_finalize_jumps have been rewritten. */
  ghost predicate Rewritten(code: seq<Byte>, code': seq<Byte>) {
    && |code'| == |code|
    && forall i: nat {:trigger SameOrDecided(code, code', i)} :: i < |code| ==> SameOrDecided(code, code', i)
  }

  ghost predicate SameOrDecided(code: seq<Byte>, code': seq<Byte>, i: nat)
    requires i < |code| == |code'|
  {
    || code'[i] == code[i]
    || (Boundary(code, 0, i) && code[i] == MAYBE_FINALIZE_JUMP && MayBecome(code, i, code'[i]))
  }

  lemma RewrittenRefl(code: seq<Byte>)
    ensures Rewritten(code, code)
  {
    forall i: nat {:trigger SameOrDecided(code, code, i)} | i < |code| ensures SameOrDecided(code, code, i) {
    }
  }

  /** The program counter and all resumption points are at starts of commands. */
  ghost predicate OnBoundaries(code: seq<Byte>, text: seq<Byte>, c: Config) {
    match c
    case Running(p, d, stack) => Boundary(code, 0, p) && d <= |text| && StackOnBoundaries(code, text, stack)
    case Failing(stack) => StackOnBoundaries(code, text, stack)
    case Done(_) => true
  }

  ghost predicate StackOnBoundaries(code: seq<Byte>, text: seq<Byte>, stack: seq<Point>) {
    forall i :: 0 <= i < |stack| && stack[i].Point? ==> Boundary(code, 0, stack[i].p) && stack[i].d <= |text|
  }

  lemma OperandKept(code: seq<Byte>, code': seq<Byte>, p: nat, i: nat)
    requires Rewritten(code, code') && Boundary(code, 0, p) && Decodes(code, p)
    requires p < i < p + CommandSize(code, p)
    ensures code'[i] == code[i]
  {
    assert SameOrDecided(code, code', i);
    if Boundary(code, 0, i) {
      BoundaryLinear(code, 0, p, i);
      BoundaryBounds(code, p + CommandSize(code, p), i);
    }
  }

  /** Rewriting does not disturb how a command reads. */
  lemma CommandKept(code: seq<Byte>, code': seq<Byte>, p: nat)
    requires Rewritten(code, code') && Boundary(code, 0, p) && Decodes(code, p)
    ensures Decodes(code', p) && CommandSize(code', p) == CommandSize(code, p)
    ensures code'[p] == code[p] || (code[p] == MAYBE_FINALIZE_JUMP && MayBecome(code, p, code'[p]))
    ensures IsJumpOp(code[p]) ==> Target(code', p) == Target(code, p)
    ensures forall i {:trigger code'[i]} :: p < i < p + CommandSize(code, p) ==> code'[i] == code[i]
  {
    hide Unsteady, Finalizes, Boundary;
    assert SameOrDecided(code, code', p);
    forall i | p < i < p + CommandSize(code, p) ensures code'[i] == code[i] {
      OperandKept(code, code', p, i);
    }
    if 2 <= CommandSize(code, p) {
      assert code'[p + 1] == code[p + 1];
    }
    if 3 <= CommandSize(code, p) {
      assert code'[p + 2] == code[p + 2];
    }
  }

  // ---- Every decision is one the program may become ----

  /** What a byte is rewritten to is a jump again. */
  lemma ByteKept(code: seq<Byte>, code': seq<Byte>, i: nat)
    requires Rewritten(code, code') && i < |code|
    ensures code'[i] == code[i] || (code[i] == MAYBE_FINALIZE_JUMP && (code'[i] == FINALIZE_JUMP || code'[i] == JUMP))
  {
    hide Unsteady, Finalizes, Boundary;
    assert SameOrDecided(code, code', i);
  }

  lemma {:induction false} SkipKept(code: seq<Byte>, code': seq<Byte>, i: nat)
    requires Rewritten(code, code')
    ensures SkipMemory(code', i) == SkipMemory(code, i)
    decreases |code| - i
  {
    if i < |code| {
      ByteKept(code, code', i);
      SkipKept(code, code', i + 1);
    }
  }

  lemma SkipForward(code: seq<Byte>, i: nat)
    ensures SkipMemory(code, i) >= i
    decreases |code| - i
  {
  }

  /** The character demanded behind the loop is the same, unless the place is unsteady. */
  lemma DemandKept(code: seq<Byte>, code': seq<Byte>, p: nat, next: nat)
    requires Rewritten(code, code') && p + 3 <= |code| && next == SkipMemory(code, p + 3) < |code|
    requires Boundary(code, 0, p + 3) && Decodes(code, p + 3) && !Unsteady(code, p)
    ensures code'[next] == code[next] || (IsJumpOp(code[next]) && IsJumpOp(code'[next]))
    ensures code[next] == EXACTN ==> Peek(code', next + 2) == Peek(code, next + 2)
  {
    hide Finalizes, Boundary;
    ByteKept(code, code', next);
    if code[next] == EXACTN && next + 2 < |code| {
      if next == p + 3 {
        CommandKept(code, code', next);
        assert code'[next + 2] == code[next + 2];
      } else {
        ByteKept(code, code', next + 2);
      }
    }
  }

  lemma DecisionKept(code: seq<Byte>, code': seq<Byte>, p: nat, flat: bool)
    requires Compiled(code, flat) && Rewritten(code, code')
    requires Boundary(code, 0, p) && p < |code| && code[p] == MAYBE_FINALIZE_JUMP
    ensures p + 3 <= |code| && MayBecome(code, p, Decided(code', p))
  {
    var loop := LoopOf(code, code', p, flat);
    var next := SkipMemory(code, p + 3);
    SkipKept(code, code', p + 3);
    SkipForward(code, p + 3);
    if next < |code| {
      assert CommandOk(code, 0, |code|, |code|, flat, p + 3);
      hide Rewritten, Compiled, Boundary, Unsteady, Excludes, SkipMemory, CommandOk, Decodes;
      if !Unsteady(code, p) {
        DemandKept(code, code', p, next);
        SamePeeks(code, code', loop + 3, if code[next] == ENDLINE then NEWLINE else Peek(code, next + 2));
        SameExclusion(code, code', next, loop);
      }
    }
  }

  lemma SameExclusion(code: seq<Byte>, code': seq<Byte>, next: nat, loop: nat)
    requires |code'| == |code| && next < |code|
    requires code'[next] == code[next] || (IsJumpOp(code[next]) && IsJumpOp(code'[next]))
    requires code[next] == EXACTN ==> Peek(code', next + 2) == Peek(code, next + 2)
    requires var c := if code[next] == ENDLINE then NEWLINE else Peek(code, next + 2);
             SameLook(code, code', loop + 3, c)
    ensures Excludes(code', next, loop) <==> Excludes(code, next, loop)
  {
  }

  /** Both programs answer alike whether the command at q refuses c. */
  predicate SameLook(code: seq<Byte>, code': seq<Byte>, q: nat, c: Byte) {
    && (Peek(code', q) == Peek(code, q) || (IsJumpOp(Peek(code', q)) && IsJumpOp(Peek(code, q))))
    && (Peek(code, q) == EXACTN ==> Peek(code', q + 2) == Peek(code, q + 2))
    && (Peek(code, q) == CHARSET || Peek(code, q) == CHARSET_NOT ==> (InPeekedBits(code', q + 1, c) <==> InPeekedBits(code, q + 1, c)))
  }

  predicate InPeekedBits(code: seq<Byte>, a: nat, c: Byte) {
    c < 8 * Peek(code, a) as int && Bit(Peek(code, a + 1 + c / 8), c % 8)
  }

  lemma LoopOf(code: seq<Byte>, code': seq<Byte>, p: nat, flat: bool) returns (loop: nat)
    requires Compiled(code, flat) && Rewritten(code, code')
    requires Boundary(code, 0, p) && p < |code| && code[p] == MAYBE_FINALIZE_JUMP
    ensures p + 3 <= |code| && Boundary(code, 0, p + 3)
    ensures loop == Target(code, p) == Target(code', p) && Boundary(code, 0, loop + 3) && Decodes(code, loop + 3)
  {
    assert CommandOk(code, 0, |code|, |code|, flat, p);
    BoundaryNext(code, 0, p);
    CommandKept(code, code', p);
    loop := Target(code, p);
    assert CommandOk(code, 0, |code|, |code|, flat, loop);
    BoundaryNext(code, 0, loop);
    assert CommandOk(code, 0, |code|, |code|, flat, loop + 3);
  }

  lemma SamePeeks(code: seq<Byte>, code': seq<Byte>, q: nat, c: Byte)
    requires Rewritten(code, code') && Boundary(code, 0, q) && Decodes(code, q)
    ensures SameLook(code, code', q, c)
  {
    hide Unsteady, Finalizes, Boundary;
    CommandKept(code, code', q);
    ByteKept(code, code', q);
    if code[q] == EXACTN {
      assert code'[q + 2] == code[q + 2];
    }
    if code[q] == CHARSET || code[q] == CHARSET_NOT {
      assert code'[q + 1] == code[q + 1];
      if c < 8 * (code[q + 1] as int) {
        assert code'[q + 2 + c / 8] == code[q + 2 + c / 8];
      }
    }
  }

  lemma RewriteOne(code: seq<Byte>, code': seq<Byte>, p: nat, flat: bool)
    requires Compiled(code, flat) && Rewritten(code, code')
    requires Boundary(code, 0, p) && p < |code| && code[p] == MAYBE_FINALIZE_JUMP && p + 3 <= |code|
    ensures Rewritten(code, code'[p := Decided(code', p)])
  {
    DecisionKept(code, code', p, flat);
    hide Unsteady, Finalizes, Boundary, MayBecome;
    var code'' := code'[p := Decided(code', p)];
    forall i: nat {:trigger SameOrDecided(code, code'', i)} | i < |code| ensures SameOrDecided(code, code'', i) {
      assert SameOrDecided(code, code', i);
    }
  }

  // ---- What every step of the rewriting matcher keeps ----

  /** Saved positions never decrease from the bottom of the stack to the top, and none
      is beyond the current position. */
  predicate InOrder(c: Config) {
    match c
    case Running(_, d, stack) => StackInOrder(stack) && forall i :: 0 <= i < |stack| && stack[i].Point? ==> stack[i].d <= d
    case Failing(stack) => StackInOrder(stack)
    case Done(_) => true
  }

  predicate StackInOrder(stack: seq<Point>) {
    forall i, j :: 0 <= i < j < |stack| && stack[i].Point? && stack[j].Point? ==> stack[i].d <= stack[j].d
  }

  /** There are as many failure points as the place reached, and every place saved, is high. */
  predicate Enough(h: seq<nat>, c: Config) {
    match c
    case Running(p, _, stack) => p < |h| && h[p] <= |stack| && StackEnough(h, stack)
    case Failing(stack) => StackEnough(h, stack)
    case Done(_) => true
  }

  predicate StackEnough(h: seq<nat>, stack: seq<Point>) {
    forall i :: 0 <= i < |stack| && stack[i].Point? ==> stack[i].p < |h| && h[stack[i].p] <= i
  }

  lemma StaysOnBoundaries(code: seq<Byte>, text: seq<Byte>, drops: set<nat>, flat: bool, c: Config)
    requires Compiled(code, flat) && OnBoundaries(code, text, c) && !c.Done?
    ensures OnBoundaries(code, text, Step(Machine(code, text, drops), c))
  {
    if c.Running? && c.p < |code| {
      assert CommandOk(code, 0, |code|, |code|, flat, c.p);
      BoundaryNext(code, 0, c.p);
      hide Boundary, Compiled, CommandOk, Reads;
      if IsJumpOp(code[c.p]) {
        assert Boundary(code, 0, Target(code, c.p));
      }
    } else if c.Running? {
      BoundaryBounds(code, 0, c.p);
    }
  }

  lemma StaysInOrder(m: Machine, c: Config)
    requires InOrder(c) && !c.Done?
    ensures InOrder(Step(m, c))
  {
  }

  lemma StaysEnough(code: seq<Byte>, text: seq<Byte>, drops: set<nat>, flat: bool, h: seq<nat>, c: Config)
    requires Compiled(code, flat) && Balanced(code, h) && OnBoundaries(code, text, c) && Enough(h, c) && !c.Done?
    ensures Enough(h, Step(Machine(code, text, drops), c)) && Step(Machine(code, text, drops), c) != Done(Crash)
  {
    if c.Running? {
      BoundaryBounds(code, 0, c.p);
      if c.p < |code| {
        assert CommandOk(code, 0, |code|, |code|, flat, c.p);
        assert LevelOk(code, h, c.p);
      }
    }
  }

  /** All that a step of the matcher keeps. */
  ghost predicate Sound(code: seq<Byte>, text: seq<Byte>, h: seq<nat>, r: Live) {
    && Rewritten(code, r.code)
    && OnBoundaries(code, text, r.config) && InOrder(r.config) && Enough(h, r.config)
    && r.config != Done(Crash)
  }

  /** The places at which code' drops. */
  function DropsOf(code: seq<Byte>, code': seq<Byte>): set<nat> {
    set j: nat | j < |code| && j < |code'| && code[j] == MAYBE_FINALIZE_JUMP && code'[j] == FINALIZE_JUMP
  }

  /** The drops are those made in code', as far as it has been decided. */
  ghost predicate Agrees(code: seq<Byte>, code': seq<Byte>, drops: set<nat>) {
    forall j: nat {:trigger code'[j]} :: j < |code| && j < |code'| && code[j] == MAYBE_FINALIZE_JUMP && code'[j] != MAYBE_FINALIZE_JUMP ==>
      (j in drops <==> code'[j] == FINALIZE_JUMP)
  }

  /** A command that has been decided does what the original does with these drops. */
  lemma StepKept(code: seq<Byte>, code': seq<Byte>, text: seq<Byte>, drops: set<nat>, p: nat, d: nat, stack: seq<Point>)
    requires Rewritten(code, code') && Boundary(code, 0, p) && Decodes(code, p) && d <= |text|
    requires code'[p] != MAYBE_FINALIZE_JUMP && code[p] != FINALIZE_JUMP
    requires code[p] == MAYBE_FINALIZE_JUMP ==> stack != [] && (p in drops <==> code'[p] == FINALIZE_JUMP)
    ensures Step(Machine(code', text, {}), Running(p, d, stack)) == Step(Machine(code, text, drops), Running(p, d, stack))
  {
    CommandKept(code, code', p);
    ByteKept(code, code', p);
    hide Unsteady, Finalizes, Boundary, MayBecome, Rewritten;
    if IsJumpOp(code[p]) {
      hide Command, CommandSize, Reads;
      JumpKept(code, code', text, drops, p, d, stack);
    } else {
      hide JumpCommand, Step;
      PlainKept(code, code', text, drops, p, d, stack);
    }
  }

  lemma PlainKept(code: seq<Byte>, code': seq<Byte>, text: seq<Byte>, drops: set<nat>, p: nat, d: nat, stack: seq<Point>)
    requires |code'| == |code| && Decodes(code, p) && !IsJumpOp(code[p]) && Decodes(code', p) && d <= |text|
    requires code'[p] == code[p] && CommandSize(code', p) == CommandSize(code, p)
    requires forall i {:trigger code'[i]} :: p < i < p + CommandSize(code, p) ==> code'[i] == code[i]
    ensures Step(Machine(code', text, {}), Running(p, d, stack)) == Step(Machine(code, text, drops), Running(p, d, stack))
  {
    if code[p] == EXACTN || code[p] == CHARSET || code[p] == CHARSET_NOT {
      SameOperands(code, code', p, CommandSize(code, p));
      assert Reads(code', text, p, d) == Reads(code, text, p, d);
    }
  }

  lemma JumpKept(code: seq<Byte>, code': seq<Byte>, text: seq<Byte>, drops: set<nat>, p: nat, d: nat, stack: seq<Point>)
    requires |code'| == |code| && Decodes(code, p) && IsJumpOp(code[p]) && Decodes(code', p) && d <= |text|
    requires code'[p] != MAYBE_FINALIZE_JUMP && code[p] != FINALIZE_JUMP && Target(code', p) == Target(code, p)
    requires code'[p] == code[p] || (code[p] == MAYBE_FINALIZE_JUMP && (code'[p] == FINALIZE_JUMP || code'[p] == JUMP))
    requires code[p] == MAYBE_FINALIZE_JUMP ==> stack != [] && (p in drops <==> code'[p] == FINALIZE_JUMP)
    ensures Step(Machine(code', text, {}), Running(p, d, stack)) == Step(Machine(code, text, drops), Running(p, d, stack))
  {
  }

  lemma SameOperands(code: seq<Byte>, code': seq<Byte>, p: nat, n: nat)
    requires |code'| == |code| && p + n <= |code| && 2 <= n
    requires forall i {:trigger code'[i]} :: p < i < p + n ==> code'[i] == code[i]
    ensures code'[p + 1] == code[p + 1] && code'[p + 2..p + n] == code[p + 2..p + n]
  {
    var rest, rest' := code[p + 2..p + n], code'[p + 2..p + n];
    forall i | 0 <= i < n - 2 ensures rest'[i] == rest[i] {
      assert code'[p + 2 + i] == code[p + 2 + i];
    }
  }

  /** A step of the matcher is one of the original program that drops where the matcher
      has decided to, unless the failure stack overflows; nothing undefined happens. */
  lemma SimulatesStep(code: seq<Byte>, text: seq<Byte>, h: seq<nat>, flat: bool, r: Live, drops: set<nat>)
    requires Compiled(code, flat) && Balanced(code, h) && Sound(code, text, h, r) && !r.config.Done?
    requires Agrees(code, LiveStep(text, r).code, drops)
    ensures var r' := LiveStep(text, r);
            && Rewritten(code, r'.code)
            && (r'.config == Done(Overflow) || r'.config == Step(Machine(code, text, drops), r.config))
  {
    if r.config.Running? && r.config.p < |code| {
      var p, d, stack := r.config.p, r.config.d, r.config.stack;
      assert CommandOk(code, 0, |code|, |code|, flat, p);
      assert LevelOk(code, h, p);
      CommandKept(code, r.code, p);
      hide Unsteady, Finalizes, Boundary, MayBecome, Compiled, Balanced;
      if r.code[p] == MAYBE_FINALIZE_JUMP {
        RewriteOne(code, r.code, p, flat);
        var code' := r.code[p := Decided(r.code, p)];
        assert LiveStep(text, r).code == code';
        assert code'[p] != MAYBE_FINALIZE_JUMP;
        StepKept(code, code', text, drops, p, d, stack);
      } else {
        assert LiveStep(text, r).code == r.code;
        assert r.code[p] == r.code[p];
        StepKept(code, r.code, text, drops, p, d, stack);
      }
    } else if r.config.Running? {
      BoundaryBounds(code, 0, r.config.p);
    }
  }

  lemma LiveStepSound(code: seq<Byte>, text: seq<Byte>, h: seq<nat>, flat: bool, r: Live)
    requires Compiled(code, flat) && Balanced(code, h) && Sound(code, text, h, r) && !r.config.Done?
    ensures Sound(code, text, h, LiveStep(text, r))
  {
    var r' := LiveStep(text, r);
    var drops := DropsOf(code, r'.code);
    SimulatesStep(code, text, h, flat, r, drops);
    StaysOnBoundaries(code, text, drops, flat, r.config);
    StaysInOrder(Machine(code, text, drops), r.config);
    StaysEnough(code, text, drops, flat, h, r.config);
  }

  /** Over any run of the matcher on any compiled program, rewritten before or not: every
      command executed starts at a boundary and every resumption point is one, the saved
      positions stay in order, and no failure point is dropped from an empty stack. */
  lemma {:induction false} RunInvariant(code: seq<Byte>, text: seq<Byte>, h: seq<nat>, flat: bool, r: Live, steps: nat)
    requires Compiled(code, flat) && Balanced(code, h) && Sound(code, text, h, r)
    ensures Sound(code, text, h, LiveRun(text, r, steps))
    decreases steps
  {
    hide LiveStep, Sound, Compiled, Balanced;
    if steps > 0 && !r.config.Done? {
      LiveStepSound(code, text, h, flat, r);
      RunInvariant(code, text, h, flat, LiveStep(text, r), steps - 1);
    }
  }

  /** No position is before the one where the run started. */
  predicate NotBefore(pos: nat, c: Config) {
    match c
    case Running(_, d, stack) => pos <= d && StackNotBefore(pos, stack)
    case Failing(stack) => StackNotBefore(pos, stack)
    case Done(o) => o.Match? ==> pos <= o.end
  }

  predicate StackNotBefore(pos: nat, stack: seq<Point>) {
    forall i :: 0 <= i < |stack| && stack[i].Point? ==> pos <= stack[i].d
  }

  lemma {:induction false} RunsForward(text: seq<Byte>, r: Live, steps: nat, pos: nat)
    requires NotBefore(pos, r.config)
    ensures NotBefore(pos, LiveRun(text, r, steps).config)
    decreases steps
  {
    hide LiveStep, NotBefore;
    if steps > 0 && !r.config.Done? {
      StepForward(text, r, pos);
      RunsForward(text, LiveStep(text, r), steps - 1, pos);
    }
  }

  lemma StepForward(text: seq<Byte>, r: Live, pos: nat)
    requires NotBefore(pos, r.config) && !r.config.Done?
    ensures NotBefore(pos, LiveStep(text, r).config)
  {
    hide Finalizes, Reads, Consumes, TestHolds;
  }

  lemma StartSound(code: seq<Byte>, code': seq<Byte>, text: seq<Byte>, h: seq<nat>, pos: nat)
    requires Balanced(code, h) && Rewritten(code, code') && pos <= |text|
    ensures Sound(code, text, h, Start(code', pos))
  {
  }

  // ---- A whole run, with the drops it has made in the end ----

  /** What has been decided stays decided. */
  ghost predicate Grows(code: seq<Byte>, code': seq<Byte>) {
    && |code'| == |code|
    && forall j: nat {:trigger code'[j]} :: j < |code| && code'[j] != code[j] ==> code[j] == MAYBE_FINALIZE_JUMP && code'[j] != MAYBE_FINALIZE_JUMP
  }

  lemma {:induction false} LiveGrows(text: seq<Byte>, r: Live, steps: nat)
    ensures Grows(r.code, LiveRun(text, r, steps).code)
    decreases steps
  {
    if steps > 0 && !r.config.Done? {
      var r' := LiveStep(text, r);
      LiveGrows(text, r', steps - 1);
      assert Grows(r.code, r'.code);
      var code := LiveRun(text, r', steps - 1).code;
      forall j: nat {:trigger code[j]} | j < |r.code| && code[j] != r.code[j]
        ensures r.code[j] == MAYBE_FINALIZE_JUMP && code[j] != MAYBE_FINALIZE_JUMP
      {
        assert r'.code[j] == r'.code[j];
      }
    }
  }

  lemma AgreesBefore(code: seq<Byte>, code': seq<Byte>, code'': seq<Byte>, drops: set<nat>)
    requires |code| == |code'| && Grows(code', code'') && Agrees(code, code'', drops)
    ensures Agrees(code, code', drops)
  {
    forall j: nat {:trigger code'[j]} | j < |code| && code[j] == MAYBE_FINALIZE_JUMP && code'[j] != MAYBE_FINALIZE_JUMP
      ensures j in drops <==> code'[j] == FINALIZE_JUMP
    {
      assert code''[j] == code'[j];
    }
  }

  lemma {:induction false} SimulatesRun(code: seq<Byte>, text: seq<Byte>, h: seq<nat>, flat: bool, r: Live, steps: nat, drops: set<nat>)
    requires Compiled(code, flat) && Balanced(code, h) && Sound(code, text, h, r)
    requires Agrees(code, LiveRun(text, r, steps).code, drops)
    ensures var c := LiveRun(text, r, steps).config;
            c == Done(Overflow) || c == Run(Machine(code, text, drops), r.config, steps)
    decreases steps
  {
    hide Compiled, Balanced, Agrees;
    if steps > 0 && !r.config.Done? {
      var r' := LiveStep(text, r);
      LiveStepSound(code, text, h, flat, r);
      LiveGrows(text, r', steps - 1);
      AgreesBefore(code, r'.code, LiveRun(text, r', steps - 1).code, drops);
      SimulatesStep(code, text, h, flat, r, drops);
      if r'.config != Done(Overflow) {
        SimulatesRun(code, text, h, flat, r', steps - 1, drops);
      }
    }
  }

  // ---- Patterns on which every drop is harmless ----

  /** Wherever the matcher may decide to drop, dropping is legal. */
  ghost predicate SafeProgram(code: seq<Byte>) {
    forall j: nat {:trigger MayBecome(code, j, FINALIZE_JUMP)} ::
      Boundary(code, 0, j) && j < |code| && code[j] == MAYBE_FINALIZE_JUMP && MayBecome(code, j, FINALIZE_JUMP) ==> LegalDrop(code, j)
  }

  lemma DropsAreLegal(code: seq<Byte>, code': seq<Byte>)
    requires SafeProgram(code) && Rewritten(code, code')
    ensures AllLegal(code, DropsOf(code, code'))
  {
    forall j | j in DropsOf(code, code') ensures LegalDrop(code, j) {
      assert SameOrDecided(code, code', j);
    }
  }

  /** A pattern that the matcher can be trusted with. */
  ghost predicate Trusted(e: Alts) {
    WellFormedAlts(e) && ProperLoopsAlts(e) && |AltsCode(e)| <= MAX_CODE && SafeProgram(AltsCode(e))
  }

  /** Its program, rewritten by earlier runs or not, is run to the first end position in
      order unless the failure stack overflows, and is left a rewriting of itself. */
  lemma RunFinds(e: Alts, code: seq<Byte>, text: seq<Byte>, pos: nat) returns (steps: nat)
    requires Trusted(e) && Rewritten(AltsCode(e), code) && pos <= |text|
    ensures var r := LiveRun(text, Start(code, pos), steps);
            && Rewritten(AltsCode(e), r.code)
            && (r.config == Done(Overflow) || r.config == Done(L.Expected(e, text, pos)))
  {
    ProgramCompiled(e);
    ProgramBalanced(e);
    StartSound(AltsCode(e), code, text, Heights(e), pos);
    steps := RunOn(e, code, text, pos, 0);
    RunInvariant(AltsCode(e), text, Heights(e), GroupFreeAlts(e), Start(code, pos), steps);
  }

  /** Places that might still be decided to drop. */
  function Undecided(code: seq<Byte>, code': seq<Byte>): set<nat> {
    set j: nat | j < |code| && j < |code'| && code[j] == MAYBE_FINALIZE_JUMP && code'[j] != FINALIZE_JUMP
  }

  /** From a run of n steps on: with the drops made so far the original program stops;
      until then either nothing more is dropped or there are fewer places left to. */
  lemma {:induction false} RunOn(e: Alts, code: seq<Byte>, text: seq<Byte>, pos: nat, n: nat) returns (steps: nat)
    requires Trusted(e) && Rewritten(AltsCode(e), code) && pos <= |text|
    requires Compiled(AltsCode(e), GroupFreeAlts(e)) && Balanced(AltsCode(e), Heights(e))
    requires Sound(AltsCode(e), text, Heights(e), Start(code, pos))
    ensures var c := LiveRun(text, Start(code, pos), steps).config;
            c == Done(Overflow) || c == Done(L.Expected(e, text, pos))
    decreases Undecided(AltsCode(e), LiveRun(text, Start(code, pos), n).code)
  {
    var original, start, h, flat := AltsCode(e), Start(code, pos), Heights(e), GroupFreeAlts(e);
    var now := LiveRun(text, start, n);
    RunInvariant(original, text, h, flat, start, n);
    var drops := DropsOf(original, now.code);
    DropsAreLegal(original, now.code);
    L.ProgramRuns(e, text, pos, drops);
    var m := Machine(original, text, drops);
    var last: nat :| Run(m, start.config, last) == Done(L.Expected(e, text, pos));
    steps := if n <= last then last else n;
    var later := LiveRun(text, start, steps);
    RunStays(m, start.config, last, steps);
    MoreSteps(text, start, n, steps);
    LiveGrows(text, now, steps - n);
    RunInvariant(original, text, h, flat, start, steps);
    if DropsOf(original, later.code) == drops {
      SimulatesRun(original, text, h, flat, start, steps, drops);
    } else {
      FewerUndecided(original, now.code, later.code);
      steps := RunOn(e, code, text, pos, steps);
    }
  }

  lemma {:induction false} MoreSteps(text: seq<Byte>, r: Live, n: nat, steps: nat)
    requires n <= steps
    ensures LiveRun(text, r, steps) == LiveRun(text, LiveRun(text, r, n), steps - n)
    decreases n
  {
    hide LiveStep;
    if n > 0 && !r.config.Done? {
      MoreSteps(text, LiveStep(text, r), n - 1, steps - 1);
    }
  }

  lemma FewerUndecided(code: seq<Byte>, code': seq<Byte>, code'': seq<Byte>)
    requires Rewritten(code, code') && Rewritten(code, code'') && Grows(code', code'')
    requires DropsOf(code, code'') != DropsOf(code, code')
    ensures Undecided(code, code'') < Undecided(code, code')
  {
    hide SameOrDecided;
    forall j | j in DropsOf(code, code') ensures j in DropsOf(code, code'') {
      assert code''[j] == code'[j];
    }
    forall j | j in Undecided(code, code'') ensures j in Undecided(code, code') {
      assert code''[j] == code''[j];
    }
    var j :| j in DropsOf(code, code'') && j !in DropsOf(code, code');
    assert j in Undecided(code, code') && j !in Undecided(code, code'');
  }

  // ---- The matcher ----

  /** The exactn loop: compares byte by byte. */
  method MatchExactly(code: array<Byte>, text: seq<Byte>, p: nat, d: nat) returns (ok: bool)
    requires p + 1 < code.Length && 1 <= code[p + 1] && p + 2 + code[p + 1] <= code.Length && d <= |text|
    ensures var n := code[p + 1];
            ok <==> d + n <= |text| && text[d..d + n] == code[p + 2..p + 2 + n]
  {
    var n: int := code[p + 1];
    var i := 0;
    while i < n
      invariant 0 <= i <= n && d + i <= |text|
      invariant text[d..d + i] == code[p + 2..p + 2 + i]
    {
      if d + i == |text| {
        return false;
      }
      if text[d + i] != code[p + 2 + i] {
        assert d + n <= |text| ==> text[d..d + n][i] != code[p + 2..p + 2 + n][i];
        return false;
      }
      i := i + 1;
    }
    ok := true;
  }

  /** The comparison of what follows a loop with how its operand starts. */
  method MayFinalize(code: array<Byte>, used: nat, p: nat) returns (yes: bool)
    requires p + 3 <= used <= code.Length
    ensures yes == Finalizes(code[..used], p)
  {
    ghost var program := code[..used];
    var loop := p + 3 + DecodeOffset(code[p + 1], code[p + 2]);
    var next := p + 3;
    while next < used && (code[next] == STOP_MEMORY || code[next] == START_MEMORY)
      invariant p + 3 <= next <= used
      invariant SkipMemory(program, p + 3) == SkipMemory(program, next)
    {
      next := next + 1;
    }
    if next == used {
      return true;
    }
    yes := false;
    if code[next] == EXACTN || code[next] == ENDLINE {
      var c := if code[next] == ENDLINE then NEWLINE else Peek(code[..used], next + 2);
      var first := Peek(code[..used], loop + 3);
      if first == EXACTN {
        yes := Peek(code[..used], loop + 5) != SignedChar(c);
      } else if first == CHARSET || first == CHARSET_NOT {
        var inverted := first == CHARSET_NOT;
        if c < 8 * Peek(code[..used], loop + 4) && Bit(Peek(code[..used], loop + 5 + c / 8), c % 8) {
          inverted := !inverted;
        }
        yes := !inverted;
      }
    }
  }

  /** One command; goes on at p', d' unless it fails or cannot be run. */
  method Execute(code: array<Byte>, used: nat, text: seq<Byte>, p: nat, d: nat, stack: seq<Point>, capacity: nat)
    returns (p': nat, d': nat, stack': seq<Point>, capacity': nat, failed: bool, overflow: bool)
    requires used <= code.Length && d <= |text| && Decodes(code[..used], p)
    requires LiveStep(text, Live(code[..used], capacity, Running(p, d, stack))).config != Done(Crash)
    modifies code
    ensures var r := LiveStep(text, Live(old(code[..used]), capacity, Running(p, d, stack)));
            && code[..used] == r.code && (overflow || capacity' == r.capacity)
            && r.config == if overflow then Done(Overflow) else if failed then Failing(stack') else Running(p', d', stack')
    ensures code[used..] == old(code[used..])
  {
    var op := code[p];
    ghost var program := code[..used];
    p', d', stack', capacity', failed, overflow := p, d, stack, capacity, false, false;
    if IsJumpOp(op) {
      var target := p + 3 + DecodeOffset(code[p + 1], code[p + 2]);
      assert target == Target(program, p);
      if op == MAYBE_FINALIZE_JUMP {
        var yes := MayFinalize(code, used, p);
        op := if yes then FINALIZE_JUMP else JUMP;
        code[p] := op;
        assert code[..used] == program[p := op];
        assert Target(code[..used], p) == Target(program, p);
      }
      if op == ON_FAILURE_JUMP || op == DUMMY_FAILURE_JUMP {
        if 2 * |stack| == capacity {
          if op == ON_FAILURE_JUMP && capacity > 2 * MAX_FAILURES {
            overflow := true;
            return;
          }
          capacity' := 2 * capacity;
        }
        if op == ON_FAILURE_JUMP {
          stack' := stack + [Point(target, d)];
          p' := p + 3;
          return;
        }
        stack' := stack + [Dummy];
      } else if op == FINALIZE_JUMP {
        stack' := stack[..|stack| - 1];
      }
      p' := target;
    } else {
      p', d', failed := Consume(code, used, text, p, d);
    }
  }

  /** A command that is no jump. */
  method Consume(code: array<Byte>, used: nat, text: seq<Byte>, p: nat, d: nat) returns (p': nat, d': nat, failed: bool)
    requires used <= code.Length && d <= |text| && Decodes(code[..used], p) && !IsJumpOp(code[p])
    ensures forall stack :: Step(Machine(code[..used], text, {}), Running(p, d, stack))
                            == if failed then Failing(stack) else Running(p', d', stack)
  {
    var op := code[p];
    ghost var program := code[..used];
    p', d', failed := p + 1, d, false;
    if op == START_MEMORY || op == STOP_MEMORY {
      p' := p + 2;
    } else if op == EXACTN {
      assert code[p + 2..p + 2 + code[p + 1]] == program[p + 2..p + 2 + program[p + 1]];
      var ok := MatchExactly(code, text, p, d);
      p', d', failed := p + 2 + code[p + 1], d + code[p + 1], !ok;
    } else if IsTestOp(op) {
      failed := !TestHolds(op, text, d);
    } else if d == |text| {
      failed := true;
    } else {
      var c := text[d];
      if op == ANYCHAR {
        failed := c == NEWLINE;
      } else if op == WORDCHAR {
        failed := !IsWordChar(c);
      } else if op == NOTWORDCHAR {
        failed := IsWordChar(c);
      } else {
        var accepted := op == CHARSET_NOT;
        if c < 8 * (code[p + 1] as int) && Bit(code[p + 2 + c / 8], c % 8) {
          accepted := !accepted;
        }
        assert program[p + 2..p + 2 + program[p + 1]] == code[p + 2..p + 2 + code[p + 1]];
        failed := !accepted;
        p' := p + 2 + code[p + 1];
      }
      d' := d + 1;
    }
  }

  /** A run that ends well goes on by a step. */
  lemma RunsOn(text: seq<Byte>, r: Live, steps: nat)
    requires !r.config.Done?
    requires var o := LiveRun(text, r, steps).config; o.Done? && o.outcome != Crash
    ensures steps > 0 && LiveRun(text, r, steps) == LiveRun(text, LiveStep(text, r), steps - 1)
    ensures LiveStep(text, r).config != Done(Crash)
    ensures r.config.Running? ==> r.config.d <= |text| && (r.config.p == |r.code| || Decodes(r.code, r.config.p))
  {
  }

  lemma RunEnds(text: seq<Byte>, r: Live, steps: nat)
    requires r.config.Running? && r.config.d <= |text| && r.config.p == |r.code| && steps > 0
    ensures LiveRun(text, r, steps) == r.(config := Done(Match(r.config.d)))
  {
    assert LiveStep(text, r) == r.(config := Done(Match(r.config.d)));
  }

  lemma RunOverflows(text: seq<Byte>, r: Live, steps: nat)
    requires !r.config.Done? && steps > 0 && LiveStep(text, r).config == Done(Overflow)
    ensures LiveRun(text, r, steps) == LiveStep(text, r)
  {
  }

  lemma RunFails(text: seq<Byte>, r: Live, steps: nat)
    requires r.config.Failing? && steps > 0
    ensures var stack := r.config.stack;
            if stack == [] then LiveRun(text, r, steps) == r.(config := Done(NoMatch))
            else var top, rest := stack[|stack| - 1], stack[..|stack| - 1];
                 LiveStep(text, r) == r.(config := if top.Dummy? then Failing(rest) else Running(top.p, top.d, rest))
  {
    if r.config.stack == [] {
      assert LiveStep(text, r) == r.(config := Done(NoMatch));
    }
  }

  /** The length of the match found at pos, -1 if there is none, -2 if the failure
      stack overflowed.  Called for programs whose run ends; see RunFinds. */
  method MatchAt(code: array<Byte>, used: nat, text: seq<Byte>, pos: nat, ghost steps: nat) returns (val: int)
    requires used <= code.Length && pos <= |text|
    requires var r := LiveRun(text, Start(code[..used], pos), steps).config; r.Done? && r.outcome != Crash
    modifies code
    ensures var r := LiveRun(text, Start(old(code[..used]), pos), steps);
            code[..used] == r.code && val == Report(r.config.outcome, pos)
    ensures code[used..] == old(code[used..])
  {
    var p: nat, d: nat, stack: seq<Point>, capacity: nat := 0, pos, [], INITIAL_ENTRIES;
    var failed := false;
    ghost var left := steps;
    ghost var final := LiveRun(text, Start(code[..used], pos), steps);
    hide LiveRun, LiveStep;
    while true
      invariant LiveRun(text, Live(code[..used], capacity, if failed then Failing(stack) else Running(p, d, stack)), left) == final
      invariant code[used..] == old(code[used..])
      decreases left
    {
      hide LiveRun, LiveStep, Decodes, Finalizes;
      ghost var now := Live(code[..used], capacity, if failed then Failing(stack) else Running(p, d, stack));
      RunsOn(text, now, left);
      if failed {
        RunFails(text, now, left);
        if stack == [] {
          return -1;
        }
        var top := stack[|stack| - 1];
        stack := stack[..|stack| - 1];
        if top.Point? {
          p, d, failed := top.p, top.d, false;
        }
      } else {
        if p == used {
          RunEnds(text, now, left);
          return d - pos;
        }
        var overflow;
        p, d, stack, capacity, failed, overflow := Execute(code, used, text, p, d, stack, capacity);
        if overflow {
          RunOverflows(text, now, left);
          return -2;
        }
      }
      left := left - 1;
    }
  }

  function Report(o: Outcome, pos: nat): int {
    match o
    case Match(end) => end - pos
    case NoMatch => -1
    case _ => -2
  }
}
