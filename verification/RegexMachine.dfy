/** The machine of re_match_2 as a transition system over values: a program
    counter, a position in the text and the stack of failure points. */
module RegexMachine {
  import opened RegexSyntax
  import opened RegexCode

  /** A failure point; a dummy one is flushed when a failure reaches it. */
  datatype Point = Dummy | Point(p: nat, d: nat)

  /** Overflow: the failure stack is full.  Crash: the commands are not a program. */
  datatype Outcome = Match(end: nat) | NoMatch | Overflow | Crash

  datatype Config =
    | Running(p: nat, d: nat, stack: seq<Point>)
    | Failing(stack: seq<Point>)
    | Done(outcome: Outcome)

  /** A maybe_finalize_jump at a place in `drops` takes a failure point away; any other
      is a plain jump. */
  datatype Machine = Machine(code: seq<Byte>, text: seq<Byte>, drops: set<nat>)

  // ---- The decision made by maybe_finalize_jump ----

  /** Steps over start_memory and stop_memory opcodes, one byte at a time. */
  function SkipMemory(code: seq<Byte>, i: nat): nat
    decreases |code| - i
  {
    if i < |code| && (code[i] == STOP_MEMORY || code[i] == START_MEMORY) then SkipMemory(code, i + 1) else i
  }

  function SignedChar(c: Byte): int {
    if c < 128 then c else c - 256
  }

  /** Whether what follows the loop whose end is at p and the start of the loop
      are seen to have no character in common. */
  predicate Finalizes(code: seq<Byte>, p: nat)
    requires p + 3 <= |code|
  {
    var next := SkipMemory(code, p + 3);
    next >= |code| || Excludes(code, next, p + 3 + DecodeOffset(code[p + 1], code[p + 2]))
  }

  /** The command at `next` demands a character that the operand of `loop` refuses. */
  predicate Excludes(code: seq<Byte>, next: nat, loop: int)
    requires next < |code|
  {
    && (code[next] == EXACTN || code[next] == ENDLINE)
    && SeenToRefuse(code, loop, if code[next] == ENDLINE then NEWLINE else Peek(code, next + 2))
  }

  /** The operand of `loop` is seen not to start with c: compared through a signed
      character if it is a string. */
  predicate SeenToRefuse(code: seq<Byte>, loop: int, c: Byte) {
    if Peek(code, loop + 3) == EXACTN then Peek(code, loop + 5) != SignedChar(c)
    else if Peek(code, loop + 3) == CHARSET || Peek(code, loop + 3) == CHARSET_NOT then
      var inBits := c < 8 * Peek(code, loop + 4) as int && Bit(Peek(code, loop + 5 + c / 8), c % 8);
      !(inBits != (Peek(code, loop + 3) == CHARSET_NOT))
    else false
  }

  // ---- One step ----

  predicate IsSingleOp(op: Byte) {
    || op == ANYCHAR
    || op == CHARSET
    || op == CHARSET_NOT
    || op == WORDCHAR
    || op == NOTWORDCHAR
  }

  /** The bytes at p hold a complete command; jumps land inside the program. */
  predicate Decodes(code: seq<Byte>, p: nat) {
    && p < |code|
    && var op := code[p];
       || IsTestOp(op)
       || op == ANYCHAR || op == WORDCHAR || op == NOTWORDCHAR
       || ((op == CHARSET || op == CHARSET_NOT) && p + 1 < |code| && p + 2 + code[p + 1] <= |code|)
       || (op == EXACTN && p + 1 < |code| && 1 <= code[p + 1] && p + 2 + code[p + 1] <= |code|)
       || ((op == START_MEMORY || op == STOP_MEMORY) && p + 1 < |code|)
       || (IsJumpOp(op) && p + 3 <= |code| && 0 <= Target(code, p) <= |code|)
  }

  predicate IsJumpOp(op: Byte) {
    || op == JUMP
    || op == ON_FAILURE_JUMP
    || op == FINALIZE_JUMP
    || op == MAYBE_FINALIZE_JUMP
    || op == DUMMY_FAILURE_JUMP
  }

  function Target(code: seq<Byte>, p: nat): int
    requires p + 3 <= |code|
  {
    p + 3 + DecodeOffset(code[p + 1], code[p + 2])
  }

  function CommandSize(code: seq<Byte>, p: nat): (n: nat)
    requires Decodes(code, p)
    ensures 1 <= n <= |code| - p
  {
    if code[p] == EXACTN || code[p] == CHARSET || code[p] == CHARSET_NOT then 2 + code[p + 1] as int
    else if code[p] == START_MEMORY || code[p] == STOP_MEMORY then 2
    else if IsJumpOp(code[p]) then 3
    else 1
  }

  function SingleItem(code: seq<Byte>, p: nat): (e: Item)
    requires Decodes(code, p) && IsSingleOp(code[p])
    ensures IsSingle(e)
  {
    if code[p] == ANYCHAR then Any
    else if code[p] == WORDCHAR then Word(false)
    else if code[p] == NOTWORDCHAR then Word(true)
    else CharSet(code[p] == CHARSET_NOT, code[p + 2..p + 2 + code[p + 1]])
  }

  function Step(m: Machine, c: Config): Config
    requires !c.Done?
  {
    match c
    case Failing(stack) =>
      if stack == [] then Done(NoMatch)
      else
        var top, rest := stack[|stack| - 1], stack[..|stack| - 1];
        (match top case Dummy => Failing(rest) case Point(p, d) => Running(p, d, rest))
    case Running(p, d, stack) =>
      if d > |m.text| then Done(Crash)
      else if p == |m.code| then Done(Match(d))
      else if !Decodes(m.code, p) then Done(Crash)
      else Command(m, p, d, stack)
  }

  function Command(m: Machine, p: nat, d: nat, stack: seq<Point>): Config
    requires d <= |m.text| && Decodes(m.code, p)
  {
    if IsJumpOp(m.code[p]) then JumpCommand(m, p, d, stack)
    else if !Reads(m.code, m.text, p, d) then Failing(stack)
    else Running(p + CommandSize(m.code, p), d + Consumes(m.code, p), stack)
  }

  /** Whether the command at p accepts what stands at d. */
  predicate Reads(code: seq<Byte>, text: seq<Byte>, p: nat, d: nat)
    requires d <= |text| && Decodes(code, p) && !IsJumpOp(code[p])
  {
    var op := code[p];
    if IsTestOp(op) then TestHolds(op, text, d)
    else if IsSingleOp(op) then d < |text| && Accepts(SingleItem(code, p), text[d])
    else if op == EXACTN then
      d + code[p + 1] <= |text| && text[d..d + code[p + 1]] == code[p + 2..p + 2 + code[p + 1]]
    else true
  }

  /** How many characters it takes. */
  function Consumes(code: seq<Byte>, p: nat): (n: nat)
    requires Decodes(code, p) && !IsJumpOp(code[p])
  {
    if IsSingleOp(code[p]) then 1 else if code[p] == EXACTN then code[p + 1] else 0
  }

  function JumpCommand(m: Machine, p: nat, d: nat, stack: seq<Point>): Config
    requires Decodes(m.code, p) && IsJumpOp(m.code[p])
  {
    var op, target: nat := m.code[p], Target(m.code, p);
    if op == ON_FAILURE_JUMP then Running(p + 3, d, stack + [Point(target, d)])
    else if op == DUMMY_FAILURE_JUMP then Running(target, d, stack + [Dummy])
    else if op == FINALIZE_JUMP then
      if stack == [] then Done(Crash) else Running(target, d, Dropped(stack))
    else if op == MAYBE_FINALIZE_JUMP && p in m.drops then Running(target, d, Dropped(stack))
    else Running(target, d, stack)
  }

  /** The stack without its top.  That a stack to be dropped from is never empty is a
      property of the programs; see RegexHeights. */
  function Dropped(stack: seq<Point>): seq<Point> {
    if stack == [] then [] else stack[..|stack| - 1]
  }

  function Run(m: Machine, c: Config, steps: nat): Config
    decreases steps
  {
    if steps == 0 || c.Done? then c else Run(m, Step(m, c), steps - 1)
  }

  // ---- What a configuration comes to ----

  ghost predicate Evals(m: Machine, c: Config, r: Outcome) {
    exists steps: nat :: Run(m, c, steps) == Done(r)
  }

  lemma EvalsStep(m: Machine, c: Config, r: Outcome)
    requires !c.Done?
    ensures Evals(m, Step(m, c), r) <==> Evals(m, c, r)
  {
    if Evals(m, Step(m, c), r) {
      var steps: nat :| Run(m, Step(m, c), steps) == Done(r);
      assert Run(m, c, steps + 1) == Done(r);
    }
    if Evals(m, c, r) {
      var steps: nat :| Run(m, c, steps) == Done(r);
      assert Run(m, Step(m, c), steps - 1) == Done(r);
    }
  }

  lemma EvalsDone(m: Machine, r: Outcome)
    ensures Evals(m, Done(r), r)
  {
    assert Run(m, Done(r), 0) == Done(r);
  }

  lemma {:induction false} EvalsUnique(m: Machine, c: Config, r: Outcome, r': Outcome)
    requires Evals(m, c, r) && Evals(m, c, r')
    ensures r == r'
  {
    var i: nat :| Run(m, c, i) == Done(r);
    var j: nat :| Run(m, c, j) == Done(r');
    if i <= j { RunStays(m, c, i, j); } else { RunStays(m, c, j, i); }
  }

  lemma {:induction false} RunStays(m: Machine, c: Config, i: nat, j: nat)
    requires i <= j && Run(m, c, i).Done?
    ensures Run(m, c, j) == Run(m, c, i)
    decreases i
  {
    if i > 0 && !c.Done? {
      RunStays(m, Step(m, c), i - 1, j - 1);
    }
  }
}
