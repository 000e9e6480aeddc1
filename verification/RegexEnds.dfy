/** Every attempt at a match ends, for every pattern whose loops are proper, whatever has
    been rewritten and whichever failure points are dropped. */
module RegexEnds {
  import opened RegexSyntax
  import opened RegexCode
  import opened RegexMachine
  import opened RegexHeights
  import opened RegexLayout
  import opened RegexMatch
  import opened RegexRanks

  // ---- What is left to be tried ----

  /** More than any of the ranks. */
  function Bound(h: seq<nat>): (n: nat)
    ensures forall i :: 0 <= i < |h| ==> h[i] < n
  {
    if h == [] then 0 else Over(h[|h| - 1], Bound(h[..|h| - 1]))
  }

  /** What can be tried from p at d in a text of n characters takes no longer than this.
      An on_failure_jump leads to two places that have a quarter of it each. */
  function Left(h: seq<nat>, n: nat, p: nat, d: nat): nat {
    if p < |h| && d <= n then Pow2(2 * ((n - d) * Bound(h) + h[p]) + 1) else 0
  }

  function PointLeft(h: seq<nat>, n: nat, point: Point): nat {
    match point
    case Dummy => 1
    case Point(p, d) => Left(h, n, p, d)
  }

  function StackLeft(h: seq<nat>, n: nat, stack: seq<Point>): nat {
    if stack == [] then 0 else StackLeft(h, n, stack[..|stack| - 1]) + PointLeft(h, n, stack[|stack| - 1])
  }

  function ConfigLeft(h: seq<nat>, n: nat, c: Config): nat {
    match c
    case Running(p, d, stack) => Left(h, n, p, d) + StackLeft(h, n, stack)
    case Failing(stack) => StackLeft(h, n, stack) + 1
    case Done(_) => 0
  }

  lemma StackPush(h: seq<nat>, n: nat, stack: seq<Point>, point: Point)
    ensures StackLeft(h, n, stack + [point]) == StackLeft(h, n, stack) + PointLeft(h, n, point)
  {
    assert (stack + [point])[..|stack|] == stack;
  }

  lemma LeftPositive(h: seq<nat>, n: nat, p: nat, d: nat)
    requires p < |h| && d <= n
    ensures 2 <= Left(h, n, p, d)
  {
    Pow2Grows(2 * ((n - d) * Bound(h) + h[p]), 2 * ((n - d) * Bound(h) + h[p]) + 1);
  }

  /** Lower in rank or further in the text, a quarter at most is left. */
  lemma LeftShrinks(h: seq<nat>, n: nat, p: nat, d: nat, p': nat, d': nat)
    requires p < |h| && p' < |h| && d <= d' <= n && (d < d' || h[p'] < h[p])
    ensures 4 * Left(h, n, p', d') <= Left(h, n, p, d)
  {
    hide Pow2, Bound;
    var r, r' := (n - d) * Bound(h) + h[p], (n - d') * Bound(h) + h[p'];
    RankShrinks(n - d, n - d', Bound(h), h[p], h[p']);
    Pow2Grows(2 * r' + 1, 2 * r' + 2);
    Pow2Grows(2 * r' + 2, 2 * r + 1);
  }

  lemma {:induction false} RankShrinks(k: nat, k': nat, b: nat, x: nat, x': nat)
    requires k' <= k && x' < b && (k' < k || x' < x)
    ensures k' * b + x' < k * b + x
    decreases k
  {
    if k' < k {
      assert k * b == (k - 1) * b + b;
      if k' < k - 1 {
        RankShrinks(k - 1, k', b, x, x');
      }
    }
  }

  // ---- Every step leaves less ----

  lemma JumpShrinks(m: Machine, h: seq<nat>, p: nat, d: nat, stack: seq<Point>)
    requires |h| == |m.code| + 1 && Decodes(m.code, p) && IsJumpOp(m.code[p]) && RankOk(m.code, h, p) && d <= |m.text|
    ensures ConfigLeft(h, |m.text|, JumpCommand(m, p, d, stack)) < Left(h, |m.text|, p, d) + StackLeft(h, |m.text|, stack)
  {
    var n, t := |m.text|, Target(m.code, p);
    hide Left, RankOk;
    LeftShrinks(h, n, p, d, t, d);
    LeftPositive(h, n, t, d);
    if m.code[p] == ON_FAILURE_JUMP {
      LeftShrinks(h, n, p, d, p + 3, d);
      StackPush(h, n, stack, Point(t, d));
    } else if m.code[p] == DUMMY_FAILURE_JUMP {
      StackPush(h, n, stack, Dummy);
    }
  }

  lemma StepShrinks(m: Machine, h: seq<nat>, c: Config)
    requires Ranked(m.code, h, 0, |m.code|) && OnBoundaries(m.code, m.text, c) && !c.Done?
    ensures ConfigLeft(h, |m.text|, Step(m, c)) < ConfigLeft(h, |m.text|, c)
  {
    if c.Running? {
      BoundaryBounds(m.code, 0, c.p);
      LeftPositive(h, |m.text|, c.p, c.d);
      if c.p < |m.code| {
        assert Decodes(m.code, c.p) && RankOk(m.code, h, c.p);
        CommandShrinks(m, h, c.p, c.d, c.stack);
      }
    }
  }

  lemma CommandShrinks(m: Machine, h: seq<nat>, p: nat, d: nat, stack: seq<Point>)
    requires |h| == |m.code| + 1 && Decodes(m.code, p) && RankOk(m.code, h, p) && d <= |m.text|
    ensures ConfigLeft(h, |m.text|, Command(m, p, d, stack)) < Left(h, |m.text|, p, d) + StackLeft(h, |m.text|, stack)
  {
    hide Left, StackLeft, JumpCommand;
    LeftPositive(h, |m.text|, p, d);
    if IsJumpOp(m.code[p]) {
      JumpShrinks(m, h, p, d, stack);
    } else if Reads(m.code, m.text, p, d) {
      var p', d' := p + CommandSize(m.code, p), d + Consumes(m.code, p);
      LeftShrinks(h, |m.text|, p, d, p', d');
      LeftPositive(h, |m.text|, p', d');
    }
  }

  lemma LiveShrinks(code: seq<Byte>, text: seq<Byte>, heights: seq<nat>, flat: bool, ranks: seq<nat>, r: Live)
    requires Compiled(code, flat) && Balanced(code, heights) && Sound(code, text, heights, r) && !r.config.Done?
    requires Ranked(code, ranks, 0, |code|)
    ensures ConfigLeft(ranks, |text|, LiveStep(text, r).config) < ConfigLeft(ranks, |text|, r.config)
  {
    var r' := LiveStep(text, r);
    var drops := DropsOf(code, r'.code);
    LiveStepSound(code, text, heights, flat, r);
    SimulatesStep(code, text, heights, flat, r, drops);
    StepShrinks(Machine(code, text, drops), ranks, r.config);
  }

  /** So every run of the matcher ends. */
  lemma {:induction false} LiveEnds(code: seq<Byte>, text: seq<Byte>, heights: seq<nat>, flat: bool, ranks: seq<nat>, r: Live)
    returns (steps: nat)
    requires Compiled(code, flat) && Balanced(code, heights) && Sound(code, text, heights, r)
    requires Ranked(code, ranks, 0, |code|)
    ensures LiveRun(text, r, steps).config.Done? && LiveRun(text, r, steps).config != Done(Crash)
    decreases ConfigLeft(ranks, |text|, r.config)
  {
    hide LiveStep, Compiled, Balanced, Ranked, ConfigLeft;
    steps := 0;
    if !r.config.Done? {
      LiveShrinks(code, text, heights, flat, ranks, r);
      LiveStepSound(code, text, heights, flat, r);
      steps := LiveEnds(code, text, heights, flat, ranks, LiveStep(text, r));
      steps := steps + 1;
    }
  }

  /** Every attempt with a pattern whose loops are proper ends, and nothing undefined
      happens, groups or not, safe or not. */
  lemma ProperEnds(e: Alts, code: seq<Byte>, text: seq<Byte>, pos: nat) returns (steps: nat)
    requires WellFormedAlts(e) && ProperLoopsAlts(e) && |AltsCode(e)| <= MAX_CODE
    requires Rewritten(AltsCode(e), code) && pos <= |text|
    ensures var c := LiveRun(text, Start(code, pos), steps).config; c.Done? && c.outcome != Crash
  {
    ProgramCompiled(e);
    ProgramBalanced(e);
    ProgramRanked(e);
    StartSound(AltsCode(e), code, text, Heights(e), pos);
    steps := LiveEnds(AltsCode(e), text, Heights(e), GroupFreeAlts(e), Ranks(e), Start(code, pos));
  }
}
