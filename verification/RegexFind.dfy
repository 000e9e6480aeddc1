/** What a search of a pattern finds, in terms of its language, and when the failure
    stack overflows. */
module RegexFind {
  import opened RegexSyntax
  import opened RegexCode
  import opened RegexDrops
  import opened RegexMachine
  import opened RegexHeights
  import opened RegexLayout
  import opened RegexMatch
  import opened RegexEnds
  import opened RegexFastmap
  import opened RegexSearch
  import L = RegexLanguage

  /** A pattern's program before any rewriting. */
  function Program(e: Alts): Original
    requires WellFormedAlts(e)
  {
    Original(AltsCode(e), GroupFreeAlts(e), Heights(e))
  }

  lemma ProgramIs(e: Alts)
    requires WellFormedAlts(e) && |AltsCode(e)| <= MAX_CODE
    ensures IsProgram(Program(e))
  {
    ProgramCompiled(e);
    ProgramBalanced(e);
  }

  /** Every attempt at a pattern with proper loops ends, whatever has been rewritten. */
  lemma AttemptsOfProper(e: Alts, text: seq<Byte>)
    requires WellFormedAlts(e) && ProperLoopsAlts(e) && |AltsCode(e)| <= MAX_CODE
    ensures AttemptsEnd(AltsCode(e), text)
  {
    forall code: seq<Byte>, pos: nat {:trigger AttemptEnds(code, text, pos)} | Rewritten(AltsCode(e), code) && pos <= |text|
      ensures AttemptEnds(code, text, pos)
    {
      var steps := ProperEnds(e, code, text, pos);
    }
  }

  /** The first position, from start in the direction of range, where e matches. */
  function Scan(e: Alts, s: seq<Byte>, start: nat, range: int): int
    requires start <= |s| && 0 <= start + range <= |s|
    decreases if range < 0 then -range else range
  {
    if L.Expected(e, s, start) != NoMatch then start
    else if range == 0 then -1
    else Scan(e, s, start + Toward(range), range - Toward(range))
  }

  predicate InReach(start: nat, range: int, x: int) {
    if range >= 0 then start <= x <= start + range else start + range <= x <= start
  }

  /** The position found is the first in its direction at which a stretch of text is in
      the language; -1 says that there is none. */
  ghost predicate FoundFirst(e: Alts, s: seq<Byte>, start: nat, range: int, found: int) {
    if found == -1 then forall x: nat, j: nat :: InReach(start, range, x) ==> !LangAlts(e, s, x, j)
    else
      && InReach(start, range, found) && 0 <= found && (exists j: nat :: LangAlts(e, s, found, j))
      && forall x: nat, j: nat ::
           InReach(start, range, x) && (if range >= 0 then x < found else x > found) ==> !LangAlts(e, s, x, j)
  }

  lemma {:induction false} ScanMeans(e: Alts, s: seq<Byte>, start: nat, range: int)
    requires WellFormedAlts(e) && ProperLoopsAlts(e) && start <= |s| && 0 <= start + range <= |s|
    ensures FoundFirst(e, s, start, range, Scan(e, s, start, range))
    decreases if range < 0 then -range else range
  {
    hide L.Expected, LangAlts;
    L.ExpectedIsLang(e, s, start);
    if L.Expected(e, s, start) != NoMatch {
      L.ExpectedNoCrash(e, s, start);
    } else if range != 0 {
      var start', range' := start + Toward(range), range - Toward(range);
      ScanMeans(e, s, start', range');
      var found := Scan(e, s, start', range');
      forall x: nat, j: nat | InReach(start, range, x) && (found == -1 || (if range >= 0 then x < found else x > found))
        ensures !LangAlts(e, s, x, j)
      {
        assert x == start || InReach(start', range', x);
      }
    } else {
      forall x: nat, j: nat | InReach(start, range, x) ensures !LangAlts(e, s, x, j) {
        assert x == start && !LangAlts(e, s, start, j);
      }
    }
  }

  // ---- A search with its attempts ----

  /** An attempt in reach overflows the failure stack, with some rewriting of the program. */
  ghost predicate OverflowInReach(e: Alts, text: seq<Byte>, start: nat, range: int)
    requires WellFormedAlts(e)
  {
    exists pos: nat, code, code' {:trigger Attempted(code, text, pos, code', Overflow)} ::
      InReach(start, range, pos) && Rewritten(AltsCode(e), code) && Attempted(code, text, pos, code', Overflow)
  }

  lemma ProbeFinds(e: Alts, fm: FastMap, code: seq<Byte>, text: seq<Byte>, pos: nat, c: seq<Byte>, o: Outcome)
    requires Trusted(e) && Rewritten(AltsCode(e), code) && pos <= |text|
    requires fm.Map? ==> MapSound(AltsCode(e), fm.fast, fm.canBeNull)
    requires Probed(fm, code, text, pos, c, o)
    ensures Rewritten(AltsCode(e), c) && (o == L.Expected(e, text, pos) || (o == Overflow && Attempted(code, text, pos, c, o)))
  {
    var steps := RunFinds(e, code, text, pos);
    if Attempted(code, text, pos, c, o) {
      var r := LiveRun(text, Start(code, pos), steps);
      assert Attempted(code, text, pos, r.code, r.config.outcome);
      AttemptUnique(code, text, pos, c, o, r.code, r.config.outcome);
    } else {
      L.ProgramRuns(e, text, pos, {});
      HopelessFails(Machine(AltsCode(e), text, {}), fm.fast, fm.canBeNull, pos, L.Expected(e, text, pos));
    }
  }

  /** The search finds the first match, or the failure stack has overflowed on the way. */
  lemma {:induction false} SearchFinds(e: Alts, fm: FastMap, code: seq<Byte>, text: seq<Byte>, start: nat, range: int, code': seq<Byte>, found: int)
    requires Trusted(e) && Rewritten(AltsCode(e), code) && start <= |text| && 0 <= start + range <= |text|
    requires fm.Map? ==> MapSound(AltsCode(e), fm.fast, fm.canBeNull)
    requires Searches(fm, code, text, start, range, code', found)
    ensures found == Scan(e, text, start, range) || (found == -2 && OverflowInReach(e, text, start, range))
    decreases if range < 0 then -range else range
  {
    hide Searches, MapSound, Trusted, Attempted, Probed, L.Expected, Rewritten, AltsCode, WellFormedAlts, OverflowInReach;
    TrustedIsWell(e);
    var c, o := FirstProbe(fm, code, text, start, range, code', found);
    ProbeFinds(e, fm, code, text, start, c, o);
    L.ExpectedNoCrash(e, text, start);
    if o == Overflow {
      OverflowHere(e, code, text, start, range, c);
    } else if o == NoMatch && range != 0 {
      SearchFinds(e, fm, c, text, start + Toward(range), range - Toward(range), code', found);
      if found != Scan(e, text, start, range) {
        OverflowBeyond(e, text, start, range);
      }
    }
  }

  lemma TrustedIsWell(e: Alts)
    requires Trusted(e)
    ensures WellFormedAlts(e)
  {
  }

  lemma OverflowHere(e: Alts, code: seq<Byte>, text: seq<Byte>, start: nat, range: int, c: seq<Byte>)
    requires WellFormedAlts(e) && Rewritten(AltsCode(e), code) && 0 <= start + range
    requires Attempted(code, text, start, c, Overflow)
    ensures OverflowInReach(e, text, start, range)
  {
    assert InReach(start, range, start);
  }

  lemma OverflowBeyond(e: Alts, text: seq<Byte>, start: nat, range: int)
    requires WellFormedAlts(e) && range != 0 && 0 <= start + Toward(range) && OverflowInReach(e, text, start + Toward(range), range - Toward(range))
    ensures OverflowInReach(e, text, start, range)
  {
    var pos: nat, c1, c2 :| InReach(start + Toward(range), range - Toward(range), pos)
      && Rewritten(AltsCode(e), c1) && Attempted(c1, text, pos, c2, Overflow);
    assert InReach(start, range, pos);
  }

  // ---- Overflow does not depend on what has been rewritten ----

  /** No decision depends on bytes that may be rewritten. */
  ghost predicate Steady(code: seq<Byte>) {
    forall j: nat {:trigger Unsteady(code, j)} ::
      Boundary(code, 0, j) && j + 3 <= |code| && code[j] == MAYBE_FINALIZE_JUMP ==> !Unsteady(code, j)
  }

  /** So it is without memory commands. */
  lemma GroupFreeIsSteady(e: Alts)
    requires WellFormedAlts(e) && |AltsCode(e)| <= MAX_CODE && GroupFreeAlts(e)
    ensures Steady(AltsCode(e))
  {
    var code := AltsCode(e);
    ProgramCompiled(e);
    forall j: nat {:trigger Unsteady(code, j)} | j + 3 <= |code| && Boundary(code, 0, j) && code[j] == MAYBE_FINALIZE_JUMP
      ensures !Unsteady(code, j)
    {
      SteadyAt(code, j);
    }
  }

  lemma SteadyAt(code: seq<Byte>, j: nat)
    requires Compiled(code, true) && j + 3 <= |code| && Boundary(code, 0, j) && code[j] == MAYBE_FINALIZE_JUMP
    ensures !Unsteady(code, j) && SkipMemory(code, j + 3) == j + 3
  {
    assert CommandOk(code, 0, |code|, |code|, true, j);
    BoundaryNext(code, 0, j);
    if j + 3 < |code| {
      assert CommandOk(code, 0, |code|, |code|, true, j + 3);
    }
  }

  /** The drops that all runs of a steady program agree on. */
  ghost function SteadyDrops(code: seq<Byte>): set<nat> {
    set j: nat | j < |code| && j + 3 <= |code| && Finalizes(code, j)
  }

  lemma SteadyAgrees(code: seq<Byte>, code': seq<Byte>)
    requires Steady(code) && Rewritten(code, code')
    ensures Agrees(code, code', SteadyDrops(code))
  {
    forall j: nat {:trigger code'[j]} | j < |code| && code[j] == MAYBE_FINALIZE_JUMP && code'[j] != MAYBE_FINALIZE_JUMP
      ensures j in SteadyDrops(code) <==> code'[j] == FINALIZE_JUMP
    {
      assert SameOrDecided(code, code', j);
      assert !Unsteady(code, j);
    }
  }

  lemma SameSteps(g: Original, text: seq<Byte>, r1: Live, r2: Live)
    requires IsProgram(g) && Steady(g.code) && Sound(g.code, text, g.heights, r1) && Sound(g.code, text, g.heights, r2)
    requires r1.config == r2.config && r1.capacity == r2.capacity && !r1.config.Done?
    ensures LiveStep(text, r1).config == LiveStep(text, r2).config && LiveStep(text, r1).capacity == LiveStep(text, r2).capacity
  {
    LiveStepSound(g.code, text, g.heights, g.flat, r1);
    LiveStepSound(g.code, text, g.heights, g.flat, r2);
    SteadyAgrees(g.code, LiveStep(text, r1).code);
    SteadyAgrees(g.code, LiveStep(text, r2).code);
    SimulatesStep(g.code, text, g.heights, g.flat, r1, SteadyDrops(g.code));
    SimulatesStep(g.code, text, g.heights, g.flat, r2, SteadyDrops(g.code));
    SameLimits(g, text, r1, r2);
  }

  /** Both are at the same limit of the failure stack. */
  lemma SameLimits(g: Original, text: seq<Byte>, r1: Live, r2: Live)
    requires IsProgram(g) && Sound(g.code, text, g.heights, r1) && Sound(g.code, text, g.heights, r2)
    requires r1.config == r2.config && r1.capacity == r2.capacity && !r1.config.Done?
    ensures LiveStep(text, r1).capacity == LiveStep(text, r2).capacity
    ensures LiveStep(text, r1).config == Done(Overflow) <==> LiveStep(text, r2).config == Done(Overflow)
  {
    if r1.config.Running? && r1.config.p < |g.code| {
      var p := r1.config.p;
      assert CommandOk(g.code, 0, |g.code|, |g.code|, g.flat, p);
      CommandKept(g.code, r1.code, p);
      CommandKept(g.code, r2.code, p);
      ByteKept(g.code, r1.code, p);
      ByteKept(g.code, r2.code, p);
      hide Boundary, Rewritten, Finalizes, Unsteady, Reads, MayBecome, Compiled, Balanced, Sound;
      NoOverflowElse(text, r1);
      NoOverflowElse(text, r2);
    }
  }

  /** Only on_failure_jump overflows, and only it and the dummy one enlarge the stack. */
  lemma NoOverflowElse(text: seq<Byte>, r: Live)
    requires r.config.Running? && r.config.d <= |text| && Decodes(r.code, r.config.p)
    ensures var op, full := r.code[r.config.p], 2 * |r.config.stack| == r.capacity;
            && (LiveStep(text, r).config == Done(Overflow) <==> op == ON_FAILURE_JUMP && full && r.capacity > 2 * MAX_FAILURES)
            && LiveStep(text, r).capacity
               == if full && (op == DUMMY_FAILURE_JUMP || (op == ON_FAILURE_JUMP && r.capacity <= 2 * MAX_FAILURES)) then 2 * r.capacity
                  else r.capacity
  {
  }

  lemma {:induction false} SameRuns(g: Original, text: seq<Byte>, r1: Live, r2: Live, steps: nat)
    requires IsProgram(g) && Steady(g.code) && Sound(g.code, text, g.heights, r1) && Sound(g.code, text, g.heights, r2)
    requires r1.config == r2.config && r1.capacity == r2.capacity
    ensures LiveRun(text, r1, steps).config == LiveRun(text, r2, steps).config
    decreases steps
  {
    hide LiveStep, Sound, Steady;
    if steps > 0 && !r1.config.Done? {
      SameSteps(g, text, r1, r2);
      LiveStepSound(g.code, text, g.heights, g.flat, r1);
      LiveStepSound(g.code, text, g.heights, g.flat, r2);
      SameRuns(g, text, LiveStep(text, r1), LiveStep(text, r2), steps - 1);
    }
  }

  /** If an attempt overflows with a program rewritten before, it does with the fresh one. */
  lemma OverflowIsFresh(g: Original, code: seq<Byte>, text: seq<Byte>, pos: nat, code': seq<Byte>)
    requires IsProgram(g) && Steady(g.code) && Rewritten(g.code, code) && pos <= |text|
    requires Attempted(code, text, pos, code', Overflow)
    ensures exists n: nat :: LiveRun(text, Start(g.code, pos), n).config == Done(Overflow)
  {
    var n: nat :| LiveRun(text, Start(code, pos), n).config == Done(Overflow);
    RewrittenRefl(g.code);
    StartSound(g.code, code, text, g.heights, pos);
    StartSound(g.code, g.code, text, g.heights, pos);
    SameRuns(g, text, Start(code, pos), Start(g.code, pos), n);
  }

  /** Without groups it is enough to look at the program as compiled. */
  lemma OverflowOfFresh(e: Alts, text: seq<Byte>, start: nat, range: int)
    requires Trusted(e) && GroupFreeAlts(e) && start <= |text| && 0 <= start + range <= |text|
    requires OverflowInReach(e, text, start, range)
    ensures exists pos: nat, n: nat :: InReach(start, range, pos) && LiveRun(text, Start(AltsCode(e), pos), n).config == Done(Overflow)
  {
    var pos: nat, code, code' :| InReach(start, range, pos) && Rewritten(AltsCode(e), code) && Attempted(code, text, pos, code', Overflow);
    ProgramIs(e);
    GroupFreeIsSteady(e);
    OverflowIsFresh(Program(e), code, text, pos, code');
  }
}
