/** re_compile_fastmap: the characters with which a match can start. */
module RegexFastmap {
  import opened RegexSyntax
  import opened RegexCode
  import opened RegexMachine
  import opened RegexLayout
  import opened RegexMatch
  import C = RegexCorrect

  // ---- What a fastmap promises ----

  /** v has been followed: it leads only into `seen`, or to characters in the map. */
  ghost predicate Followed(code: seq<Byte>, fast: seq<bool>, canBeNull: nat, seen: set<nat>, v: nat)
    requires |fast| == 256
  {
    && Decodes(code, v)
    && var op := code[v];
       if op == ENDLINE then canBeNull == 2 && fast[NEWLINE]
       else if IsTestOp(op) || op == START_MEMORY || op == STOP_MEMORY then v + CommandSize(code, v) in seen
       else if op == ON_FAILURE_JUMP then v + 3 in seen && Target(code, v) in seen
       else if op == EXACTN then fast[code[v + 2]]
       else if IsSingleOp(op) then forall c: Byte :: Accepts(SingleItem(code, v), c) ==> fast[c]
       else false
  }

  ghost predicate AllFollowed(code: seq<Byte>, fast: seq<bool>, canBeNull: nat, visited: set<nat>, seen: set<nat>)
    requires |fast| == 256
  {
    forall v :: v in visited ==> Followed(code, fast, canBeNull, seen, v)
  }

  ghost predicate AllSet(fast: seq<bool>) {
    forall c :: 0 <= c < |fast| ==> fast[c]
  }

  /** canBeNull = 1: the map is not to be used.  Otherwise every path from the start
      that consumes nothing has been followed, or the map excludes nothing. */
  ghost predicate MapSound(code: seq<Byte>, fast: seq<bool>, canBeNull: nat) {
    && |fast| == 256
    && (canBeNull == 1 || (canBeNull == 2 && AllSet(fast))
        || exists visited: set<nat> :: 0 in visited && AllFollowed(code, fast, canBeNull, visited, visited))
  }

  // ---- Why that is enough ----

  /** Nothing consumed so far, and nothing but followed commands to go on with. */
  ghost predicate StuckAt(visited: set<nat>, d: nat, c: Config) {
    match c
    case Running(p, d', stack) => p in visited && d' == d && StackStuckAt(visited, d, stack)
    case Failing(stack) => StackStuckAt(visited, d, stack)
    case Done(o) => o == NoMatch
  }

  ghost predicate StackStuckAt(visited: set<nat>, d: nat, stack: seq<Point>) {
    forall i :: 0 <= i < |stack| ==> stack[i].Point? && stack[i].p in visited && stack[i].d == d
  }

  /** No match can start on a character outside the map, nor at the end of the text
      if the program cannot match the empty string. */
  ghost predicate Hopeless(fast: seq<bool>, canBeNull: nat, s: seq<Byte>, d: nat) {
    |fast| == 256 && d <= |s| && canBeNull != 1 && if d < |s| then !fast[s[d]] else canBeNull == 0
  }

  lemma StuckStep(m: Machine, fast: seq<bool>, canBeNull: nat, visited: set<nat>, d: nat, c: Config)
    requires |fast| == 256 && AllFollowed(m.code, fast, canBeNull, visited, visited)
    requires Hopeless(fast, canBeNull, m.text, d) && StuckAt(visited, d, c) && !c.Done?
    ensures StuckAt(visited, d, Step(m, c))
  {
    if c.Running? {
      assert Followed(m.code, fast, canBeNull, visited, c.p);
      if m.code[c.p] == EXACTN && d < |m.text| {
        var n := m.code[c.p + 1];
        if d + n <= |m.text| {
          assert m.text[d..d + n][0] == m.text[d] && m.code[c.p + 2..c.p + 2 + n][0] == m.code[c.p + 2];
        }
      }
    }
  }

  lemma {:induction false} StuckRun(m: Machine, fast: seq<bool>, canBeNull: nat, visited: set<nat>, d: nat, c: Config, steps: nat)
    requires |fast| == 256 && AllFollowed(m.code, fast, canBeNull, visited, visited)
    requires Hopeless(fast, canBeNull, m.text, d) && StuckAt(visited, d, c)
    ensures StuckAt(visited, d, Run(m, c, steps))
    decreases steps
  {
    hide Step, StuckAt, AllFollowed, Hopeless;
    if steps > 0 && !c.Done? {
      StuckStep(m, fast, canBeNull, visited, d, c);
      StuckRun(m, fast, canBeNull, visited, d, Step(m, c), steps - 1);
    }
  }

  /** The fastmap may be believed, whatever the program. */
  lemma HopelessFails(m: Machine, fast: seq<bool>, canBeNull: nat, d: nat, r: Outcome)
    requires MapSound(m.code, fast, canBeNull) && Hopeless(fast, canBeNull, m.text, d)
    requires Evals(m, Running(0, d, []), r)
    ensures r == NoMatch
  {
    var visited :| 0 in visited && AllFollowed(m.code, fast, canBeNull, visited, visited);
    var steps: nat :| Run(m, Running(0, d, []), steps) == Done(r);
    StuckRun(m, fast, canBeNull, visited, d, Running(0, d, []), steps);
  }

  /** The matcher that rewrites its program fares alike at such a position, and rewrites
      nothing there. */
  lemma StuckLive(original: seq<Byte>, flat: bool, fast: seq<bool>, canBeNull: nat, visited: set<nat>, text: seq<Byte>, d: nat, r: Live)
    requires Compiled(original, flat) && Rewritten(original, r.code) && OnBoundaries(original, text, r.config)
    requires |fast| == 256 && AllFollowed(original, fast, canBeNull, visited, visited)
    requires Hopeless(fast, canBeNull, text, d) && StuckAt(visited, d, r.config) && !r.config.Done?
    ensures var r' := LiveStep(text, r);
            && r'.code == r.code
            && (r'.config == Done(Overflow) || (StuckAt(visited, d, r'.config) && OnBoundaries(original, text, r'.config)))
  {
    var m := Machine(original, text, {});
    StuckStep(m, fast, canBeNull, visited, d, r.config);
    StaysOnBoundaries(original, text, {}, flat, r.config);
    if r.config.Running? {
      var p, stack := r.config.p, r.config.stack;
      assert Followed(original, fast, canBeNull, visited, p);
      CommandKept(original, r.code, p);
      hide Followed, AllFollowed, Boundary, Rewritten, StuckAt;
      StepKept(original, r.code, text, {}, p, d, stack);
    }
  }

  lemma {:induction false} StuckLiveRun(original: seq<Byte>, flat: bool, fast: seq<bool>, canBeNull: nat, visited: set<nat>, text: seq<Byte>, d: nat, r: Live, steps: nat)
    requires Compiled(original, flat) && Rewritten(original, r.code) && OnBoundaries(original, text, r.config)
    requires |fast| == 256 && AllFollowed(original, fast, canBeNull, visited, visited)
    requires Hopeless(fast, canBeNull, text, d) && StuckAt(visited, d, r.config)
    ensures var r' := LiveRun(text, r, steps);
            r'.code == r.code && (r'.config == Done(Overflow) || StuckAt(visited, d, r'.config))
    decreases steps
  {
    hide LiveStep, AllFollowed, Hopeless, Rewritten, Compiled, Boundary;
    if steps > 0 && !r.config.Done? {
      StuckLive(original, flat, fast, canBeNull, visited, text, d, r);
      var r' := LiveStep(text, r);
      if r'.config != Done(Overflow) {
        StuckLiveRun(original, flat, fast, canBeNull, visited, text, d, r', steps - 1);
      }
    }
  }

  /** An attempt at a hopeless position fails, if the stack suffices, and leaves the
      program as it was. */
  lemma HopelessAttempt(original: seq<Byte>, flat: bool, code: seq<Byte>, fast: seq<bool>, canBeNull: nat, text: seq<Byte>, d: nat, steps: nat)
    requires Compiled(original, flat) && Rewritten(original, code)
    requires MapSound(original, fast, canBeNull) && Hopeless(fast, canBeNull, text, d)
    requires LiveRun(text, Start(code, d), steps).config.Done?
    ensures var r := LiveRun(text, Start(code, d), steps);
            r.code == code && (r.config == Done(NoMatch) || r.config == Done(Overflow))
  {
    var visited :| 0 in visited && AllFollowed(original, fast, canBeNull, visited, visited);
    StuckLiveRun(original, flat, fast, canBeNull, visited, text, d, Start(code, d), steps);
  }

  // ---- Measure of the traversal ----

  function Weight(used: nat, p: nat): nat {
    if p <= used then Pow2(used - p) else 0
  }

  function TotalWeight(used: nat, stack: seq<nat>): nat {
    if stack == [] then 0 else TotalWeight(used, stack[..|stack| - 1]) + Weight(used, stack[|stack| - 1])
  }

  lemma WeightShrinks(used: nat, p: nat, q: nat)
    requires p < q <= used
    ensures 0 < Weight(used, q) && 2 * Weight(used, q) <= Weight(used, p)
  {
    Pow2Grows(used - q, used - p);
  }

  lemma WeightPush(used: nat, stack: seq<nat>, q: nat)
    ensures TotalWeight(used, stack + [q]) == TotalWeight(used, stack) + Weight(used, q)
  {
    assert (stack + [q])[..|stack|] == stack;
  }

  ghost function Elements(stack: seq<nat>): set<nat> {
    set x | x in stack
  }

  // ---- re_compile_fastmap ----

  /** One command of the traversal; see CompileFastmap. */
  ghost predicate Traversed(original: seq<Byte>, fast: seq<bool>, canBeNull: nat, visited: set<nat>, pending: set<nat>)
    requires |fast| == 256
  {
    canBeNull == 1 || (0 in visited + pending && AllFollowed(original, fast, canBeNull, visited, visited + pending))
  }

  /** More characters in the map and more commands seen keep what was established. */
  lemma FollowedGrows(code: seq<Byte>, fast: seq<bool>, fast': seq<bool>, canBeNull: nat, canBeNull': nat, visited: set<nat>, seen: set<nat>, seen': set<nat>)
    requires |fast| == |fast'| == 256 && AllFollowed(code, fast, canBeNull, visited, seen) && seen <= seen'
    requires forall c :: 0 <= c < 256 && fast[c] ==> fast'[c]
    requires canBeNull' == canBeNull || canBeNull' == 2
    ensures AllFollowed(code, fast', canBeNull', visited, seen')
  {
    forall v | v in visited ensures Followed(code, fast', canBeNull', seen', v) {
      assert Followed(code, fast, canBeNull, seen, v);
    }
  }

  /** Adds the characters with which the consuming command at p can start. */
  method MarkStart(code: array<Byte>, used: nat, p: nat, fast: array<bool>)
    requires used <= code.Length && Decodes(code[..used], p) && fast.Length == 256
    requires code[p] == EXACTN || IsSingleOp(code[p])
    modifies fast
    ensures forall c :: 0 <= c < 256 && old(fast[c]) ==> fast[c]
    ensures code[p] == EXACTN ==> fast[code[p + 2]]
    ensures IsSingleOp(code[p]) ==> forall c: Byte :: fast[c] == (old(fast[c]) || Accepts(SingleItem(code[..used], p), c))
  {
    if code[p] == EXACTN {
      fast[code[p + 2]] := true;
    } else {
      var item := SingleItem(code[..used], p);
      for j := 0 to 256
        invariant forall c: Byte :: c < j ==> fast[c] == (old(fast[c]) || Accepts(item, c))
        invariant forall c: Byte :: j <= c ==> fast[c] == old(fast[c])
      {
        var c: Byte := j;
        if Accepts(item, c) {
          fast[c] := true;
        }
      }
    }
  }

  /** Where the traversal stands: everything pending is a start of a command. */
  ghost predicate PendingOk(original: seq<Byte>, p: nat, stack: seq<nat>) {
    && Boundary(original, 0, p) && p <= |original|
    && forall x :: x in stack ==> Boundary(original, 0, x) && x <= |original|
  }

  /** A command that passes control on without consuming: a test, a memory command
      or an on_failure_jump, both ways of which have to be followed. */
  method PassOn(code: array<Byte>, used: nat, p: nat, stack: seq<nat>, ghost original: seq<Byte>, ghost flat: bool,
                ghost fast: seq<bool>, ghost canBeNull: nat, ghost visited: set<nat>)
    returns (p': nat, stack': seq<nat>)
    requires used <= code.Length && Compiled(original, flat) && Rewritten(original, code[..used])
    requires p < used && PendingOk(original, p, stack) && |fast| == 256
    requires (IsTestOp(code[p]) && code[p] != ENDLINE) || code[p] in {START_MEMORY, STOP_MEMORY, ON_FAILURE_JUMP}
    requires Traversed(original, fast, canBeNull, visited, Elements(stack) + {p})
    ensures PendingOk(original, p', stack')
    ensures Traversed(original, fast, canBeNull, visited + {p}, Elements(stack') + {p'})
    ensures Weight(used, p') + TotalWeight(used, stack') < Weight(used, p) + TotalWeight(used, stack)
  {
    hide Traversed, Elements;
    assert CommandOk(original, 0, used, used, flat, p);
    CommandKept(original, code[..used], p);
    BoundaryNext(original, 0, p);
    stack' := stack;
    if code[p] == ON_FAILURE_JUMP {
      p' := p + 3;
      stack' := stack + [p + 3 + DecodeOffset(code[p + 1], code[p + 2])];
      PushOne(original, used, fast, canBeNull, visited, stack, stack', p);
    } else {
      p' := p + if code[p] == START_MEMORY || code[p] == STOP_MEMORY then 2 else 1;
      WeightShrinks(used, p, p');
      Continues(original, fast, canBeNull, visited, Elements(stack), p, {p'});
    }
  }

  /** A command that ends a path: endline, or one that consumes.  Once a path can end
      at endline, a path that starts with any character completes the map. */
  method EndPath(code: array<Byte>, used: nat, p: nat, fast: array<bool>, canBeNull: nat,
                 ghost original: seq<Byte>, ghost visited: set<nat>, ghost rest: set<nat>)
    returns (canBeNull': nat, complete: bool)
    requires used <= code.Length && fast.Length == 256 && Rewritten(original, code[..used])
    requires Boundary(original, 0, p) && Decodes(original, p)
    requires original[p] == ENDLINE || original[p] == EXACTN || IsSingleOp(original[p])
    requires canBeNull <= 2 && (canBeNull == 2 ==> fast[NEWLINE])
    requires Traversed(original, fast[..], canBeNull, visited, rest + {p})
    modifies fast
    ensures canBeNull' <= 2 && (canBeNull' == 2 ==> fast[NEWLINE])
    ensures complete ==> MapSound(original, fast[..], canBeNull')
    ensures Traversed(original, fast[..], canBeNull', visited + {p}, rest)
  {
    CommandKept(original, code[..used], p);
    ghost var before := fast[..];
    canBeNull', complete := canBeNull, false;
    if code[p] == ENDLINE {
      fast[NEWLINE] := true;
      canBeNull' := if canBeNull == 1 then 1 else 2;
    } else {
      SameStart(original, code[..used], p);
      MarkStart(code, used, p, fast);
      if code[p] == ANYCHAR && canBeNull != 0 {
        assert SingleItem(code[..used], p) == Any;
        complete := true;
      }
    }
    PathEnds(original, before, fast[..], canBeNull, canBeNull', visited, rest, p);
  }

  lemma SameStart(code: seq<Byte>, code': seq<Byte>, p: nat)
    requires Rewritten(code, code') && Boundary(code, 0, p) && Decodes(code, p)
    requires code[p] == EXACTN || IsSingleOp(code[p])
    ensures Decodes(code', p) && code'[p] == code[p]
    ensures code[p] == EXACTN ==> code'[p + 2] == code[p + 2]
    ensures IsSingleOp(code[p]) ==> SingleItem(code', p) == SingleItem(code, p)
  {
    CommandKept(code, code', p);
    if code[p] == EXACTN {
      assert code'[p + 2] == code[p + 2];
    }
    if code[p] == CHARSET || code[p] == CHARSET_NOT {
      SameOperands(code, code', p, CommandSize(code, p));
    }
  }

  /** The program ends in a jump to its own end. */
  ghost predicate EndsInJump(original: seq<Byte>) {
    && 3 <= |original| && Boundary(original, 0, |original| - 3)
    && Decodes(original, |original| - 3) && IsJumpOp(original[|original| - 3])
    && original[|original| - 3] != ON_FAILURE_JUMP && Target(original, |original| - 3) == |original|
  }

  /** Where the traversal goes from the jump at p.  A jump that does not lead forward is
      taken for the end of a loop: if it leads to an on_failure_jump, the traversal goes
      on where that one leads. */
  function FollowedTo(buffer: seq<Byte>, p: nat): int
    requires p + 3 <= |buffer|
  {
    var t := Target(buffer, p);
    if t > p + 3 || !(0 <= t < |buffer|) || buffer[t] != ON_FAILURE_JUMP || t + 3 > |buffer| then t else Target(buffer, t)
  }

  /** So the byte behind a program that ends in a jump to its end is read: the traversal
      comes to the end just when that byte is no on_failure_jump, or one that leads back to
      itself. */
  lemma ByteBehindEnd(buffer: seq<Byte>, p: nat)
    requires p + 6 <= |buffer| && Target(buffer, p) == p + 3
    ensures FollowedTo(buffer, p) == p + 3
       <==> buffer[p + 3] != ON_FAILURE_JUMP || DecodeOffset(buffer[p + 4], buffer[p + 5]) == -3
  {
  }

  /** The byte behind the program does not matter, or is harmless. */
  ghost predicate EndHarmless(original: seq<Byte>, buffer: seq<Byte>) {
    var n := |original|;
    && n < |buffer|
    && (EndsInJump(original) ==>
          || buffer[n] != ON_FAILURE_JUMP
          || (n + 3 <= |buffer| && DecodeOffset(buffer[n + 1], buffer[n + 2]) == -3))
  }

  /** Harmless is what keeps the traversal from leaving the program. */
  lemma HarmlessIsFollowed(original: seq<Byte>, buffer: seq<Byte>)
    requires original <= buffer && |original| + 3 <= |buffer|
    ensures EndHarmless(original, buffer)
       <==> (EndsInJump(original) ==> FollowedTo(buffer, |original| - 3) == |original|)
  {
    if EndsInJump(original) {
      ByteBehindEnd(buffer, |original| - 3);
    }
  }

  /** Computes the map of a compiled program, rewritten or not. */
  method CompileFastmap(code: array<Byte>, used: nat, fast: array<bool>, ghost original: seq<Byte>, ghost flat: bool)
    returns (canBeNull: nat)
    requires used < code.Length && used == |original| && EndHarmless(original, code[..]) && fast.Length == 256
    requires Compiled(original, flat) && Rewritten(original, code[..used])
    modifies fast
    ensures MapSound(original, fast[..], canBeNull)
  {
    for j := 0 to 256 {
      fast[j] := false;
    }
    canBeNull := 0;
    var p: nat, stack: seq<nat> := 0, [];
    ghost var visited: set<nat> := {};
    while true
      invariant PendingOk(original, p, stack)
      invariant canBeNull <= 2 && (canBeNull == 2 ==> fast[NEWLINE])
      invariant Traversed(original, fast[..], canBeNull, visited, Elements(stack) + {p})
      decreases Weight(used, p) + TotalWeight(used, stack)
    {
      if p == used {
        canBeNull := 1;
        return;
      }
      hide PendingOk, Traversed, Weight, TotalWeight, Compiled, Rewritten, MapSound, Elements;
      var done;
      p, stack, canBeNull, done, visited := StepPath(code, used, p, stack, fast, canBeNull, original, flat, visited);
      if done {
        return;
      }
    }
  }

  /** Goes on by one command, to the next path at the end of one. */
  method StepPath(code: array<Byte>, used: nat, p0: nat, stack0: seq<nat>, fast: array<bool>, canBeNull0: nat,
                  ghost original: seq<Byte>, ghost flat: bool, ghost visited0: set<nat>)
    returns (p: nat, stack: seq<nat>, canBeNull: nat, done: bool, ghost visited: set<nat>)
    requires used < code.Length && used == |original| && EndHarmless(original, code[..]) && fast.Length == 256
    requires Compiled(original, flat) && Rewritten(original, code[..used])
    requires PendingOk(original, p0, stack0) && p0 != used
    requires canBeNull0 <= 2 && (canBeNull0 == 2 ==> fast[NEWLINE])
    requires Traversed(original, fast[..], canBeNull0, visited0, Elements(stack0) + {p0})
    modifies fast
    ensures canBeNull <= 2 && (canBeNull == 2 ==> fast[NEWLINE])
    ensures done ==> MapSound(original, fast[..], canBeNull)
    ensures !done ==> PendingOk(original, p, stack)
    ensures !done ==> Traversed(original, fast[..], canBeNull, visited, Elements(stack) + {p})
    ensures !done ==> Weight(used, p) + TotalWeight(used, stack) < Weight(used, p0) + TotalWeight(used, stack0)
  {
    p, stack, canBeNull, done, visited := p0, stack0, canBeNull0, false, visited0;
    assert CommandOk(original, 0, used, used, flat, p);
    CommandKept(original, code[..used], p);
    hide Rewritten, Compiled, EndHarmless, Followed, AllFollowed, MapSound, PendingOk, Elements, Weight, TotalWeight;
    var op := code[p];
    if (IsTestOp(op) && op != ENDLINE) || op == START_MEMORY || op == STOP_MEMORY || op == ON_FAILURE_JUMP {
      p, stack := PassOn(code, used, p, stack, original, flat, fast[..], canBeNull, visited);
      visited := visited + {p0};
    } else if IsJumpOp(op) {
      canBeNull := 1;
      p, stack := FollowJump(code, used, p, stack, original, flat);
    } else {
      canBeNull, done := EndPath(code, used, p, fast, canBeNull, original, visited, Elements(stack));
      visited := visited + {p0};
      if !done && stack == [] {
        NothingLeft(stack);
        AllSeen(original, fast[..], canBeNull, visited);
        done := true;
        return;
      }
      if !done {
        Popped(original, used, p0, stack0);
        p, stack := stack[|stack| - 1], stack[..|stack| - 1];
      }
    }
  }

  lemma NothingLeft(stack: seq<nat>)
    requires stack == []
    ensures Elements(stack) == {}
  {
  }

  /** When nothing is pending the map is sound. */
  lemma AllSeen(original: seq<Byte>, fast: seq<bool>, canBeNull: nat, visited: set<nat>)
    requires |fast| == 256 && Traversed(original, fast, canBeNull, visited, {})
    ensures MapSound(original, fast, canBeNull)
  {
    hide Followed;
    assert visited + {} == visited;
  }

  lemma {:induction false} WeightPositive(used: nat, p: nat)
    requires p <= used
    ensures 0 < Weight(used, p)
    decreases used - p
  {
    if p < used {
      WeightPositive(used, p + 1);
    }
  }

  lemma Popped(original: seq<Byte>, used: nat, p: nat, stack: seq<nat>)
    requires PendingOk(original, p, stack) && stack != [] && p <= used
    ensures PendingOk(original, stack[|stack| - 1], stack[..|stack| - 1])
    ensures Elements(stack) == Elements(stack[..|stack| - 1]) + {stack[|stack| - 1]}
    ensures Weight(used, stack[|stack| - 1]) + TotalWeight(used, stack[..|stack| - 1]) < Weight(used, p) + TotalWeight(used, stack)
  {
    var rest := stack[..|stack| - 1];
    assert stack == rest + [stack[|stack| - 1]];
    forall x | x in rest ensures Boundary(original, 0, x) && x <= |original| {
      assert x in stack;
    }
    WeightPositive(used, p);
  }

  lemma Continues(code: seq<Byte>, fast: seq<bool>, canBeNull: nat, visited: set<nat>, rest: set<nat>, p: nat, next: set<nat>)
    requires |fast| == 256 && Traversed(code, fast, canBeNull, visited, rest + {p})
    requires canBeNull != 1 ==> Followed(code, fast, canBeNull, visited + {p} + rest + next, p)
    ensures Traversed(code, fast, canBeNull, visited + {p}, rest + next)
  {
    if canBeNull != 1 {
      var seen := visited + {p} + (rest + next);
      FollowedGrows(code, fast, fast, canBeNull, canBeNull, visited, visited + (rest + {p}), seen);
      assert visited + {p} + rest + next == seen;
    }
  }

  lemma PushOne(code: seq<Byte>, used: nat, fast: seq<bool>, canBeNull: nat, visited: set<nat>, stack: seq<nat>, stack': seq<nat>, p: nat)
    requires |fast| == 256 && Traversed(code, fast, canBeNull, visited, Elements(stack) + {p})
    requires Decodes(code, p) && code[p] == ON_FAILURE_JUMP && p + 3 <= Target(code, p) <= used
    requires stack' == stack + [Target(code, p)]
    ensures Traversed(code, fast, canBeNull, visited + {p}, Elements(stack') + {p + 3})
    ensures Weight(used, p + 3) + TotalWeight(used, stack') < Weight(used, p) + TotalWeight(used, stack)
  {
    var t := Target(code, p);
    Continues(code, fast, canBeNull, visited, Elements(stack), p, {t, p + 3});
    assert Elements(stack') + {p + 3} == Elements(stack) + {t, p + 3};
    WeightPush(used, stack, t);
    WeightShrinks(used, p, p + 1);
    WeightShrinks(used, p + 1, p + 2);
    WeightShrinks(used, p + 2, p + 3);
    if p + 3 < t {
      WeightShrinks(used, p + 3, t);
    }
  }

  lemma PathEnds(code: seq<Byte>, fast: seq<bool>, fast': seq<bool>, canBeNull: nat, canBeNull': nat, visited: set<nat>, rest: set<nat>, p: nat)
    requires |fast| == |fast'| == 256 && Traversed(code, fast, canBeNull, visited, rest + {p})
    requires forall c :: 0 <= c < 256 && fast[c] ==> fast'[c]
    requires canBeNull == 1 ==> canBeNull' == 1
    requires canBeNull != 1 ==> (canBeNull' == canBeNull || canBeNull' == 2) && Followed(code, fast', canBeNull', {}, p)
    ensures Traversed(code, fast', canBeNull', visited + {p}, rest)
  {
    if canBeNull' != 1 {
      FollowedGrows(code, fast, fast', canBeNull, canBeNull', visited, visited + (rest + {p}), visited + {p} + rest);
      FollowedGrows(code, fast', fast', canBeNull', canBeNull', {p}, {}, visited + {p} + rest);
    }
  }

  /** What is harmless behind a program that ends in a jump to its end leads to itself. */
  lemma BackToItself(original: seq<Byte>, buffer: seq<Byte>, p: nat)
    requires EndHarmless(original, buffer) && Boundary(original, 0, p) && p + 3 == |original| && Decodes(original, p)
    requires IsJumpOp(original[p]) && original[p] != ON_FAILURE_JUMP && Target(original, p) == |original|
    requires buffer[|original|] == ON_FAILURE_JUMP
    ensures |original| + 3 <= |buffer| && DecodeOffset(buffer[|original| + 1], buffer[|original| + 2]) == -3
  {
  }

  /** A jump; one that leads back is replaced by the exit of the loop it leads to,
      and a failure point for that exit is discarded. */
  method FollowJump(code: array<Byte>, used: nat, p: nat, stack: seq<nat>, ghost original: seq<Byte>, ghost flat: bool)
    returns (p': nat, stack': seq<nat>)
    requires used < code.Length && used == |original| && EndHarmless(original, code[..])
    requires Compiled(original, flat) && Rewritten(original, code[..used])
    requires PendingOk(original, p, stack) && p < used && IsJumpOp(original[p]) && original[p] != ON_FAILURE_JUMP
    ensures p + 3 <= used && p' == FollowedTo(code[..], p) && PendingOk(original, p', stack')
    ensures Weight(used, p') + TotalWeight(used, stack') < Weight(used, p) + TotalWeight(used, stack)
  {
    assert CommandOk(original, 0, used, used, flat, p);
    CommandKept(original, code[..used], p);
    hide Rewritten, EndHarmless, Weight, TotalWeight;
    var j := DecodeOffset(code[p + 1], code[p + 2]);
    assert p + 3 + j == Target(original, p);
    p', stack' := p + 3 + j, stack;
    if j > 0 || code[p'] != ON_FAILURE_JUMP {
      if p' < used {
        assert CommandOk(original, 0, used, used, flat, p');
        CommandKept(original, code[..used], p');
      }
      WeightShrinks(used, p, p');
      return;
    }
    if p' == used {
      BackToItself(original, code[..], p);
    } else {
      assert CommandOk(original, 0, used, used, flat, p');
      CommandKept(original, code[..used], p');
    }
    p' := p' + 3 + DecodeOffset(code[p' + 1], code[p' + 2]);
    WeightShrinks(used, p, p');
    if stack != [] && stack[|stack| - 1] == p' {
      Popped(original, used, p, stack);
      stack' := stack[..|stack| - 1];
    }
  }
}
