/** The end positions a matcher tries are exactly those the language allows, and
    compiled programs find the first of them. */
module RegexLanguage {
  import opened RegexSyntax
  import opened RegexCode
  import opened RegexDrops
  import opened RegexMachine
  import C = RegexCorrect

  // ---- Matches enumerates Lang ----

  predicate ItemLeads(e: Item, s: seq<Byte>, m: nat, j: nat) {
    m <= |s| && j in MatchesItem(e, s, m)
  }

  lemma {:induction false} MatchesIsLang(e: Seq, s: seq<Byte>, d: nat, j: nat)
    requires WellFormed(e) && ProperLoops(e) && d <= |s|
    ensures j in Matches(e, s, d) <==> Lang(e, s, d, j)
    decreases e, 0, 0, 0
  {
    match e
    case Nil =>
    case Snoc(init, last) =>
      var ends := Matches(init, s, d);
      ThenItemIs(last, s, d, ends, j);
      if j in Matches(e, s, d) {
        var m: nat :| m in ends && ItemLeads(last, s, m, j);
        MatchesIsLang(init, s, d, m);
        MatchesItemIsLang(last, s, m, j);
        assert Cut(d, m, j) && Lang(init, s, d, m) && LangItem(last, s, m, j);
      }
      if Lang(e, s, d, j) {
        var m: nat :| Cut(d, m, j) && Lang(init, s, d, m) && LangItem(last, s, m, j);
        MatchesIsLang(init, s, d, m);
        MatchesItemIsLang(last, s, m, j);
        assert ItemLeads(last, s, m, j);
      }
  }

  lemma {:induction false} ThenItemIs(e: Item, s: seq<Byte>, d: nat, ends: seq<nat>, j: nat)
    requires d <= |s| && Within(ends, d, |s|)
    ensures j in ThenItem(e, s, d, ends) <==> exists m: nat :: m in ends && ItemLeads(e, s, m, j)
    decreases |ends|
  {
    if ends != [] {
      ThenItemIs(e, s, d, ends[1..], j);
      assert forall m: nat :: m in ends <==> m == ends[0] || m in ends[1..];
      assert ItemLeads(e, s, ends[0], j) <==> j in MatchesItem(e, s, ends[0]);
    }
  }

  lemma {:induction false} MatchesItemIsLang(e: Item, s: seq<Byte>, d: nat, j: nat)
    requires WellFormedItem(e) && ProperLoopsItem(e) && d <= |s|
    ensures j in MatchesItem(e, s, d) <==> LangItem(e, s, d, j)
    decreases e, 0, 0, 0
  {
    if e.Group? {
      MatchesAltsIsLang(e.alts, s, d, j);
    } else if e.Repeat? {
      if e.many {
        LoopIsLang(e.body, s, d, j);
      } else {
        MatchesIsLang(e.body, s, d, j);
      }
    } else if e.Chars? && LangItem(e, s, d, j) {
      assert j == d + |e.chars|;
    }
  }

  lemma {:induction false} LoopIsLang(body: Seq, s: seq<Byte>, d: nat, j: nat)
    requires WellFormed(body) && ProperLoops(body) && !Nullable(body) && d <= |s|
    ensures j in C.LoopEnds(body, s, d) <==> LangLoop(body, s, d, j)
    decreases body, 1, |s| - d, 0
  {
    var ends := Matches(body, s, d);
    C.MoreThanStart(body, s, d);
    ThenLoopIs(body, s, d, ends, j);
    if j in C.LoopEnds(body, s, d) {
      var m: nat :| m in ends && LoopLeads(body, s, m, j);
      MatchesIsLang(body, s, d, m);
      if j != m {
        LoopIsLang(body, s, m, j);
        assert Cut(d, m, j) && Lang(body, s, d, m) && LangLoop(body, s, m, j);
      }
    }
    if LangLoop(body, s, d, j) {
      MatchesIsLang(body, s, d, j);
      if Lang(body, s, d, j) {
        assert LoopLeads(body, s, j, j);
      } else {
        var m: nat :| Cut(d, m, j) && d < m && Lang(body, s, d, m) && LangLoop(body, s, m, j);
        MatchesIsLang(body, s, d, m);
        LoopIsLang(body, s, m, j);
        assert LoopLeads(body, s, m, j);
      }
    }
  }

  predicate LoopLeads(body: Seq, s: seq<Byte>, m: nat, j: nat) {
    m <= |s| && (j == m || j in C.LoopEnds(body, s, m))
  }

  lemma {:induction false} ThenLoopIs(body: Seq, s: seq<Byte>, d: nat, ends: seq<nat>, j: nat)
    requires d <= |s| && Within(ends, d + 1, |s|)
    ensures j in ThenLoop(body, s, d, ends) <==> exists m: nat :: m in ends && LoopLeads(body, s, m, j)
    decreases |ends|
  {
    if ends != [] {
      ThenLoopIs(body, s, d, ends[1..], j);
      assert forall m: nat :: m in ends <==> m == ends[0] || m in ends[1..];
      assert LoopLeads(body, s, ends[0], j) <==> j in C.LoopEnds(body, s, ends[0]) + [ends[0]];
    }
  }

  lemma {:induction false} MatchesAltsIsLang(e: Alts, s: seq<Byte>, d: nat, j: nat)
    requires WellFormedAlts(e) && ProperLoopsAlts(e) && d <= |s|
    ensures j in MatchesAlts(e, s, d) <==> LangAlts(e, s, d, j)
    decreases e, 0, 0, 0
  {
    match e
    case One(only) => MatchesIsLang(only, s, d, j);
    case More(others, final) =>
      MatchesAltsIsLang(others, s, d, j);
      MatchesIsLang(final, s, d, j);
  }

  // ---- Whole programs ----

  /** What matching at d has to report: the first end position, if there is one. */
  function Expected(e: Alts, s: seq<Byte>, d: nat): Outcome
    requires d <= |s|
  {
    var ends := MatchesAlts(e, s, d);
    if ends == [] then NoMatch else Match(ends[0])
  }

  lemma ExpectedIsLang(e: Alts, s: seq<Byte>, d: nat)
    requires WellFormedAlts(e) && ProperLoopsAlts(e) && d <= |s|
    ensures Expected(e, s, d) == NoMatch <==> forall j: nat :: !LangAlts(e, s, d, j)
    ensures Expected(e, s, d).Match? ==> LangAlts(e, s, d, Expected(e, s, d).end)
  {
    var ends := MatchesAlts(e, s, d);
    if ends == [] {
      forall j: nat ensures !LangAlts(e, s, d, j) {
        MatchesAltsIsLang(e, s, d, j);
      }
    } else {
      MatchesAltsIsLang(e, s, d, ends[0]);
    }
  }

  lemma ExpectedNoCrash(e: Alts, s: seq<Byte>, d: nat)
    requires d <= |s|
    ensures Expected(e, s, d) == NoMatch || (Expected(e, s, d).Match? && d <= Expected(e, s, d).end <= |s|)
  {
  }

  /** Every run of a compiled program stops, at the first end position in order,
      whichever of the legal drops are made. */
  lemma ProgramRuns(e: Alts, s: seq<Byte>, d: nat, drops: set<nat>)
    requires WellFormedAlts(e) && ProperLoopsAlts(e) && |AltsCode(e)| <= MAX_CODE && d <= |s|
    requires AllLegal(AltsCode(e), drops)
    ensures Evals(Machine(AltsCode(e), s, drops), Running(0, d, []), Expected(e, s, d))
  {
    var m := Machine(AltsCode(e), s, drops);
    var sys, b := C.System(m), |AltsCode(e)|;
    C.SystemIsLawful(m);
    var k: C.Cont := (j: nat, r: Outcome) => Match(j);
    forall j: nat, st: seq<Point>, r: Outcome {:trigger C.ContAt(sys, b, k, j, st, r)} | d <= j <= |s|
      ensures C.ContAt(sys, b, k, j, st, r)
    {
      C.EvalsDone(sys, Match(j));
      C.EvalsStep(sys, Running(b, j, st), Match(j));
    }
    C.EvalsDone(sys, NoMatch);
    C.EvalsStep(sys, Failing([]), NoMatch);
    AtSlice(m.code, 0, m.code);
    C.AltsRuns(sys, e, 0, d, d, [], k, NoMatch);
  }

  /** So legal drops never change what is found. */
  lemma DroppingChangesNothing(e: Alts, s: seq<Byte>, d: nat, drops: set<nat>, r: Outcome)
    requires WellFormedAlts(e) && ProperLoopsAlts(e) && |AltsCode(e)| <= MAX_CODE && d <= |s|
    requires AllLegal(AltsCode(e), drops)
    ensures Evals(Machine(AltsCode(e), s, drops), Running(0, d, []), r)
       <==> Evals(Machine(AltsCode(e), s, {}), Running(0, d, []), r)
  {
    ProgramRuns(e, s, d, drops);
    ProgramRuns(e, s, d, {});
    var found := Expected(e, s, d);
    if Evals(Machine(AltsCode(e), s, drops), Running(0, d, []), r) {
      EvalsUnique(Machine(AltsCode(e), s, drops), Running(0, d, []), r, found);
    }
    if Evals(Machine(AltsCode(e), s, {}), Running(0, d, []), r) {
      EvalsUnique(Machine(AltsCode(e), s, {}), Running(0, d, []), r, found);
    }
  }
}
