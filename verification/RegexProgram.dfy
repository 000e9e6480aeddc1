/** Compiling a pattern and searching a text for it, put together. */
module RegexProgram {
  import opened RegexSyntax
  import opened RegexCode
  import opened RegexDrops
  import opened RegexMachine
  import opened RegexMatch
  import opened RegexParse
  import opened RegexFastmap
  import opened RegexSearch
  import opened RegexFind
  import C = RegexCompile
  import L = RegexLanguage

  /** The search specified, of the pattern's program with no map or a sound one, returns this. */
  ghost predicate Returned(e: Alts, text: seq<Byte>, start: nat, range: int, found: int)
    requires WellFormedAlts(e) && start <= |text| && 0 <= start + range <= |text|
  {
    exists fm: FastMap, code': seq<Byte> {:trigger Searches(fm, AltsCode(e), text, start, range, code', found)} ::
      && (fm.Map? ==> MapSound(AltsCode(e), fm.fast, fm.canBeNull))
      && Searches(fm, AltsCode(e), text, start, range, code', found)
  }

  /** What searching a pattern with a safe program may return. */
  ghost predicate Answers(e: Alts, text: seq<Byte>, start: nat, range: int, found: int)
    requires WellFormedAlts(e)
  {
    if found == -2 then OverflowInReach(e, text, start, range) else FoundFirst(e, text, start, range, found)
  }

  lemma Concludes(e: Alts, fm: FastMap, text: seq<Byte>, start: nat, range: int, code': seq<Byte>, found: int)
    requires WellFormedAlts(e) && ProperLoopsAlts(e) && |AltsCode(e)| <= MAX_CODE
    requires start <= |text| && 0 <= start + range <= |text| && (fm.Map? ==> MapSound(AltsCode(e), fm.fast, fm.canBeNull))
    requires Searches(fm, AltsCode(e), text, start, range, code', found)
    ensures Returned(e, text, start, range, found)
    ensures SafeProgram(AltsCode(e)) ==> Answers(e, text, start, range, found)
  {
    hide Searches, MapSound, SafeProgram, OverflowInReach;
    if SafeProgram(AltsCode(e)) {
      RewrittenRefl(AltsCode(e));
      SearchFinds(e, fm, AltsCode(e), text, start, range, code', found);
      ScanMeans(e, text, start, range);
    }
  }

  /** A pattern is compiled and a text searched for it, with a fastmap or without; this ends
      for every pattern with proper loops.  If the program is safe, the position found is
      the first, in the direction of the range, at which a stretch of text is in the
      pattern's language; -2 says that an attempt overflowed the failure stack. */
  method CompileAndSearch(pattern: seq<Byte>, text: seq<Byte>, start: nat, range: int, useFastmap: bool)
    returns (r: Result<int>)
    requires Parse(pattern).Ok? ==> ProperLoopsAlts(Parse(pattern).value)
    requires start <= |text| && 0 <= start + range <= |text|
    ensures r == Err(TooBig) <==> C.RunsOut(pattern, 0, Nothing)
    ensures r == Err(TooBig) ==> 34 * |pattern| + C.BRACKET_SLACK > MAX_CODE
    ensures r.Err? && r != Err(TooBig) ==> Parse(pattern).Err? && Parse(pattern).error == r.error
    ensures r.Ok? ==> Parse(pattern).Ok? && WellFormedAlts(Parse(pattern).value)
    ensures r.Ok? ==> Returned(Parse(pattern).value, text, start, range, r.value)
    ensures r.Ok? && SafeProgram(AltsCode(Parse(pattern).value)) ==> Answers(Parse(pattern).value, text, start, range, r.value)
  {
    var compiler := new C.Compiler();
    var used := compiler.Compile(pattern);
    if used.Err? {
      return Err(used.error);
    }
    hide Searches, MapSound, SafeProgram, FoundFirst, OverflowInReach, Returned, Answers, AttemptsEnd;
    ghost var e := Parse(pattern).value;
    ghost var g := Program(e);
    ProgramIs(e);
    AttemptsOfProper(e, text);
    RewrittenRefl(g.code);
    var fastmap := null;
    if useFastmap {
      fastmap := new bool[256](_ => false);
    }
    var compiled := new Pattern(compiler.buffer, used.value, fastmap);
    assert compiled.code[..compiled.used] == g.code;
    var found := compiled.Search(g, text, start, range);
    Concludes(e, compiled.CurrentMap(), text, start, range, compiled.code[..compiled.used], found);
    r := Ok(found);
  }

  /** The buffer that any pattern compiles to, groups included, is a program that finds what
      the pattern's language says, whichever legal drops are made, none among them. */
  method CompileMeans(pattern: seq<Byte>) returns (r: Result<seq<Byte>>)
    ensures r == Err(TooBig) <==> C.RunsOut(pattern, 0, Nothing)
    ensures r == Err(TooBig) ==> 34 * |pattern| + C.BRACKET_SLACK > MAX_CODE
    ensures r.Err? && r != Err(TooBig) ==> Parse(pattern).Err? && Parse(pattern).error == r.error
    ensures r.Ok? ==> Parse(pattern).Ok? && WellFormedAlts(Parse(pattern).value)
    ensures r.Ok? && ProperLoopsAlts(Parse(pattern).value) ==>
              forall text: seq<Byte>, d: nat, drops: set<nat> :: d <= |text| && AllLegal(r.value, drops) ==>
                Evals(Machine(r.value, text, drops), Running(0, d, []), L.Expected(Parse(pattern).value, text, d))
  {
    var compiler := new C.Compiler();
    var used := compiler.Compile(pattern);
    if used.Err? {
      return Err(used.error);
    }
    r := Ok(compiler.buffer[..used.value]);
    ghost var e := Parse(pattern).value;
    if ProperLoopsAlts(e) {
      forall text: seq<Byte>, d: nat, drops: set<nat> | d <= |text| && AllLegal(r.value, drops)
        ensures Evals(Machine(r.value, text, drops), Running(0, d, []), L.Expected(e, text, d))
      {
        L.ProgramRuns(e, text, d, drops);
      }
    }
  }
}
