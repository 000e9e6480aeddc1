/** re_search: attempts at one position after the other, each with the program that the
    ones before have left, and with a fastmap without those that must fail. */
module RegexSearch {
  import opened RegexSyntax
  import opened RegexCode
  import opened RegexMachine
  import opened RegexHeights
  import opened RegexLayout
  import opened RegexMatch
  import opened RegexFastmap
  import L = RegexLanguage

  // ---- What a search is, for any compiled program ----

  datatype FastMap = NoMap | Map(fast: seq<bool>, canBeNull: nat)

  /** A compiled program as it was before any rewriting, with its heights. */
  datatype Original = Original(code: seq<Byte>, flat: bool, heights: seq<nat>)

  ghost predicate IsProgram(g: Original) {
    Compiled(g.code, g.flat) && Balanced(g.code, g.heights)
  }

  /** An attempt at pos comes to o and leaves the program code'. */
  ghost predicate Attempted(code: seq<Byte>, text: seq<Byte>, pos: nat, code': seq<Byte>, o: Outcome) {
    exists n: nat {:trigger LiveRun(text, Start(code, pos), n)} ::
      LiveRun(text, Start(code, pos), n).config == Done(o) && LiveRun(text, Start(code, pos), n).code == code'
  }

  lemma {:induction false} LiveStays(text: seq<Byte>, r: Live, i: nat, j: nat)
    requires i <= j && LiveRun(text, r, i).config.Done?
    ensures LiveRun(text, r, j) == LiveRun(text, r, i)
    decreases i
  {
    hide LiveStep;
    if i > 0 && !r.config.Done? {
      LiveStays(text, LiveStep(text, r), i - 1, j - 1);
    }
  }

  lemma AttemptUnique(code: seq<Byte>, text: seq<Byte>, pos: nat, c1: seq<Byte>, o1: Outcome, c2: seq<Byte>, o2: Outcome)
    requires Attempted(code, text, pos, c1, o1) && Attempted(code, text, pos, c2, o2)
    ensures c1 == c2 && o1 == o2
  {
    var r := Start(code, pos);
    var i: nat :| LiveRun(text, r, i).config == Done(o1) && LiveRun(text, r, i).code == c1;
    var j: nat :| LiveRun(text, r, j).config == Done(o2) && LiveRun(text, r, j).code == c2;
    if i <= j { LiveStays(text, r, i, j); } else { LiveStays(text, r, j, i); }
  }

  /** What the program is afterwards is again a rewriting, and nothing undefined has happened. */
  lemma AttemptSound(g: Original, code: seq<Byte>, text: seq<Byte>, pos: nat, code': seq<Byte>, o: Outcome)
    requires IsProgram(g) && Rewritten(g.code, code) && pos <= |text| && Attempted(code, text, pos, code', o)
    ensures Rewritten(g.code, code') && o != Crash && (o.Match? ==> pos <= o.end)
  {
    var n: nat :| LiveRun(text, Start(code, pos), n).config == Done(o) && LiveRun(text, Start(code, pos), n).code == code';
    StartSound(g.code, code, text, g.heights, pos);
    RunInvariant(g.code, text, g.heights, g.flat, Start(code, pos), n);
    RunsForward(text, Start(code, pos), n, pos);
  }

  ghost predicate Skips(fm: FastMap, text: seq<Byte>, pos: nat) {
    fm.Map? && Hopeless(fm.fast, fm.canBeNull, text, pos)
  }

  /** A position is dealt with: by an attempt, or by the map. */
  ghost predicate Probed(fm: FastMap, code: seq<Byte>, text: seq<Byte>, pos: nat, code': seq<Byte>, o: Outcome) {
    || Attempted(code, text, pos, code', o)
    || (Skips(fm, text, pos) && code' == code && o == NoMatch)
  }

  /** The position next to start in the direction of range, and what is left of the range. */
  function Toward(range: int): int {
    if range > 0 then 1 else -1
  }

  /** A search from start over the range finds this position, -1 or -2, and leaves code'. */
  ghost predicate Searches(fm: FastMap, code: seq<Byte>, text: seq<Byte>, start: nat, range: int, code': seq<Byte>, found: int)
    requires start <= |text| && 0 <= start + range <= |text|
    decreases if range < 0 then -range else range
  {
    exists c: seq<Byte>, o: Outcome {:trigger Probed(fm, code, text, start, c, o)} ::
      && Probed(fm, code, text, start, c, o)
      && if o.Match? then found == start && code' == c
         else if o != NoMatch then found == -2 && code' == c
         else if range == 0 then found == -1 && code' == c
         else Searches(fm, c, text, start + Toward(range), range - Toward(range), code', found)
  }

  /** What a search makes of its first position. */
  ghost predicate Continues(fm: FastMap, text: seq<Byte>, start: nat, range: int, c: seq<Byte>, o: Outcome, code': seq<Byte>, found: int)
    requires start <= |text| && 0 <= start + range <= |text|
  {
    if o.Match? then found == start && code' == c
    else if o != NoMatch then found == -2 && code' == c
    else if range == 0 then found == -1 && code' == c
    else Searches(fm, c, text, start + Toward(range), range - Toward(range), code', found)
  }

  lemma FirstProbe(fm: FastMap, code: seq<Byte>, text: seq<Byte>, start: nat, range: int, code': seq<Byte>, found: int)
    returns (c: seq<Byte>, o: Outcome)
    requires start <= |text| && 0 <= start + range <= |text| && Searches(fm, code, text, start, range, code', found)
    ensures Probed(fm, code, text, start, c, o) && Continues(fm, text, start, range, c, o, code', found)
  {
    c, o :| Probed(fm, code, text, start, c, o)
      && if o.Match? then found == start && code' == c
         else if o != NoMatch then found == -2 && code' == c
         else if range == 0 then found == -1 && code' == c
         else Searches(fm, c, text, start + Toward(range), range - Toward(range), code', found);
  }

  /** The fastmap agrees with the plain search, for every compiled program, however its
      attempts rewrite it: if the plain search does not overflow the failure stack, both
      find the same and leave the same program. */
  lemma {:induction false} MapAgrees(g: Original, fm: FastMap, code: seq<Byte>, text: seq<Byte>, start: nat, range: int,
                                     c1: seq<Byte>, found1: int, c2: seq<Byte>, found2: int)
    requires IsProgram(g) && Rewritten(g.code, code) && start <= |text| && 0 <= start + range <= |text|
    requires fm.Map? && MapSound(g.code, fm.fast, fm.canBeNull)
    requires Searches(NoMap, code, text, start, range, c1, found1) && found1 != -2
    requires Searches(fm, code, text, start, range, c2, found2)
    ensures found1 == found2 && c1 == c2
    decreases if range < 0 then -range else range
  {
    var c, o := FirstProbe(NoMap, code, text, start, range, c1, found1);
    var c', o' := FirstProbe(fm, code, text, start, range, c2, found2);
    hide Searches, Probed, Attempted, MapSound, Rewritten;
    ProbedPlain(code, text, start, c, o);
    SameProbe(g, fm, code, text, start, c, o, c', o');
    AttemptSound(g, code, text, start, c, o);
    if o == NoMatch && range != 0 {
      MapAgrees(g, fm, c, text, start + Toward(range), range - Toward(range), c1, found1, c2, found2);
    }
  }

  lemma ProbedPlain(code: seq<Byte>, text: seq<Byte>, pos: nat, c: seq<Byte>, o: Outcome)
    requires Probed(NoMap, code, text, pos, c, o)
    ensures Attempted(code, text, pos, c, o)
  {
  }

  lemma SameProbe(g: Original, fm: FastMap, code: seq<Byte>, text: seq<Byte>, pos: nat, c: seq<Byte>, o: Outcome, c': seq<Byte>, o': Outcome)
    requires IsProgram(g) && Rewritten(g.code, code) && fm.Map? && MapSound(g.code, fm.fast, fm.canBeNull)
    requires Attempted(code, text, pos, c, o) && o != Overflow && Probed(fm, code, text, pos, c', o')
    ensures c' == c && o' == o
  {
    if Attempted(code, text, pos, c', o') {
      AttemptUnique(code, text, pos, c, o, c', o');
    } else {
      var n: nat :| LiveRun(text, Start(code, pos), n).config == Done(o) && LiveRun(text, Start(code, pos), n).code == c;
      HopelessAttempt(g.code, g.flat, code, fm.fast, fm.canBeNull, text, pos, n);
    }
  }

  // ---- Searching from some position on ----

  /** What is found from start1 on with code1 is found from start on with code. */
  ghost predicate Leads(fm: FastMap, text: seq<Byte>, code: seq<Byte>, start: nat, range: int, code1: seq<Byte>, start1: nat, range1: int)
    requires start <= |text| && 0 <= start + range <= |text| && start1 <= |text| && 0 <= start1 + range1 <= |text|
  {
    forall c: seq<Byte>, found: int {:trigger Searches(fm, code1, text, start1, range1, c, found)} ::
      Searches(fm, code1, text, start1, range1, c, found) ==> Searches(fm, code, text, start, range, c, found)
  }

  lemma LeadsOn(fm: FastMap, text: seq<Byte>, code: seq<Byte>, start: nat, range: int, code1: seq<Byte>)
    requires start <= |text| && 0 <= start + range <= |text| && range != 0
    requires Probed(fm, code, text, start, code1, NoMatch)
    ensures Leads(fm, text, code, start, range, code1, start + Toward(range), range - Toward(range))
  {
    forall c: seq<Byte>, found: int {:trigger Searches(fm, code1, text, start + Toward(range), range - Toward(range), c, found)}
      | Searches(fm, code1, text, start + Toward(range), range - Toward(range), c, found)
      ensures Searches(fm, code, text, start, range, c, found)
    {
      assert Probed(fm, code, text, start, code1, NoMatch);
    }
  }

  lemma LeadsTrans(fm: FastMap, text: seq<Byte>, code: seq<Byte>, start: nat, range: int, code1: seq<Byte>, start1: nat, range1: int,
                   code2: seq<Byte>, start2: nat, range2: int)
    requires start <= |text| && 0 <= start + range <= |text| && start1 <= |text| && 0 <= start1 + range1 <= |text|
    requires start2 <= |text| && 0 <= start2 + range2 <= |text|
    requires Leads(fm, text, code, start, range, code1, start1, range1) && Leads(fm, text, code1, start1, range1, code2, start2, range2)
    ensures Leads(fm, text, code, start, range, code2, start2, range2)
  {
  }

  /** Nothing found at the position reached: the search goes on at the next. */
  lemma LeadsFurther(fm: FastMap, text: seq<Byte>, code: seq<Byte>, start: nat, range: int, start1: nat, range1: int, code1: seq<Byte>)
    requires start <= |text| && 0 <= start + range <= |text| && start1 <= |text| && 0 <= start1 + range1 <= |text| && range1 != 0
    requires Leads(fm, text, code, start, range, code, start1, range1) && Probed(fm, code, text, start1, code1, NoMatch)
    ensures Leads(fm, text, code, start, range, code1, start1 + Toward(range1), range1 - Toward(range1))
  {
    hide Searches, Probed;
    LeadsOn(fm, text, code, start1, range1, code1);
  }

  /** The position reached settles the matter. */
  lemma SettlesAfter(fm: FastMap, text: seq<Byte>, code: seq<Byte>, start: nat, range: int, start1: nat, range1: int, code': seq<Byte>, o: Outcome)
    requires start <= |text| && 0 <= start + range <= |text| && start1 <= |text| && 0 <= start1 + range1 <= |text|
    requires Leads(fm, text, code, start, range, code, start1, range1) && Probed(fm, code, text, start1, code', o)
    requires o != NoMatch || range1 == 0
    ensures Searches(fm, code, text, start, range, code', if o.Match? then start1 else if o != NoMatch then -2 else -1)
  {
    assert Searches(fm, code, text, start1, range1, code', if o.Match? then start1 else if o != NoMatch then -2 else -1);
  }

  // ---- Anchored programs ----

  /** A program whose first command is begbuf fails at once at any position but the first. */
  lemma AnchoredFails(code: seq<Byte>, text: seq<Byte>, pos: nat)
    requires 0 < |code| && code[0] == BEGBUF && 0 < pos <= |text|
    ensures Attempted(code, text, pos, code, NoMatch)
  {
    var r := Start(code, pos);
    var r1 := r.(config := Failing([]));
    assert LiveStep(text, r) == r1;
    assert LiveStep(text, r1) == r.(config := Done(NoMatch));
    assert LiveRun(text, r1, 1) == LiveRun(text, LiveStep(text, r1), 0);
    assert LiveRun(text, r, 2) == LiveRun(text, r1, 1);
  }

  lemma {:induction false} AnchoredSearch(fm: FastMap, code: seq<Byte>, text: seq<Byte>, start: nat, range: nat)
    requires 0 < |code| && code[0] == BEGBUF && 0 < start && start + range <= |text|
    ensures Searches(fm, code, text, start, range, code, -1)
    decreases range
  {
    AnchoredFails(code, text, start);
    assert Probed(fm, code, text, start, code, NoMatch);
    if range > 0 {
      AnchoredSearch(fm, code, text, start + 1, range - 1);
    }
  }

  /** So a search from the start need not go beyond the first position but one. */
  lemma AnchoredRange(fm: FastMap, code: seq<Byte>, text: seq<Byte>, range: nat, code': seq<Byte>, found: int)
    requires 0 < |code| && code[0] == BEGBUF && 0 < range <= |text|
    requires Searches(fm, code, text, 0, 1, code', found)
    requires forall c, o :: Probed(fm, code, text, 0, c, o) ==> 0 < |c| && c[0] == BEGBUF
    ensures Searches(fm, code, text, 0, range, code', found)
  {
    var c, o := FirstProbe(fm, code, text, 0, 1, code', found);
    if o == NoMatch {
      var c', o' := FirstProbe(fm, c, text, 1, 0, code', found);
      AnchoredFails(c, text, 1);
      if Attempted(c, text, 1, c', o') {
        AttemptUnique(c, text, 1, c', o', c, NoMatch);
      }
      AnchoredSearch(fm, c, text, 1, range - 1);
    }
  }

  // ---- re_search ----

  /** Every attempt ends, whatever has been rewritten. */
  ghost predicate AttemptsEnd(original: seq<Byte>, text: seq<Byte>) {
    forall code: seq<Byte>, pos: nat {:trigger AttemptEnds(code, text, pos)} ::
      Rewritten(original, code) && pos <= |text| ==> AttemptEnds(code, text, pos)
  }

  ghost predicate AttemptEnds(code: seq<Byte>, text: seq<Byte>, pos: nat) {
    exists n: nat {:trigger LiveRun(text, Start(code, pos), n)} :: LiveRun(text, Start(code, pos), n).config.Done?
  }

  /** A compiled pattern with its fastmap, if it has one. */
  class Pattern {
    var code: array<Byte>
    var used: nat
    var fastmap: array?<bool>
    var fastmapAccurate: bool
    var canBeNull: nat

    constructor (code: array<Byte>, used: nat, fastmap: array?<bool>)
      ensures this.code == code && this.used == used && this.fastmap == fastmap && !fastmapAccurate
    {
      this.code, this.used, this.fastmap := code, used, fastmap;
      fastmapAccurate, canBeNull := false, 0;
    }

    /** The buffer holds the program, perhaps rewritten by earlier matches. */
    ghost predicate Holds(g: Original)
      reads this, code, fastmap
    {
      && IsProgram(g) && used == |g.code| && EndHarmless(g.code, code[..]) && Rewritten(g.code, code[..used])
      && (fastmap != null ==> fastmap.Length == 256)
      && (fastmap != null && fastmapAccurate ==> MapSound(g.code, fastmap[..], canBeNull))
    }

    ghost function CurrentMap(): FastMap
      reads this, fastmap
    {
      if fastmap == null then NoMap else Map(fastmap[..], canBeNull)
    }

    /** One attempt at pos. */
    method Attempt(ghost g: Original, text: seq<Byte>, pos: nat) returns (val: int, ghost o: Outcome)
      requires Holds(g) && pos <= |text| && AttemptsEnd(g.code, text)
      modifies code
      ensures Holds(g) && CurrentMap() == old(CurrentMap())
      ensures Attempted(old(code[..used]), text, pos, code[..used], o)
      ensures val == Report(o, pos) && (0 <= val <==> o.Match?) && (val == -2 <==> o == Overflow)
    {
      ghost var before := code[..used];
      assert AttemptEnds(before, text, pos);
      ghost var steps: nat :| LiveRun(text, Start(before, pos), steps).config.Done?;
      ghost var after := LiveRun(text, Start(before, pos), steps);
      o := after.config.outcome;
      assert Attempted(before, text, pos, after.code, o);
      AttemptSound(g, before, text, pos, after.code, o);
      val := MatchAt(code, used, text, pos, steps);
      assert code[used] == code[used..][0];
    }

    /** Skips ahead while no match can start; the position stays in range. */
    method SkipAhead(ghost g: Original, text: seq<Byte>, start: nat, range: nat) returns (start': nat, range': nat)
      requires Holds(g) && fastmap != null && fastmapAccurate && canBeNull != 1
      requires start + range <= |text|
      ensures start <= start' && start' + range' == start + range
      ensures Leads(CurrentMap(), text, code[..used], start, range, code[..used], start', range')
    {
      start', range' := start, range;
      while range' > 0 && !fastmap[text[start']]
        invariant start <= start' && start' + range' == start + range
        invariant Leads(CurrentMap(), text, code[..used], start, range, code[..used], start', range')
        decreases range'
      {
        hide Leads, Attempted;
        assert Probed(CurrentMap(), code[..used], text, start', code[..used], NoMatch);
        LeadsFurther(CurrentMap(), text, code[..used], start, range, start', range', code[..used]);
        start', range' := start' + 1, range' - 1;
      }
    }

    /** One round of the search: the position is moved ahead over hopeless places, and
        unless that settles the matter an attempt is made and the position moved by one. */
    method Round(ghost g: Original, text: seq<Byte>, start: nat, range: int)
      returns (start': nat, range': int, done: bool, found: int)
      requires Holds(g) && AttemptsEnd(g.code, text) && start <= |text| && 0 <= start + range <= |text|
      requires fastmap != null ==> fastmapAccurate
      modifies code
      ensures Holds(g) && CurrentMap() == old(CurrentMap())
      ensures start' <= |text| && 0 <= start' + range' <= |text|
      ensures done ==> Searches(CurrentMap(), old(code[..used]), text, start, range, code[..used], found)
      ensures !done ==> Leads(CurrentMap(), text, old(code[..used]), start, range, code[..used], start', range')
      ensures !done ==> if range > 0 then 0 <= range' < range else range < range' <= 0
    {
      Sizes(g);
      hide Holds, Leads, Searches, Attempted, AttemptsEnd;
      ghost var before, fm := code[..used], CurrentMap();
      start', range' := start, range;
      done, found := false, -1;
      var attempt := true;
      if fastmap != null && start < |text| && canBeNull != 1 {
        Sizes(g);
        if range > 0 {
          start', range' := SkipAhead(g, text, start, range);
        } else if !fastmap[text[start]] {
          attempt := false;
        }
      }
      if start' == start {
        Same(fm, text, before, start, range);
      }
      Sizes(g);
      ghost var o := NoMatch;
      if attempt {
        if range' >= 0 && start' == |text| && fastmap != null && canBeNull == 0 {
          assert Probed(fm, before, text, start', before, NoMatch);
          SettlesAfter(fm, text, before, start, range, start', range', before, NoMatch);
          return start', range', true, -1;
        }
        var val;
        val, o := Attempt(g, text, start');
        if 0 <= val || val == -2 {
          SettlesAfter(fm, text, before, start, range, start', range', code[..used], o);
          found := if 0 <= val then start' else -2;
          return start', range', true, found;
        }
        assert o == NoMatch;
      }
      assert Probed(fm, before, text, start', code[..used], NoMatch);
      if range' == 0 {
        SettlesAfter(fm, text, before, start, range, start', range', code[..used], NoMatch);
        return start', range', true, -1;
      }
      LeadsFurther(fm, text, before, start, range, start', range', code[..used]);
      if range' > 0 {
        start', range' := start' + 1, range' - 1;
      } else {
        start', range' := start' - 1, range' + 1;
      }
    }

    lemma Sizes(g: Original)
      requires Holds(g)
      ensures used <= code.Length && (fastmap != null ==> fastmap.Length == 256)
    {
    }

    lemma Same(fm: FastMap, text: seq<Byte>, code: seq<Byte>, start: nat, range: int)
      requires start <= |text| && 0 <= start + range <= |text|
      ensures Leads(fm, text, code, start, range, code, start, range)
    {
    }

    lemma LedTo(fm: FastMap, text: seq<Byte>, code: seq<Byte>, start: nat, range: int, code1: seq<Byte>, start1: nat, range1: int,
                c: seq<Byte>, found: int)
      requires start <= |text| && 0 <= start + range <= |text| && start1 <= |text| && 0 <= start1 + range1 <= |text|
      requires Leads(fm, text, code, start, range, code1, start1, range1) && Searches(fm, code1, text, start1, range1, c, found)
      ensures Searches(fm, code, text, start, range, c, found)
    {
    }

    /** The search, of any compiled program whose attempts end, with its fastmap or without. */
    method Search(ghost g: Original, text: seq<Byte>, startpos: nat, range0: int) returns (found: int)
      requires Holds(g) && AttemptsEnd(g.code, text) && startpos <= |text| && 0 <= startpos + range0 <= |text|
      modifies this, code, fastmap
      ensures Holds(g) && code == old(code) && used == old(used) && fastmap == old(fastmap) && (fastmap != null ==> fastmapAccurate)
      ensures Searches(CurrentMap(), old(code[..used]), text, startpos, range0, code[..used], found)
    {
      hide Searches, AttemptsEnd;
      Prepare(g);
      ghost var before, fm := code[..used], CurrentMap();
      if used > 0 && code[0] == BEGBUF && range0 > 0 {
        if startpos > 0 {
          AnchoredSearch(fm, before, text, startpos, range0);
          return -1;
        }
        StaysAnchored(g, fm, before, text);
        found := Rounds(g, text, 0, 1);
        AnchoredRange(fm, before, text, range0, code[..used], found);
      } else {
        found := Rounds(g, text, startpos, range0);
      }
    }

    lemma StaysAnchored(g: Original, fm: FastMap, before: seq<Byte>, text: seq<Byte>)
      requires IsProgram(g) && Rewritten(g.code, before) && 0 < |before| && before[0] == BEGBUF
      ensures forall c, o :: Probed(fm, before, text, 0, c, o) ==> 0 < |c| && c[0] == BEGBUF
    {
      ByteKept(g.code, before, 0);
      forall c, o | Probed(fm, before, text, 0, c, o) ensures 0 < |c| && c[0] == BEGBUF {
        if Attempted(before, text, 0, c, o) {
          AttemptSound(g, before, text, 0, c, o);
          ByteKept(g.code, c, 0);
        }
      }
    }

    /** Brings the fastmap up to date. */
    method Prepare(ghost g: Original)
      requires Holds(g)
      modifies this, fastmap
      ensures Holds(g) && (fastmap != null ==> fastmapAccurate)
      ensures code == old(code) && used == old(used) && fastmap == old(fastmap) && code[..] == old(code[..])
    {
      if fastmap != null && !fastmapAccurate {
        canBeNull := CompileFastmap(code, used, fastmap, g.code, g.flat);
        fastmapAccurate := true;
      }
    }

    method Rounds(ghost g: Original, text: seq<Byte>, startpos: nat, range0: int) returns (found: int)
      requires Holds(g) && AttemptsEnd(g.code, text) && startpos <= |text| && 0 <= startpos + range0 <= |text|
      requires fastmap != null ==> fastmapAccurate
      modifies code
      ensures Holds(g) && CurrentMap() == old(CurrentMap())
      ensures Searches(CurrentMap(), old(code[..used]), text, startpos, range0, code[..used], found)
    {
      var start: nat, range := startpos, range0;
      ghost var before, fm := code[..used], CurrentMap();
      Same(fm, text, before, start, range);
      while true
        invariant Holds(g) && CurrentMap() == fm && start <= |text| && 0 <= start + range <= |text|
        invariant Leads(fm, text, before, startpos, range0, code[..used], start, range)
        decreases if range < 0 then -range else range
      {
        hide Holds, Leads, Searches, AttemptsEnd;
        ghost var now, at, left := code[..used], start, range;
        var done;
        start, range, done, found := Round(g, text, start, range);
        if done {
          LedTo(fm, text, before, startpos, range0, now, at, left, code[..used], found);
          return;
        }
        LeadsTrans(fm, text, before, startpos, range0, now, at, left, code[..used], start, range);
      }
    }
  }
}
