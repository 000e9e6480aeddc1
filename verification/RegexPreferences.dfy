/** Which of the matches of a pattern text is found: the longest repetition, the first
    alternative. */
module RegexPreferences {
  import opened RegexSyntax
  import opened RegexParse
  import opened RegexReading
  import opened RegexPatterns
  import opened RegexContexts
  import L = RegexLanguage
  import M = RegexMachine

  // ---- Repetitions ----

  lemma AtomEnds(e: Item, s: seq<Byte>, d: nat)
    requires IsAtom(e) && d <= |s|
    ensures MatchesItem(e, s, d) == if LangItem(e, s, d, d + 1) then [d + 1] else []
  {
  }

  lemma BodyEnds(e: Item, s: seq<Byte>, d: nat)
    requires IsAtom(e) && d <= |s|
    ensures Matches(Snoc(Nil, e), s, d) == if LangItem(e, s, d, d + 1) then [d + 1] else []
  {
    hide LangItem;
    AtomEnds(e, s, d);
    assert Matches(Nil, s, d) == [d];
    assert ThenItem(e, s, d, [d]) == MatchesItem(e, s, d) + ThenItem(e, s, d, []);
  }

  /** n characters that e consumes stand at d, and no more. */
  ghost predicate Stretch(e: Item, s: seq<Byte>, d: nat, n: nat) {
    EachFrom(One(Snoc(Nil, e)), s, d, d + n) && !OneAt(One(Snoc(Nil, e)), s, d + n)
  }

  lemma StretchFirst(e: Item, s: seq<Byte>, d: nat, n: nat)
    requires IsAtom(e) && Stretch(e, s, d, n)
    ensures d + n <= |s| && (LangItem(e, s, d, d + 1) <==> n > 0) && (n > 0 ==> Stretch(e, s, d + 1, n - 1))
  {
    hide LangItem, Lang;
    OneItem(e, s, d, d + 1);
    assert OneAt(One(Snoc(Nil, e)), s, d) <==> LangItem(e, s, d, d + 1);
  }

  lemma {:induction false} LoopFirst(e: Item, s: seq<Byte>, d: nat, n: nat)
    requires IsAtom(e) && Stretch(e, s, d, n) && d <= |s|
    ensures var ends := ThenLoop(Snoc(Nil, e), s, d, Matches(Snoc(Nil, e), s, d)); if n == 0 then ends == [] else ends != [] && ends[0] == d + n
    decreases n
  {
    hide Stretch, Matches, LangItem, ThenLoop;
    var body := Snoc(Nil, e);
    StretchFirst(e, s, d, n);
    BodyEnds(e, s, d);
    LoopEnds(body, s, d);
    if n > 0 {
      LoopFirst(e, s, d + 1, n - 1);
    }
  }

  lemma LoopEnds(body: Seq, s: seq<Byte>, d: nat)
    requires d <= |s|
    ensures ThenLoop(body, s, d, []) == []
    ensures d < |s| ==> ThenLoop(body, s, d, [d + 1]) == ThenLoop(body, s, d + 1, Matches(body, s, d + 1)) + [d + 1]
  {
    hide Matches;
    if d < |s| {
      var more := ThenLoop(body, s, d + 1, Matches(body, s, d + 1));
      assert [d + 1][1..] == [];
      assert ThenLoop(body, s, d, []) == [];
      assert more + [d + 1] + [] == more + [d + 1];
    }
  }

  lemma RepeatEnds(r: Item, s: seq<Byte>, d: nat)
    requires r.Repeat? && d <= |s|
    ensures MatchesAlts(One(Snoc(Nil, r)), s, d)
         == (if r.many then ThenLoop(r.body, s, d, Matches(r.body, s, d)) else Matches(r.body, s, d)) + (if r.zero then [d] else [])
  {
    hide ThenLoop;
    assert Matches(Nil, s, d) == [d];
    assert ThenItem(r, s, d, [d]) == MatchesItem(r, s, d) + ThenItem(r, s, d, []);
  }

  /** Where n characters that x denotes stand, and no more, x with operators behind it
      matches all of them if more than one is allowed, else one; nothing where there is
      none and nothing is allowed. */
  lemma RepetitionFinds(x: seq<Byte>, e: Item, ops: seq<Byte>, s: seq<Byte>, d: nat, n: nat)
    requires Denotes(x, e) && IsAtom(e) && Operators(ops) && d <= |s|
    requires EachFrom(Parse(x).value, s, d, d + n) && !OneAt(Parse(x).value, s, d + n)
    ensures Parse(x + ops).Ok?
    ensures L.Expected(Parse(x + ops).value, s, d)
         == if n == 0 then (if SomeOther(ops, PLUS) then M.Match(d) else M.NoMatch)
            else if SomeOther(ops, QUERY) then M.Match(d + n) else M.Match(d + 1)
  {
    hide LangItem, Lang, Parse, SomeOther, Operators, EachFrom, MatchesAlts, Matches, ThenLoop, OneAt;
    AtomIsOne(x, e);
    EmptyRead();
    RepetitionRead([], One(Nil), x, e, ops);
    assert [] + x + ops == x + ops;
    var r := Repeat(SomeOther(ops, PLUS), SomeOther(ops, QUERY), Snoc(Nil, e));
    RepeatEnds(r, s, d);
    StretchFirst(e, s, d, n);
    BodyEnds(e, s, d);
    LoopFirst(e, s, d, n);
  }

  // ---- Alternatives ----

  lemma {:induction false} AppendedEnds(a: Alts, b: Alts, s: seq<Byte>, d: nat)
    requires d <= |s|
    ensures MatchesAlts(Appended(a, b), s, d) == MatchesAlts(a, s, d) + MatchesAlts(b, s, d)
    decreases b
  {
    hide Matches;
    if b.More? {
      AppendedEnds(a, b.others, s, d);
    }
  }

  /** What the second text would match is found only where the first matches nothing. */
  lemma BarPrefers(w: seq<Byte>, e: Alts, y: seq<Byte>, f: Alts, s: seq<Byte>, d: nat)
    requires Parse(w) == Ok(e) && Parse(y) == Ok(f) && GroupFreeAlts(e) && GroupFreeAlts(f) && d <= |s|
    ensures Parse(w + BAR + y).Ok?
    ensures L.Expected(Parse(w + BAR + y).value, s, d)
         == if L.Expected(e, s, d) != M.NoMatch then L.Expected(e, s, d) else L.Expected(f, s, d)
  {
    hide Parse, MatchesAlts;
    BarJoins(w, e, y, f);
    AppendedEnds(e, f, s, d);
  }
}
