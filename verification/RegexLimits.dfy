/** Where dropping failure points goes wrong: with groups, because the look past
    them steps over one byte of a two-byte command, and with eight-bit characters,
    because a signed character is compared with an unsigned one.  And where matching
    does not end: repeating nothing.  And where the fastmap depends on a byte that is no
    part of the program. */
module RegexLimits {
  import opened RegexSyntax
  import opened RegexCode
  import opened RegexMachine
  import opened RegexMatch
  import opened RegexLayout
  import opened RegexFastmap
  import opened RegexEndless
  import D = RegexDrops
  import P = RegexParse
  import L = RegexLanguage

  const A: Byte := 'a' as int
  const B: Byte := 'b' as int

  const E_ACUTE: Byte := 233

  function Once(c: Byte): Seq {
    Snoc(Nil, Chars([c]))
  }

  function Star(c: Byte): Item {
    Repeat(true, true, Once(c))
  }

  lemma StarCode(c: Byte)
    ensures WellFormedItem(Star(c)) && WellFormed(Snoc(Nil, Star(c))) && ProperLoops(Snoc(Nil, Star(c)))
    ensures ItemCode(Star(c)) == SeqCode(Snoc(Nil, Star(c))) == [5, 6, 0, 1, 1, c, 7, 247, 255]
  {
    assert WellFormedItem(Chars([c])) && WellFormed(Once(c));
    assert SeqCode(Nil) == [];
    assert SeqCode(Once(c)) == [1, 1, c];
    assert Jump(ON_FAILURE_JUMP, 6) == [5, 6, 0];
    assert Jump(MAYBE_FINALIZE_JUMP, -9) == [7, 247, 255];
    assert ProperLoopsItem(Chars([c])) && !NullableItem(Chars([c])) && ProperLoops(Nil);
    assert ProperLoops(Once(c)) && !Nullable(Once(c));
    assert ProperLoopsItem(Star(c));
  }

  // ---- \(a*\)ab on aab ----

  const GroupPattern: seq<Byte> := ['\\' as int, '(' as int, A, '*' as int, '\\' as int, ')' as int, A, B]
  const Inside: Seq := Snoc(Nil, Star(A))
  const Opened: Seq := Snoc(Nil, StartMem(1))
  const Closed: Seq := Snoc(Opened, Group(1, One(Inside)))
  const Whole: Seq := Snoc(Closed, Chars([A, B]))
  const GroupText: seq<Byte> := [A, A, B]
  const GroupCode: seq<Byte> := [12, 1, 5, 6, 0, 1, 1, A, 7, 247, 255, 13, 1, 1, 2, A, B]

  lemma GroupPatternReads()
    ensures P.Parse(GroupPattern) == P.Ok(One(Whole))
  {
    var s1 := P.Parsing([P.Frame(0, P.None, Opened)], P.Frame(1, P.None, Nil), 2);
    assert P.Open(P.Nothing) == s1 by {
      assert P.Nothing.outer + [P.Frame(0, P.None, Opened)] == s1.outer;
    }
    assert P.ReadEscape(GroupPattern, 1, P.Nothing) == P.Ok((s1, 2));
    assert P.ReadOne(GroupPattern, 0, P.Nothing) == P.Ok((s1, 2));
    var s2 := s1.(top := P.Frame(1, P.None, Once(A)));
    assert P.ReadOne(GroupPattern, 2, s1) == P.Ok((s2, 3));
    var s3 := s1.(top := P.Frame(1, P.None, Inside));
    assert P.PostfixRun(GroupPattern, 3, false, false) == (true, true, 4);
    assert P.ReadOne(GroupPattern, 3, s2) == P.Ok((s3, 4));
    var s4 := P.Parsing([], P.Frame(0, P.None, Closed), 2);
    assert P.ReadOne(GroupPattern, 4, s3) == P.Ok((s4, 6));
    var s5 := s4.(top := P.Frame(0, P.None, Snoc(Closed, Chars([A]))));
    assert P.ReadOne(GroupPattern, 6, s4) == P.Ok((s5, 7));
    var s6 := s4.(top := P.Frame(0, P.None, Whole));
    assert [A] + [B] == [A, B];
    assert P.ReadOne(GroupPattern, 7, s5) == P.Ok((s6, 8));
    var result := P.ReadFrom(GroupPattern, 8, s6);
    assert P.ReadFrom(GroupPattern, 7, s5) == result;
    assert P.ReadFrom(GroupPattern, 6, s4) == result;
    assert P.ReadFrom(GroupPattern, 4, s3) == result;
    assert P.ReadFrom(GroupPattern, 3, s2) == result;
    assert P.ReadFrom(GroupPattern, 2, s1) == result;
    assert P.ReadFrom(GroupPattern, 0, P.Nothing) == result;
  }

  lemma GroupIs()
    ensures WellFormedItem(Group(1, One(Inside))) && ProperLoopsItem(Group(1, One(Inside)))
    ensures ItemCode(Group(1, One(Inside))) == [5, 6, 0, 1, 1, A, 7, 247, 255, 13, 1]
  {
    StarCode(A);
    assert WellFormedAlts(One(Inside)) && ProperLoopsAlts(One(Inside));
    assert AltsCode(One(Inside)) == [5, 6, 0, 1, 1, A, 7, 247, 255];
  }

  lemma GroupCodeIs()
    ensures WellFormed(Whole) && ProperLoops(Whole) && SeqCode(Whole) == GroupCode
  {
    GroupIs();
    SnocCode(Nil, StartMem(1));
    SnocCode(Opened, Group(1, One(Inside)));
    SnocCode(Closed, Chars([A, B]));
    assert SeqCode(Nil) == [];
    assert SeqCode(Opened) == [12, 1];
  }

  lemma SnocCode(init: Seq, last: Item)
    requires WellFormed(init) && ProperLoops(init) && WellFormedItem(last) && ProperLoopsItem(last)
    ensures WellFormed(Snoc(init, last)) && ProperLoops(Snoc(init, last))
    ensures SeqCode(Snoc(init, last)) == SeqCode(init) + ItemCode(last)
  {
  }

  function At(code: seq<Byte>, p: nat, d: nat, stack: seq<Point>): Live {
    Live(code, INITIAL_ENTRIES, Running(p, d, stack))
  }

  /** The look past \) takes the group number for an exactn command and the length of
      the string after it for the character that follows. */
  lemma WrongLook()
    ensures Decided(GroupCode, 8) == FINALIZE_JUMP
  {
    assert SkipMemory(GroupCode, 12) == 12;
    assert SkipMemory(GroupCode, 11) == 12;
  }

  /** An on_failure_jump that leads to t. */
  lemma Pushes(text: seq<Byte>, code: seq<Byte>, p: nat, d: nat, t: nat)
    requires p + 3 <= |code| && code[p] == ON_FAILURE_JUMP && Target(code, p) == t <= |code| && d <= |text|
    ensures LiveStep(text, At(code, p, d, [])) == At(code, p + 3, d, [Point(t, d)])
  {
    assert [] + [Point(t, d)] == [Point(t, d)];
  }

  /** A finalize_jump that leads to t. */
  lemma Drops(text: seq<Byte>, code: seq<Byte>, p: nat, d: nat, t: nat, top: Point)
    requires p + 3 <= |code| && code[p] == FINALIZE_JUMP && Target(code, p) == t <= |code| && d <= |text|
    ensures LiveStep(text, At(code, p, d, [top])) == At(code, t, d, [])
  {
    assert [top][..0] == [];
  }

  /** A maybe_finalize_jump that becomes a finalize_jump to t. */
  lemma Finalized(text: seq<Byte>, code: seq<Byte>, code': seq<Byte>, p: nat, d: nat, t: nat, top: Point)
    requires p + 3 <= |code| && code[p] == MAYBE_FINALIZE_JUMP && Target(code, p) == t <= |code| && d <= |text|
    requires Decided(code, p) == FINALIZE_JUMP && code' == code[p := FINALIZE_JUMP]
    ensures LiveStep(text, At(code, p, d, [top])) == At(code', t, d, [])
  {
    assert [top][..0] == [];
    assert Target(code', p) == t;
  }

  lemma Takes(text: seq<Byte>, code: seq<Byte>, p: nat, d: nat, stack: seq<Point>)
    requires p + 3 <= |code| && code[p] == EXACTN && code[p + 1] == 1 && d < |text|
    ensures LiveStep(text, At(code, p, d, stack))
         == if text[d] == code[p + 2] then At(code, p + 3, d + 1, stack) else Live(code, INITIAL_ENTRIES, Failing(stack))
  {
    assert text[d..d + 1] == [text[d]] && code[p + 2..p + 3] == [code[p + 2]];
  }

  lemma RunTail(text: seq<Byte>, r: Live, steps: nat)
    requires !r.config.Done? && steps > 0
    ensures LiveRun(text, r, steps) == LiveRun(text, LiveStep(text, r), steps - 1)
  {
  }

  /** What matters of the program once its loop has been finalized. */
  predicate LoopFinalized(c: seq<Byte>) {
    && |c| == 17
    && c[2] == ON_FAILURE_JUMP && Target(c, 2) == 11
    && c[5] == EXACTN && c[6] == 1 && c[7] == A
    && c[8] == FINALIZE_JUMP && Target(c, 8) == 2
    && c[11] == STOP_MEMORY && c[13] == EXACTN && c[14] == 2 && c[15] == A
  }

  predicate IsText(text: seq<Byte>) {
    |text| == 3 && text[0] == A && text[1] == A && text[2] == B
  }

  lemma GroupLoop(text: seq<Byte>, c: seq<Byte>, d: nat, steps: nat)
    requires d < 2 && LoopFinalized(c) && IsText(text)
    ensures LiveRun(text, At(c, 2, d, []), steps + 3) == LiveRun(text, At(c, 2, d + 1, []), steps)
  {
    hide LiveRun, LiveStep;
    Pushes(text, c, 2, d, 11);
    RunTail(text, At(c, 2, d, []), steps + 3);
    Takes(text, c, 5, d, [Point(11, d)]);
    RunTail(text, At(c, 5, d, [Point(11, d)]), steps + 2);
    Drops(text, c, 8, d + 1, 2, Point(11, d));
    RunTail(text, At(c, 8, d + 1, [Point(11, d)]), steps + 1);
  }

  /** The last repetition fails. */
  lemma GroupEnd(text: seq<Byte>, c: seq<Byte>)
    requires LoopFinalized(c) && IsText(text)
    ensures LiveRun(text, At(c, 2, 2, []), 6) == LiveRun(text, At(c, 11, 2, []), 3)
  {
    Pushes(text, c, 2, 2, 11);
    RunTail(text, At(c, 2, 2, []), 6);
    Takes(text, c, 5, 2, [Point(11, 2)]);
    RunTail(text, At(c, 5, 2, [Point(11, 2)]), 5);
    var failing := Live(c, INITIAL_ENTRIES, Failing([Point(11, 2)]));
    assert [Point(11, 2)][..0] == [];
    RunTail(text, failing, 4);
  }

  /** So does what follows the group. */
  lemma AfterGroup(text: seq<Byte>, c: seq<Byte>)
    requires LoopFinalized(c) && IsText(text)
    ensures LiveRun(text, At(c, 11, 2, []), 3).config == Done(NoMatch)
  {
    RunTail(text, At(c, 11, 2, []), 3);
    RunTail(text, At(c, 13, 2, []), 2);
    assert LiveStep(text, At(c, 13, 2, [])) == Live(c, INITIAL_ENTRIES, Failing([]));
    RunTail(text, Live(c, INITIAL_ENTRIES, Failing([])), 1);
  }

  lemma GroupStart(text: seq<Byte>, c: seq<Byte>, steps: nat)
    requires |c| == 17 && LoopFinalized(c[8 := FINALIZE_JUMP]) && c[8] == MAYBE_FINALIZE_JUMP && Decided(c, 8) == FINALIZE_JUMP
    requires c[0] == START_MEMORY && IsText(text)
    ensures LiveRun(text, Start(c, 0), steps + 4) == LiveRun(text, At(c[8 := FINALIZE_JUMP], 2, 1, []), steps)
  {
    var c' := c[8 := FINALIZE_JUMP];
    assert c[2] == c'[2] && c[3] == c'[3] && c[4] == c'[4] && c[5] == c'[5] && c[6] == c'[6] && c[7] == c'[7] && c[9] == c'[9] && c[10] == c'[10];
    RunTail(text, At(c, 0, 0, []), steps + 4);
    Pushes(text, c, 2, 0, 11);
    RunTail(text, At(c, 2, 0, []), steps + 3);
    Takes(text, c, 5, 0, [Point(11, 0)]);
    RunTail(text, At(c, 5, 0, [Point(11, 0)]), steps + 2);
    Finalized(text, c, c', 8, 1, 2, Point(11, 0));
    RunTail(text, At(c, 8, 1, [Point(11, 0)]), steps + 1);
  }

  lemma GroupRunFails()
    ensures LiveRun(GroupText, Start(GroupCode, 0), 13).config == Done(NoMatch)
  {
    WrongLook();
    ghost var c := GroupCode[8 := FINALIZE_JUMP];
    assert LoopFinalized(c) && IsText(GroupText);
    GroupStart(GroupText, GroupCode, 9);
    GroupLoop(GroupText, c, 1, 6);
    GroupEnd(GroupText, c);
    AfterGroup(GroupText, c);
  }

  lemma GroupDenotes(text: seq<Byte>)
    requires IsText(text)
    ensures LangAlts(One(Whole), text, 0, 3)
  {
    assert text[0..1] == [A] && text[1..3] == [A, B];
    assert Lang(Nil, text, 0, 0) && Cut(0, 0, 1) && Cut(0, 0, 0) && Cut(0, 1, 3);
    assert Lang(Once(A), text, 0, 1);
    assert LangLoop(Once(A), text, 0, 1);
    assert LangItem(Star(A), text, 0, 1);
    assert Lang(Inside, text, 0, 1);
    assert LangItem(Group(1, One(Inside)), text, 0, 1);
    assert Lang(Opened, text, 0, 0);
    assert Lang(Closed, text, 0, 1);
    assert LangItem(Chars([A, B]), text, 1, 3);
    assert Lang(Whole, text, 0, 3);
  }

  /** The pattern denotes the whole text, but the matcher, having dropped the failure
      points of its loop, finds nothing. */
  lemma GroupsDefeatDropping()
    ensures P.Parse(GroupPattern) == P.Ok(One(Whole)) && WellFormedAlts(One(Whole)) && ProperLoopsAlts(One(Whole))
    ensures LangAlts(One(Whole), GroupText, 0, 3)
    ensures LiveRun(GroupText, Start(AltsCode(One(Whole)), 0), 13).config == Done(NoMatch)
  {
    GroupPatternReads();
    GroupCodeIs();
    GroupRunFails();
    GroupDenotes(GroupText);
  }

  // ---- \351*\351 on \351 ----

  const AcutePattern: seq<Byte> := [E_ACUTE, '*' as int, E_ACUTE]
  const AcuteSeq: Seq := Snoc(Snoc(Nil, Star(E_ACUTE)), Chars([E_ACUTE]))
  const AcuteText: seq<Byte> := [E_ACUTE]
  const AcuteCode: seq<Byte> := [5, 6, 0, 1, 1, E_ACUTE, 7, 247, 255, 1, 1, E_ACUTE]

  lemma AcutePatternReads()
    ensures P.Parse(AcutePattern) == P.Ok(One(AcuteSeq))
  {
    var s1 := P.Parsing([], P.Frame(0, P.None, Once(E_ACUTE)), 1);
    assert P.ReadOne(AcutePattern, 0, P.Nothing) == P.Ok((s1, 1));
    var s2 := s1.(top := P.Frame(0, P.None, Snoc(Nil, Star(E_ACUTE))));
    assert P.PostfixRun(AcutePattern, 1, false, false) == (true, true, 2);
    assert P.ReadOne(AcutePattern, 1, s1) == P.Ok((s2, 2));
    var s3 := s1.(top := P.Frame(0, P.None, AcuteSeq));
    assert P.ReadOne(AcutePattern, 2, s2) == P.Ok((s3, 3));
    var result := P.ReadFrom(AcutePattern, 3, s3);
    assert P.ReadFrom(AcutePattern, 2, s2) == result;
    assert P.ReadFrom(AcutePattern, 1, s1) == result;
    assert P.ReadFrom(AcutePattern, 0, P.Nothing) == result;
  }

  lemma AcuteCodeIs()
    ensures WellFormed(AcuteSeq) && ProperLoops(AcuteSeq) && SeqCode(AcuteSeq) == AcuteCode
  {
    StarCode(E_ACUTE);
    SnocCode(Snoc(Nil, Star(E_ACUTE)), Chars([E_ACUTE]));
    assert ItemCode(Chars([E_ACUTE])) == [1, 1, E_ACUTE];
  }

  lemma AcuteDenotes(text: seq<Byte>)
    requires |text| == 1 && text[0] == E_ACUTE
    ensures LangAlts(One(AcuteSeq), text, 0, 1)
  {
    assert text[0..1] == [E_ACUTE];
    assert Lang(Nil, text, 0, 0) && Cut(0, 0, 0) && Cut(0, 0, 1);
    assert LangItem(Star(E_ACUTE), text, 0, 0);
    assert Lang(Snoc(Nil, Star(E_ACUTE)), text, 0, 0);
    assert LangItem(Chars([E_ACUTE]), text, 0, 1);
  }

  lemma AcuteStart(text: seq<Byte>, c: seq<Byte>)
    requires |c| == 12 && c[0] == ON_FAILURE_JUMP && Target(c, 0) == 9 && c[3] == EXACTN && c[4] == 1 && c[5] == E_ACUTE
    requires c[6] == MAYBE_FINALIZE_JUMP && Target(c, 6) == 0 && c[9] == EXACTN && c[10] == 1 && c[11] == E_ACUTE
    requires text == [E_ACUTE]
    ensures LiveRun(text, Start(c, 0), 3) == At(c[6 := FINALIZE_JUMP], 0, 1, [])
  {
    Pushes(text, c, 0, 0, 9);
    RunTail(text, At(c, 0, 0, []), 3);
    Takes(text, c, 3, 0, [Point(9, 0)]);
    RunTail(text, At(c, 3, 0, [Point(9, 0)]), 2);
    assert SkipMemory(c, 9) == 9 && Decided(c, 6) == FINALIZE_JUMP;
    Finalized(text, c, c[6 := FINALIZE_JUMP], 6, 1, 0, Point(9, 0));
    RunTail(text, At(c, 6, 1, [Point(9, 0)]), 1);
  }

  lemma AcuteEnd(text: seq<Byte>, c: seq<Byte>)
    requires |c| == 12 && c[0] == ON_FAILURE_JUMP && Target(c, 0) == 9 && c[3] == EXACTN && c[4] == 1 && c[5] == E_ACUTE
    requires c[9] == EXACTN && c[10] == 1 && c[11] == E_ACUTE
    requires text == [E_ACUTE]
    ensures LiveRun(text, At(c, 0, 1, []), 5).config == Done(NoMatch)
  {
    Pushes(text, c, 0, 1, 9);
    RunTail(text, At(c, 0, 1, []), 5);
    var stack := [Point(9, 1)];
    assert LiveStep(text, At(c, 3, 1, stack)) == Live(c, INITIAL_ENTRIES, Failing(stack));
    RunTail(text, At(c, 3, 1, stack), 4);
    assert stack[..0] == [];
    RunTail(text, Live(c, INITIAL_ENTRIES, Failing(stack)), 3);
    assert LiveStep(text, At(c, 9, 1, [])) == Live(c, INITIAL_ENTRIES, Failing([]));
    RunTail(text, At(c, 9, 1, []), 2);
    RunTail(text, Live(c, INITIAL_ENTRIES, Failing([])), 1);
  }

  /** The same with one eight-bit character and no group. */
  lemma EightBitDefeatsDropping()
    ensures P.Parse(AcutePattern) == P.Ok(One(AcuteSeq)) && WellFormedAlts(One(AcuteSeq)) && ProperLoopsAlts(One(AcuteSeq))
    ensures LangAlts(One(AcuteSeq), AcuteText, 0, 1)
    ensures LiveRun(AcuteText, Start(AltsCode(One(AcuteSeq)), 0), 8).config == Done(NoMatch)
  {
    AcutePatternReads();
    AcuteCodeIs();
    AcuteDenotes(AcuteText);
    AcuteStart(AcuteText, AcuteCode);
    var c := AcuteCode[6 := FINALIZE_JUMP];
    AcuteEnd(AcuteText, c);
    MoreSteps(AcuteText, Start(AcuteCode, 0), 3, 8);
  }

  // ---- \(\)* on anything ----

  const EmptyPattern: seq<Byte> := ['\\' as int, '(' as int, '\\' as int, ')' as int, '*' as int]
  const EmptyGroup: Item := Group(1, One(Nil))
  const EmptyLoop: Seq := Snoc(Opened, Repeat(true, true, Snoc(Nil, EmptyGroup)))
  const EmptyCode: seq<Byte> := [12, 1, 5, 5, 0, 13, 1, 7, 248, 255]

  lemma EmptyPatternReads()
    ensures P.Parse(EmptyPattern) == P.Ok(One(EmptyLoop))
  {
    var s1 := P.Parsing([P.Frame(0, P.None, Opened)], P.Frame(1, P.None, Nil), 2);
    assert P.Open(P.Nothing) == s1 by {
      assert P.Nothing.outer + [P.Frame(0, P.None, Opened)] == s1.outer;
    }
    assert P.ReadEscape(EmptyPattern, 1, P.Nothing) == P.Ok((s1, 2));
    assert P.ReadOne(EmptyPattern, 0, P.Nothing) == P.Ok((s1, 2));
    var s2 := P.Parsing([], P.Frame(0, P.None, Snoc(Opened, EmptyGroup)), 2);
    assert P.ReadOne(EmptyPattern, 2, s1) == P.Ok((s2, 4));
    var s3 := s2.(top := P.Frame(0, P.None, EmptyLoop));
    assert P.PostfixRun(EmptyPattern, 4, false, false) == (true, true, 5);
    assert P.ReadOne(EmptyPattern, 4, s2) == P.Ok((s3, 5));
    var result := P.ReadFrom(EmptyPattern, 5, s3);
    assert P.ReadFrom(EmptyPattern, 4, s2) == result;
    assert P.ReadFrom(EmptyPattern, 2, s1) == result;
    assert P.ReadFrom(EmptyPattern, 0, P.Nothing) == result;
  }

  lemma EmptyCodeIs()
    ensures WellFormed(EmptyLoop) && SeqCode(EmptyLoop) == EmptyCode && !ProperLoops(EmptyLoop)
  {
    assert SeqCode(Nil) == [] && AltsCode(One(Nil)) == [];
    assert ItemCode(EmptyGroup) == [13, 1];
    assert SeqCode(Snoc(Nil, EmptyGroup)) == [13, 1];
    assert Jump(ON_FAILURE_JUMP, 5) == [5, 5, 0];
    assert Jump(MAYBE_FINALIZE_JUMP, -8) == [7, 248, 255];
    assert ItemCode(Repeat(true, true, Snoc(Nil, EmptyGroup))) == [5, 5, 0, 13, 1, 7, 248, 255];
    assert SeqCode(Opened) == [12, 1];
    assert Nullable(Snoc(Nil, EmptyGroup));
  }

  lemma OneEnd(init: Seq, last: Item, s: seq<Byte>, i: nat, j: nat)
    requires i <= |s| && j <= |s| && Matches(init, s, i) == [j] && MatchesItem(last, s, j) == [j]
    ensures Matches(Snoc(init, last), s, i) == [j]
  {
    D.MatchesSnoc(init, last, s, i);
  }

  /** An attempt to match a repetition of nothing ends on no text at all. */
  lemma EmptyLoopNeverEnds(text: seq<Byte>, pos: nat, steps: nat)
    requires pos <= |text|
    ensures P.Parse(EmptyPattern) == P.Ok(One(EmptyLoop)) && WellFormedAlts(One(EmptyLoop)) && !ProperLoopsAlts(One(EmptyLoop))
    ensures !LiveRun(text, Start(AltsCode(One(EmptyLoop)), pos), steps).config.Done?
  {
    EmptyPatternReads();
    EmptyCodeIs();
    var body := Snoc(Nil, EmptyGroup);
    assert SeqCode(Opened) + RepeatCode(true, true, SeqCode(body)) == EmptyCode;
    assert Matches(Nil, text, pos) == [pos];
    assert MatchesItem(EmptyGroup, text, pos) == [pos];
    OneEnd(Nil, EmptyGroup, text, pos, pos);
    OneEnd(Nil, StartMem(1), text, pos, pos);
    StuckNeverEnds(Opened, true, body, text, pos, steps);
  }

  // ---- a\| and the byte behind its program ----

  const BarPattern: seq<Byte> := [A, '\\' as int, '|' as int]
  const BarTree: Alts := More(One(Once(A)), Nil)
  const BarCode: seq<Byte> := [5, 6, 0, 1, 1, A, 4, 0, 0]

  lemma BarPatternReads()
    ensures P.Parse(BarPattern) == P.Ok(BarTree)
  {
    var s1 := P.Parsing([], P.Frame(0, P.None, Once(A)), 1);
    assert P.ReadOne(BarPattern, 0, P.Nothing) == P.Ok((s1, 1));
    var s2 := P.Parsing([], P.Frame(0, P.Some(One(Once(A))), Nil), 1);
    assert P.ReadEscape(BarPattern, 2, s1) == P.Ok((s2, 3));
    assert P.ReadOne(BarPattern, 1, s1) == P.Ok((s2, 3));
    var result := P.ReadFrom(BarPattern, 3, s2);
    assert P.ReadFrom(BarPattern, 1, s1) == result;
    assert P.ReadFrom(BarPattern, 0, P.Nothing) == result;
  }

  lemma BarCodeIs()
    ensures WellFormedAlts(BarTree) && AltsCode(BarTree) == BarCode
  {
    StarCode(A);
    assert SeqCode(Once(A)) == [1, 1, A] && SeqCode(Nil) == [];
    assert Jump(ON_FAILURE_JUMP, 6) == [5, 6, 0] && Jump(JUMP, 0) == [4, 0, 0];
    assert PrefixCode(One(Once(A)), 0) == BarCode;
  }

  /** An empty last alternative makes a program that ends in a jump to its own end, so that
      the traversal for the fastmap does not end there if an on_failure_jump lies behind. */
  lemma BarReadsOn(behind: seq<Byte>)
    requires |behind| >= 3 && behind[0] == ON_FAILURE_JUMP && DecodeOffset(behind[1], behind[2]) != -3
    ensures P.Parse(BarPattern) == P.Ok(BarTree) && WellFormedAlts(BarTree) && EndsInJump(AltsCode(BarTree))
    ensures !EndHarmless(AltsCode(BarTree), AltsCode(BarTree) + behind) && |AltsCode(BarTree)| == 9
    ensures FollowedTo(AltsCode(BarTree) + behind, 6) == 12 + DecodeOffset(behind[1], behind[2]) != |AltsCode(BarTree)|
  {
    BarPatternReads();
    BarCodeIs();
    var buffer := BarCode + behind;
    assert buffer[9..] == behind;
    assert buffer[9] == behind[0] && buffer[10] == behind[1] && buffer[11] == behind[2];
    assert Target(BarCode, 0) == 9 && CommandSize(BarCode, 0) == 3;
    assert CommandSize(BarCode, 3) == 3 && Target(BarCode, 6) == 9;
    assert Boundary(BarCode, 6, 6) && Boundary(BarCode, 3, 6) && Boundary(BarCode, 0, 6);
    ByteBehindEnd(buffer, 6);
  }
}
