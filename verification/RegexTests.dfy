/** What the tests of a pattern mean: lines, buffers and words, told from the texts around
    the place tested. A newline divides a text into parts that are searched on their own. */
module RegexTests {
  import opened RegexSyntax
  import L = RegexLanguage
  import M = RegexMachine
  import F = RegexFind

  // ---- Which trees see lines only ----

  predicate LineTestsItem(e: Item) {
    match e
    case Test(op) => op == BEGLINE || op == ENDLINE
    case Group(_, alts) => LineTestsAlts(alts)
    case Repeat(_, _, body) => LineTests(body)
    case _ => true
  }

  /** All tests are ^ and $. */
  predicate LineTests(e: Seq) {
    match e
    case Nil => true
    case Snoc(init, last) => LineTests(init) && LineTestsItem(last)
  }

  predicate LineTestsAlts(e: Alts) {
    match e
    case One(only) => LineTests(only)
    case More(others, final) => LineTestsAlts(others) && LineTests(final)
  }

  predicate WithinLineItem(e: Item) {
    match e
    case Chars(chars) => NEWLINE !in chars
    case CharSet(_, _) => !Accepts(e, NEWLINE)
    case Word(inverted) => !inverted
    case Group(_, alts) => WithinLineAlts(alts)
    case Repeat(_, _, body) => WithinLine(body)
    case _ => true
  }

  /** No newline is consumed. */
  predicate WithinLine(e: Seq) {
    match e
    case Nil => true
    case Snoc(init, last) => WithinLine(init) && WithinLineItem(last)
  }

  predicate WithinLineAlts(e: Alts) {
    match e
    case One(only) => WithinLine(only)
    case More(others, final) => WithinLineAlts(others) && WithinLine(final)
  }

  // ---- A part of a text between newlines ----

  function Shifted(ends: seq<nat>, far: nat): (r: seq<nat>)
    ensures |r| == |ends| && forall k :: 0 <= k < |r| ==> r[k] == ends[k] + far
  {
    seq(|ends|, k requires 0 <= k < |ends| => ends[k] + far)
  }

  lemma ShiftedConcat(a: seq<nat>, b: seq<nat>, far: nat)
    ensures Shifted(a + b, far) == Shifted(a, far) + Shifted(b, far)
  {
  }

  lemma ShiftedTail(ends: seq<nat>, far: nat)
    requires ends != []
    ensures Shifted(ends, far)[1..] == Shifted(ends[1..], far)
  {
  }

  /** b stands at off in s, between newlines or the ends of s. */
  ghost predicate IsPart(s: seq<Byte>, b: seq<Byte>, off: nat) {
    && off + |b| <= |s| && s[off..off + |b|] == b
    && (off == 0 || s[off - 1] == NEWLINE)
    && (off + |b| == |s| || s[off + |b|] == NEWLINE)
  }

  lemma PartAt(s: seq<Byte>, b: seq<Byte>, off: nat, d: nat)
    requires IsPart(s, b, off) && d < |b|
    ensures off + d < |s| && s[off + d] == b[d]
  {
    assert s[off..off + |b|][d] == s[off + d];
  }

  lemma LineTestInPart(s: seq<Byte>, b: seq<Byte>, off: nat, op: Byte, d: nat)
    requires IsPart(s, b, off) && d <= |b| && (op == BEGLINE || op == ENDLINE)
    ensures off + d <= |s| && TestHolds(op, s, off + d) == TestHolds(op, b, d)
  {
    if d < |b| {
      PartAt(s, b, off, d);
    }
    if d > 0 {
      PartAt(s, b, off, d - 1);
    }
  }

  lemma CharsInPart(s: seq<Byte>, b: seq<Byte>, off: nat, chars: seq<Byte>, d: nat)
    requires IsPart(s, b, off) && d <= |b| && (off + |b| == |s| || NEWLINE !in chars)
    ensures off + d + |chars| <= |s| && s[off + d..off + d + |chars|] == chars
       <==> d + |chars| <= |b| && b[d..d + |chars|] == chars
  {
    if d + |chars| <= |b| {
      var there, here := s[off + d..off + d + |chars|], b[d..d + |chars|];
      forall k | 0 <= k < |chars| ensures there[k] == here[k] {
        PartAt(s, b, off, d + k);
      }
      assert there == here;
    } else if off + d + |chars| <= |s| {
      assert s[off + d..off + d + |chars|][|b| - d] == NEWLINE;
    }
  }

  lemma SingleInPart(e: Item, s: seq<Byte>, b: seq<Byte>, off: nat, d: nat)
    requires IsPart(s, b, off) && d <= |b| && IsSingle(e) && (off + |b| == |s| || WithinLineItem(e))
    ensures off + d < |s| && Accepts(e, s[off + d]) <==> d < |b| && Accepts(e, b[d])
  {
    if d < |b| {
      PartAt(s, b, off, d);
    }
  }

  /** Whether e stays in the part. */
  ghost predicate Stays(s: seq<Byte>, b: seq<Byte>, off: nat, within: bool) {
    IsPart(s, b, off) && (off + |b| == |s| || within)
  }

  lemma {:induction false} ItemInPart(e: Item, s: seq<Byte>, b: seq<Byte>, off: nat, d: nat)
    requires LineTestsItem(e) && Stays(s, b, off, WithinLineItem(e)) && d <= |b|
    ensures off + d <= |s| && MatchesItem(e, s, off + d) == Shifted(MatchesItem(e, b, d), off)
    decreases e, 2, 0, 0
  {
    hide IsPart, TestHolds, Accepts, ThenLoop, Matches, MatchesAlts;
    PartLength(s, b, off);
    match e
    case Chars(chars) => CharsInPart(s, b, off, chars, d);
    case Any => SingleInPart(e, s, b, off, d);
    case CharSet(_, _) => SingleInPart(e, s, b, off, d);
    case Word(_) => SingleInPart(e, s, b, off, d);
    case Test(op) => LineTestInPart(s, b, off, op, d);
    case StartMem(_) =>
    case Group(_, alts) => AltsInPart(alts, s, b, off, d);
    case Repeat(zero, many, body) =>
      SeqInPart(body, s, b, off, d);
      if many {
        LoopInPart(body, s, b, off, d, Matches(body, b, d));
      }
      RepeatInPart(zero, many, body, s, b, off, d);
  }

  lemma RepeatInPart(zero: bool, many: bool, body: Seq, s: seq<Byte>, b: seq<Byte>, off: nat, d: nat)
    requires d <= |b| && off + d <= |s|
    requires Matches(body, s, off + d) == Shifted(Matches(body, b, d), off)
    requires many ==> ThenLoop(body, s, off + d, Matches(body, s, off + d)) == Shifted(ThenLoop(body, b, d, Matches(body, b, d)), off)
    ensures MatchesItem(Repeat(zero, many, body), s, off + d) == Shifted(MatchesItem(Repeat(zero, many, body), b, d), off)
  {
    hide Matches, ThenLoop, MatchesItem, Shifted;
    RepeatEnds(zero, many, body, s, off + d);
    RepeatEnds(zero, many, body, b, d);
    var once := if many then ThenLoop(body, b, d, Matches(body, b, d)) else Matches(body, b, d);
    ShiftedConcat(once, if zero then [d] else [], off);
    NoneShifted(d, off);
  }

  lemma NoneShifted(d: nat, off: nat)
    ensures Shifted([], off) == [] && Shifted([d], off) == [off + d]
  {
  }

  lemma RepeatEnds(zero: bool, many: bool, body: Seq, s: seq<Byte>, d: nat)
    requires d <= |s|
    ensures MatchesItem(Repeat(zero, many, body), s, d)
         == (if many then ThenLoop(body, s, d, Matches(body, s, d)) else Matches(body, s, d)) + (if zero then [d] else [])
  {
    hide Matches, ThenLoop;
  }

  lemma NoLoop(body: Seq, s: seq<Byte>, d: nat)
    requires d <= |s|
    ensures ThenLoop(body, s, d, []) == [] && Shifted([], d) == []
  {
  }

  lemma LoopFirst(body: Seq, s: seq<Byte>, d: nat, ends: seq<nat>)
    requires d <= |s| && Within(ends, d, |s|) && ends != []
    ensures ThenLoop(body, s, d, ends)
         == (if ends[0] == d then [] else ThenLoop(body, s, ends[0], Matches(body, s, ends[0])) + [ends[0]])
              + ThenLoop(body, s, d, ends[1..])
  {
  }

  lemma PartLength(s: seq<Byte>, b: seq<Byte>, off: nat)
    requires IsPart(s, b, off)
    ensures off + |b| <= |s|
  {
  }

  lemma {:induction false} LoopInPart(body: Seq, s: seq<Byte>, b: seq<Byte>, off: nat, d: nat, ends: seq<nat>)
    requires LineTests(body) && Stays(s, b, off, WithinLine(body)) && d <= |b| && Within(ends, d, |b|)
    ensures off + d <= |s| && Within(Shifted(ends, off), off + d, |s|)
    ensures ThenLoop(body, s, off + d, Shifted(ends, off)) == Shifted(ThenLoop(body, b, d, ends), off)
    decreases body, 1, |b| - d, |ends|
  {
    hide IsPart, Matches, ThenLoop, Shifted;
    PartLength(s, b, off);
    if ends == [] {
      NoLoop(body, s, off + d);
      NoLoop(body, b, d);
    } else {
      ShiftedTail(ends, off);
      LoopFirst(body, s, off + d, Shifted(ends, off));
      LoopFirst(body, b, d, ends);
      LoopInPart(body, s, b, off, d, ends[1..]);
      var tail := ThenLoop(body, b, d, ends[1..]);
      var m := ends[0];
      if m == d {
        assert [] + tail == tail && [] + Shifted(tail, off) == Shifted(tail, off);
      } else {
        SeqInPart(body, s, b, off, m);
        LoopInPart(body, s, b, off, m, Matches(body, b, m));
        var more := ThenLoop(body, b, m, Matches(body, b, m));
        ShiftedConcat(more, [m], off);
        assert Shifted([m], off) == [off + m];
        ShiftedConcat(more + [m], tail, off);
      }
    }
  }

  lemma {:induction false} SeqInPart(e: Seq, s: seq<Byte>, b: seq<Byte>, off: nat, d: nat)
    requires LineTests(e) && Stays(s, b, off, WithinLine(e)) && d <= |b|
    ensures off + d <= |s| && Matches(e, s, off + d) == Shifted(Matches(e, b, d), off)
    decreases e, 0, 0, 0
  {
    hide IsPart;
    PartLength(s, b, off);
    match e
    case Nil =>
    case Snoc(init, last) =>
      SeqInPart(init, s, b, off, d);
      ThenInPart(last, s, b, off, d, Matches(init, b, d));
  }

  lemma {:induction false} ThenInPart(e: Item, s: seq<Byte>, b: seq<Byte>, off: nat, d: nat, ends: seq<nat>)
    requires LineTestsItem(e) && Stays(s, b, off, WithinLineItem(e)) && d <= |b| && Within(ends, d, |b|)
    ensures off + d <= |s| && Within(Shifted(ends, off), off + d, |s|)
    ensures ThenItem(e, s, off + d, Shifted(ends, off)) == Shifted(ThenItem(e, b, d, ends), off)
    decreases e, 3, 0, |ends|
  {
    hide IsPart, MatchesItem;
    PartLength(s, b, off);
    if ends != [] {
      ShiftedTail(ends, off);
      ItemInPart(e, s, b, off, ends[0]);
      ThenInPart(e, s, b, off, d, ends[1..]);
      ShiftedConcat(MatchesItem(e, b, ends[0]), ThenItem(e, b, d, ends[1..]), off);
    }
  }

  /** The ends that are found from a place in a part are those in the part alone. */
  lemma {:induction false} AltsInPart(e: Alts, s: seq<Byte>, b: seq<Byte>, off: nat, d: nat)
    requires LineTestsAlts(e) && Stays(s, b, off, WithinLineAlts(e)) && d <= |b|
    ensures off + d <= |s| && MatchesAlts(e, s, off + d) == Shifted(MatchesAlts(e, b, d), off)
    decreases e, 0, 0, 0
  {
    hide IsPart, Matches;
    PartLength(s, b, off);
    match e
    case One(only) => SeqInPart(only, s, b, off, d);
    case More(others, final) =>
      AltsInPart(others, s, b, off, d);
      SeqInPart(final, s, b, off, d);
      ShiftedConcat(MatchesAlts(others, b, d), Matches(final, b, d), off);
  }

  // ---- A search line by line ----

  lemma SeekInPart(e: Alts, s: seq<Byte>, b: seq<Byte>, off: nat, d: nat)
    requires LineTestsAlts(e) && Stays(s, b, off, WithinLineAlts(e)) && d <= |b|
    ensures off + d <= |s|
    ensures var o := L.Expected(e, b, d);
            L.Expected(e, s, off + d) == (if o.Match? then M.Match(off + o.end) else o) && (o.Match? || o == M.NoMatch)
  {
    hide IsPart, MatchesAlts;
    AltsInPart(e, s, b, off, d);
  }

  /** The first place in the part, looked for from d on. */
  lemma {:induction false} ScanInPart(e: Alts, s: seq<Byte>, b: seq<Byte>, off: nat, d: nat, more: nat)
    requires LineTestsAlts(e) && Stays(s, b, off, WithinLineAlts(e)) && d <= |b| && off + |b| + more == |s|
    ensures F.Scan(e, s, off + d, |s| - off - d)
         == if F.Scan(e, b, d, |b| - d) != -1 then off + F.Scan(e, b, d, |b| - d)
            else if more == 0 then -1 else F.Scan(e, s, off + |b| + 1, more - 1)
    decreases |b| - d
  {
    hide IsPart, L.Expected, WithinLineAlts, LineTestsAlts, F.Scan;
    SeekInPart(e, s, b, off, d);
    ScanStep(e, s, off + d, |s| - off - d);
    ScanStep(e, b, d, |b| - d);
    if d < |b| {
      ScanInPart(e, s, b, off, d + 1, more);
    }
  }

  lemma ScanStep(e: Alts, s: seq<Byte>, start: nat, range: nat)
    requires start + range <= |s|
    ensures F.Scan(e, s, start, range)
         == if L.Expected(e, s, start) != M.NoMatch then start else if range == 0 then -1 else F.Scan(e, s, start + 1, range - 1)
  {
    hide L.Expected;
  }

  lemma PartsOf(a: seq<Byte>, b: seq<Byte>)
    ensures IsPart(a + [NEWLINE] + b, a, 0) && IsPart(a + [NEWLINE] + b, b, |a| + 1)
  {
    var s := a + [NEWLINE] + b;
    assert s[0..0 + |a|] == a && s[|a| + 1..|a| + 1 + |b|] == b;
  }

  /** A text is searched as the part before a newline, and then the part behind it. */
  lemma SearchByLines(e: Alts, a: seq<Byte>, b: seq<Byte>)
    requires LineTestsAlts(e) && WithinLineAlts(e)
    ensures F.Scan(e, a + [NEWLINE] + b, 0, |a| + 1 + |b|)
         == if F.Scan(e, a, 0, |a|) != -1 then F.Scan(e, a, 0, |a|)
            else if F.Scan(e, b, 0, |b|) != -1 then |a| + 1 + F.Scan(e, b, 0, |b|) else -1
  {
    hide IsPart, F.Scan, WithinLineAlts, LineTestsAlts;
    PartsOf(a, b);
    ScanInPart(e, a + [NEWLINE] + b, a, 0, 0, 1 + |b|);
    ScanInPart(e, a + [NEWLINE] + b, b, |a| + 1, 0, 0);
  }

  // ---- Buffers and words ----

  /** Between two characters the tests see just these. */
  lemma BetweenCharacters(a: seq<Byte>, x: Byte, y: Byte, b: seq<Byte>)
    ensures var s, d := a + [x, y] + b, |a| + 1;
      && (TestHolds(BEGLINE, s, d) <==> x == NEWLINE)
      && (TestHolds(ENDLINE, s, d) <==> y == NEWLINE)
      && !TestHolds(BEGBUF, s, d) && !TestHolds(ENDBUF, s, d)
      && (TestHolds(WORDBEG, s, d) <==> !IsWordChar(x) && IsWordChar(y))
      && (TestHolds(WORDEND, s, d) <==> IsWordChar(x) && !IsWordChar(y))
      && (TestHolds(WORDBOUND, s, d) <==> TestHolds(WORDBEG, s, d) != TestHolds(WORDEND, s, d))
      && (TestHolds(NOTWORDBOUND, s, d) <==> !TestHolds(WORDBOUND, s, d))
  {
    var s := a + [x, y] + b;
    assert s[|a|] == x && s[|a| + 1] == y;
  }

  /** The ends of a text begin and end lines and the buffer, and bound words, even where no
      word is; words begin at the start and end at the end just where a word character is. */
  lemma AtTheEnds(s: seq<Byte>)
    ensures TestHolds(BEGLINE, s, 0) && TestHolds(BEGBUF, s, 0) && TestHolds(WORDBOUND, s, 0)
    ensures TestHolds(ENDLINE, s, |s|) && TestHolds(ENDBUF, s, |s|) && TestHolds(WORDBOUND, s, |s|)
    ensures !TestHolds(NOTWORDBOUND, s, 0) && !TestHolds(NOTWORDBOUND, s, |s|)
    ensures !TestHolds(WORDEND, s, 0) && !TestHolds(WORDBEG, s, |s|)
    ensures TestHolds(WORDBEG, s, 0) <==> s != [] && IsWordChar(s[0])
    ensures TestHolds(WORDEND, s, |s|) <==> s != [] && IsWordChar(s[|s| - 1])
  {
  }

  const CAPITALS: string := "ABCDEFGHIJKLMNOPQRSTUVWXYZ"
  const SMALL_LETTERS: string := "abcdefghijklmnopqrstuvwxyz"
  const DIGITS: string := "0123456789"

  lemma CapitalsAre(c: Byte)
    ensures c as char in CAPITALS <==> 65 <= c <= 90
  {
    if 65 <= c <= 90 {
      assert CAPITALS[c - 65] == c as char;
    }
  }

  lemma SmallLettersAre(c: Byte)
    ensures c as char in SMALL_LETTERS <==> 97 <= c <= 122
  {
    if 97 <= c <= 122 {
      assert SMALL_LETTERS[c - 97] == c as char;
    }
  }

  lemma DigitsAre(c: Byte)
    ensures c as char in DIGITS <==> 48 <= c <= 57
  {
    if 48 <= c <= 57 {
      assert DIGITS[c - 48] == c as char;
    }
  }

  /** The characters of words. */
  lemma WordCharacters(c: Byte)
    ensures IsWordChar(c) <==> c as char in CAPITALS || c as char in SMALL_LETTERS || c as char in DIGITS || c as char == '_'
  {
    hide CAPITALS, SMALL_LETTERS, DIGITS;
    CapitalsAre(c);
    SmallLettersAre(c);
    DigitsAre(c);
  }

  function Reversed(s: seq<Byte>): (r: seq<Byte>)
    ensures |r| == |s| && forall k :: 0 <= k < |s| ==> r[k] == s[|s| - 1 - k]
  {
    seq(|s|, k requires 0 <= k < |s| => s[|s| - 1 - k])
  }

  function Mirrored(op: Byte): Byte {
    if op == BEGLINE then ENDLINE else if op == ENDLINE then BEGLINE
    else if op == BEGBUF then ENDBUF else if op == ENDBUF then BEGBUF
    else if op == WORDBEG then WORDEND else if op == WORDEND then WORDBEG
    else op
  }

  /** In a text read backwards beginnings and ends change places. */
  lemma TestsMirror(op: Byte, s: seq<Byte>, d: nat)
    requires IsTestOp(op) && d <= |s|
    ensures TestHolds(Mirrored(op), Reversed(s), |s| - d) == TestHolds(op, s, d)
  {
    var r := Reversed(s);
    if d < |s| {
      assert r[|s| - d - 1] == s[d];
    }
    if d > 0 {
      assert r[|s| - d] == s[d - 1];
    }
  }
}
