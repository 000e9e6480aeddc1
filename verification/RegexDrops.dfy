/** Which maybe_finalize_jumps may drop a failure point without harm: those whose loop
    is followed by the end of the program, and those whose body passes straight through
    and starts with characters that what follows the loop refuses. */
module RegexDrops {
  import opened RegexSyntax
  import opened RegexCode
  import opened RegexMachine

  /** The command behind the memory commands at b. */
  function AfterMemory(code: seq<Byte>, b: nat): (x: nat)
    ensures b <= x
    decreases |code| - b
  {
    if b + 1 < |code| && (code[b] == START_MEMORY || code[b] == STOP_MEMORY) then AfterMemory(code, b + 2) else b
  }

  /** The command at q demands a character, or the end of a line. */
  predicate Demands(code: seq<Byte>, q: nat) {
    Decodes(code, q) && (code[q] == EXACTN || code[q] == ENDLINE || IsSingleOp(code[q]))
  }

  /** Before this character the command at q can succeed. */
  predicate Starts(code: seq<Byte>, q: nat, c: Byte)
    requires Demands(code, q)
  {
    if code[q] == EXACTN then code[q + 2] == c
    else if code[q] == ENDLINE then c == NEWLINE
    else Accepts(SingleItem(code, q), c)
  }

  /** What can start the command at q is refused by the first command from b on that
      demands something. */
  predicate Refuses(code: seq<Byte>, q: nat, b: nat) {
    var x := AfterMemory(code, b);
    && Demands(code, q) && code[q] != ENDLINE
    && Demands(code, x)
    && forall c: Byte {:trigger Starts(code, q, c)} :: Starts(code, q, c) ==> !Starts(code, x, c)
  }

  /** No jumps from q to end, so no failure points are made or dropped there. */
  predicate StraightAt(code: seq<Byte>, q: nat, end: nat)
    decreases end - q
  {
    || q == end
    || (q < end && Decodes(code, q) && !IsJumpOp(code[q]) && StraightAt(code, q + CommandSize(code, q), end))
  }

  /** The jump back at j may drop a failure point. */
  predicate LegalDrop(code: seq<Byte>, j: nat) {
    && j + 3 <= |code| && 0 <= Target(code, j)
    && (AfterMemory(code, j + 3) == |code|
        || (StraightAt(code, Target(code, j) + 3, j) && Refuses(code, Target(code, j) + 3, j + 3)))
  }

  predicate AllLegal(code: seq<Byte>, drops: set<nat>) {
    forall j :: j in drops ==> LegalDrop(code, j)
  }

  // ---- What passes straight through, as a tree ----

  predicate StraightItem(e: Item) {
    match e
    case Group(_, alts) => alts.One? && Straight(alts.only)
    case Repeat(_, _, _) => false
    case _ => true
  }

  /** Neither alternatives nor repetitions. */
  predicate Straight(e: Seq) {
    match e
    case Nil => true
    case Snoc(init, last) => Straight(init) && StraightItem(last)
  }

  /** Code without jumps is that of a straight tree, and what follows it is straight too. */
  lemma {:induction false} StraightTree(code: seq<Byte>, e: Seq, a: nat, end: nat)
    requires WellFormed(e) && At(code, a, SeqCode(e)) && StraightAt(code, a, end) && a + |SeqCode(e)| <= end
    ensures Straight(e) && StraightAt(code, a + |SeqCode(e)|, end)
    decreases e, 1
  {
    match e
    case Nil =>
    case Snoc(init, last) =>
      AtSplit(code, a, SeqCode(init), ItemCode(last));
      StraightTree(code, init, a, end);
      StraightItemTree(code, last, a + |SeqCode(init)|, end);
  }

  lemma {:induction false} StraightItemTree(code: seq<Byte>, e: Item, a: nat, end: nat)
    requires WellFormedItem(e) && At(code, a, ItemCode(e)) && StraightAt(code, a, end) && a + |ItemCode(e)| <= end
    ensures StraightItem(e) && StraightAt(code, a + |ItemCode(e)|, end)
    decreases e, 0
  {
    if e.Repeat? {
      AtByte(code, a, ItemCode(e), 0);
    } else if e.Group? {
      GroupTree(code, e.reg, e.alts, a, end);
    } else {
      SingleTree(code, e, a, end);
    }
  }

  lemma {:induction false} GroupTree(code: seq<Byte>, reg: Byte, alts: Alts, a: nat, end: nat)
    requires WellFormedAlts(alts) && At(code, a, AltsCode(alts) + [STOP_MEMORY, reg]) && StraightAt(code, a, end)
    requires a + |AltsCode(alts)| + 2 <= end
    ensures alts.One? && Straight(alts.only) && StraightAt(code, a + |AltsCode(alts)| + 2, end)
    decreases alts, 1
  {
    var b := a + |AltsCode(alts)|;
    AtSplit(code, a, AltsCode(alts), [STOP_MEMORY, reg]);
    AtByte(code, b, [STOP_MEMORY, reg], 0);
    if alts.More? {
      AlternativesJump(alts);
      AtByte(code, a, AltsCode(alts), 0);
    } else {
      StraightTree(code, alts.only, a, end);
    }
  }

  lemma SingleTree(code: seq<Byte>, e: Item, a: nat, end: nat)
    requires WellFormedItem(e) && !e.Group? && !e.Repeat? && At(code, a, ItemCode(e)) && StraightAt(code, a, end)
    requires a + |ItemCode(e)| <= end
    ensures StraightAt(code, a + |ItemCode(e)|, end)
  {
    AtByte(code, a, ItemCode(e), 0);
    if e.Chars? || e.CharSet? {
      AtByte(code, a, ItemCode(e), 1);
    }
  }

  lemma AlternativesJump(e: Alts)
    requires WellFormedAlts(e) && e.More?
    ensures AltsCode(e) != [] && AltsCode(e)[0] == ON_FAILURE_JUMP
  {
    PrefixJumps(e.others, |SeqCode(e.final)|);
  }

  lemma {:induction false} PrefixJumps(e: Alts, offset: int)
    requires WellFormedAlts(e)
    ensures PrefixCode(e, offset) != [] && PrefixCode(e, offset)[0] == ON_FAILURE_JUMP
  {
    if e.More? {
      PrefixJumps(e.others, |SeqCode(e.final)| + 3);
    }
  }

  /** A straight tree has at most one end position. */
  lemma {:induction false} StraightEnds(e: Seq, s: seq<Byte>, d: nat)
    requires Straight(e) && d <= |s|
    ensures |Matches(e, s, d)| <= 1
    decreases e, 1
  {
    if e.Snoc? {
      StraightEnds(e.init, s, d);
      MatchesSnoc(e.init, e.last, s, d);
      if Matches(e.init, s, d) != [] {
        StraightItemEnds(e.last, s, Matches(e.init, s, d)[0]);
      }
    }
  }

  lemma {:induction false} StraightItemEnds(e: Item, s: seq<Byte>, d: nat)
    requires StraightItem(e) && d <= |s|
    ensures |MatchesItem(e, s, d)| <= 1
    decreases e, 0
  {
    if e.Group? {
      StraightEnds(e.alts.only, s, d);
    }
  }

  lemma MatchesSnoc(init: Seq, last: Item, s: seq<Byte>, d: nat)
    requires d <= |s| && |Matches(init, s, d)| <= 1
    ensures var ends := Matches(init, s, d);
            Matches(Snoc(init, last), s, d) == if ends == [] then [] else MatchesItem(last, s, ends[0])
  {
    var ends := Matches(init, s, d);
    if ends != [] {
      assert ThenItem(last, s, d, ends) == MatchesItem(last, s, ends[0]) + ThenItem(last, s, d, ends[1..]);
    }
  }

  // ---- The first character of a straight tree ----

  /** Where a straight tree matches stands a character that can start its first command. */
  lemma {:induction false} StartOf(code: seq<Byte>, e: Seq, a: nat, s: seq<Byte>, d: nat)
    requires WellFormed(e) && Straight(e) && At(code, a, SeqCode(e)) && SeqCode(e) != [] && d <= |s|
    requires Demands(code, a) && code[a] != ENDLINE && Matches(e, s, d) != []
    ensures d < |s| && Starts(code, a, s[d])
    decreases e, 1
  {
    AtSplit(code, a, SeqCode(e.init), ItemCode(e.last));
    StraightEnds(e.init, s, d);
    MatchesSnoc(e.init, e.last, s, d);
    if SeqCode(e.init) == [] {
      NothingEmitted(e.init);
      StartOfItem(code, e.last, a, s, d);
    } else {
      StartOf(code, e.init, a, s, d);
    }
  }

  lemma NothingEmitted(e: Seq)
    requires WellFormed(e) && SeqCode(e) == []
    ensures e == Nil
  {
  }

  lemma {:induction false} StartOfItem(code: seq<Byte>, e: Item, a: nat, s: seq<Byte>, d: nat)
    requires WellFormedItem(e) && StraightItem(e) && At(code, a, ItemCode(e)) && d <= |s|
    requires Demands(code, a) && code[a] != ENDLINE && MatchesItem(e, s, d) != []
    ensures d < |s| && Starts(code, a, s[d])
    decreases e, 0
  {
    AtByte(code, a, ItemCode(e), 0);
    if e.Group? {
      AtSplit(code, a, AltsCode(e.alts), [STOP_MEMORY, e.reg]);
      StartOf(code, e.alts.only, a, s, d);
    } else if e.Chars? {
      AtByte(code, a, ItemCode(e), 2);
      assert s[d] == s[d..d + |e.chars|][0];
    } else if e.CharSet? {
      AtByte(code, a, ItemCode(e), 1);
      AtSplit(code, a, ItemCode(e)[..2], e.bits);
      AtSlice(code, a + 2, e.bits);
      assert ItemCode(e) == ItemCode(e)[..2] + e.bits;
    }
  }
}
