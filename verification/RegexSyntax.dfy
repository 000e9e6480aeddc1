/** Compiled regular expressions of gnu/os2/regex.c as trees.

    A `Seq` is one alternative: items in the order in which the compiler emits
    them.  An `Alts` is a whole (sub)expression: alternatives separated by \|.
    Two independent readings of a tree are given: `Lang`, the set of stretches
    of text it denotes, and `Matches`, the list of end positions in the order in
    which a backtracking matcher has to find them. */
module RegexSyntax {

  type Byte = x: int | 0 <= x < 256

  // Opcodes, numbered as in enum regexpcode of gnu/os2/regex.h.
  const EXACTN: Byte := 1
  const BEGLINE: Byte := 2
  const ENDLINE: Byte := 3
  const JUMP: Byte := 4
  const ON_FAILURE_JUMP: Byte := 5
  const FINALIZE_JUMP: Byte := 6
  const MAYBE_FINALIZE_JUMP: Byte := 7
  const DUMMY_FAILURE_JUMP: Byte := 8
  const ANYCHAR: Byte := 9
  const CHARSET: Byte := 10
  const CHARSET_NOT: Byte := 11
  const START_MEMORY: Byte := 12
  const STOP_MEMORY: Byte := 13
  const BEGBUF: Byte := 18
  const ENDBUF: Byte := 19
  const WORDCHAR: Byte := 20
  const NOTWORDCHAR: Byte := 21
  const WORDBEG: Byte := 22
  const WORDEND: Byte := 23
  const WORDBOUND: Byte := 24
  const NOTWORDBOUND: Byte := 25

  const NEWLINE: Byte := 10

  datatype Item =
    | Chars(chars: seq<Byte>)                     // exactn
    | Any                                         // .
    | CharSet(negated: bool, bits: seq<Byte>)     // [...] as a bitmap, low bit first
    | Word(inverted: bool)                        // \w, \W
    | Test(op: Byte)                              // ^ $ \< \> \b \B \` \'
    | StartMem(startReg: Byte)                    // the command \( emits
    | Group(reg: Byte, alts: Alts)                // what lies between, and the command \) emits
    | Repeat(zero: bool, many: bool, body: Seq)   // * + ?

  datatype Seq = Nil | Snoc(init: Seq, last: Item)

  datatype Alts = One(only: Seq) | More(others: Alts, final: Seq)

  // ---- Reading characters ----

  /** What stands at i, or the zero byte outside. */
  function Peek(s: seq<Byte>, i: int): Byte {
    if 0 <= i < |s| then s[i] else 0
  }

  predicate IsWordChar(c: Byte) {
    || 'a' as int <= c <= 'z' as int
    || 'A' as int <= c <= 'Z' as int
    || '0' as int <= c <= '9' as int
    || c == '_' as int
  }

  function Pow2(k: nat): nat {
    if k == 0 then 1 else 2 * Pow2(k - 1)
  }

  lemma Pow2Grows(i: nat, j: nat)
    requires i < j
    ensures 0 < Pow2(i) && 2 * Pow2(i) <= Pow2(j)
  {
  }

  /** Bit k of b, counted from the lowest. */
  predicate Bit(b: nat, k: nat) {
    if k == 0 then b % 2 == 1 else Bit(b / 2, k - 1)
  }

  predicate InBits(bits: seq<Byte>, c: Byte) {
    c < 8 * |bits| && Bit(bits[c / 8], c % 8)
  }

  /** Items that consume exactly one character. */
  predicate IsSingle(e: Item) {
    e.Any? || e.CharSet? || e.Word?
  }

  predicate Accepts(e: Item, c: Byte)
    requires IsSingle(e)
  {
    match e
    case Any => c != NEWLINE
    case CharSet(negated, bits) => InBits(bits, c) != negated
    case Word(inverted) => IsWordChar(c) != inverted
    case _ => false
  }

  // ---- Zero-width tests ----

  predicate IsTestOp(op: Byte) {
    || op == BEGLINE
    || op == ENDLINE
    || op == BEGBUF
    || op == ENDBUF
    || op == WORDBEG
    || op == WORDEND
    || op == WORDBOUND
    || op == NOTWORDBOUND
  }

  predicate AtWordBoundary(s: seq<Byte>, d: nat)
    requires d <= |s|
  {
    d == 0 || d == |s| || IsWordChar(s[d - 1]) != IsWordChar(s[d])
  }

  predicate TestHolds(op: Byte, s: seq<Byte>, d: nat)
    requires d <= |s|
  {
    if op == BEGLINE then d == 0 || s[d - 1] == NEWLINE
    else if op == ENDLINE then d == |s| || s[d] == NEWLINE
    else if op == BEGBUF then d == 0
    else if op == ENDBUF then d == |s|
    else if op == WORDBEG then d < |s| && IsWordChar(s[d]) && (d == 0 || !IsWordChar(s[d - 1]))
    else if op == WORDEND then 0 < d && IsWordChar(s[d - 1]) && (d == |s| || !IsWordChar(s[d]))
    else if op == WORDBOUND then AtWordBoundary(s, d)
    else !AtWordBoundary(s, d)
  }

  // ---- Which trees the compiler can build ----

  predicate NullableItem(e: Item) {
    match e
    case Chars(_) => false
    case Any => false
    case CharSet(_, _) => false
    case Word(_) => false
    case Test(_) => true
    case StartMem(_) => true
    case Group(_, alts) => NullableAlts(alts)
    case Repeat(zero, _, body) => zero || Nullable(body)
  }

  predicate Nullable(e: Seq) {
    match e
    case Nil => true
    case Snoc(init, last) => Nullable(init) && NullableItem(last)
  }

  predicate NullableAlts(e: Alts) {
    match e
    case One(only) => Nullable(only)
    case More(others, final) => NullableAlts(others) || Nullable(final)
  }

  /** Operand fields are what the encoding can hold. */
  predicate WellFormedItem(e: Item) {
    match e
    case Chars(chars) => 1 <= |chars| <= 127
    case Any => true
    case CharSet(_, bits) => |bits| <= 32
    case Word(_) => true
    case Test(op) => IsTestOp(op)
    case StartMem(_) => true
    case Group(_, alts) => WellFormedAlts(alts)
    case Repeat(zero, many, body) => (zero || many) && WellFormed(body)
  }

  predicate WellFormed(e: Seq) {
    match e
    case Nil => true
    case Snoc(init, last) => WellFormed(init) && WellFormedItem(last)
  }

  predicate WellFormedAlts(e: Alts) {
    match e
    case One(only) => WellFormed(only)
    case More(others, final) => WellFormedAlts(others) && WellFormed(final)
  }

  /** No operand of * or + can match the empty string. */
  predicate ProperLoopsItem(e: Item) {
    match e
    case Group(_, alts) => ProperLoopsAlts(alts)
    case Repeat(_, many, body) => ProperLoops(body) && (many ==> !Nullable(body))
    case _ => true
  }

  predicate ProperLoops(e: Seq) {
    match e
    case Nil => true
    case Snoc(init, last) => ProperLoops(init) && ProperLoopsItem(last)
  }

  predicate ProperLoopsAlts(e: Alts) {
    match e
    case One(only) => ProperLoops(only)
    case More(others, final) => ProperLoopsAlts(others) && ProperLoops(final)
  }

  predicate GroupFreeItem(e: Item) {
    match e
    case StartMem(_) => false
    case Group(_, _) => false
    case Repeat(_, _, body) => GroupFree(body)
    case _ => true
  }

  /** Nothing records what groups matched. */
  predicate GroupFree(e: Seq) {
    match e
    case Nil => true
    case Snoc(init, last) => GroupFree(init) && GroupFreeItem(last)
  }

  predicate GroupFreeAlts(e: Alts) {
    match e
    case One(only) => GroupFree(only)
    case More(others, final) => GroupFreeAlts(others) && GroupFree(final)
  }

  // ---- The stretches of text a tree denotes ----

  predicate Cut(i: nat, m: nat, j: nat) {
    i <= m <= j
  }

  ghost predicate LangItem(e: Item, s: seq<Byte>, i: nat, j: nat)
    decreases e, 0, 0
  {
    && i <= j <= |s|
    && match e
       case Chars(chars) => s[i..j] == chars
       case Any => j == i + 1 && Accepts(e, s[i])
       case CharSet(_, _) => j == i + 1 && Accepts(e, s[i])
       case Word(_) => j == i + 1 && Accepts(e, s[i])
       case Test(op) => i == j && TestHolds(op, s, i)
       case StartMem(_) => i == j
       case Group(_, alts) => LangAlts(alts, s, i, j)
       case Repeat(zero, many, body) =>
         || (zero && i == j)
         || if many then LangLoop(body, s, i, j) else Lang(body, s, i, j)
  }

  /** One or more repetitions; every repetition but the last moves forward. */
  ghost predicate LangLoop(body: Seq, s: seq<Byte>, i: nat, j: nat)
    decreases body, 1, j - i
  {
    i <= j && (Lang(body, s, i, j) || exists m: nat {:trigger Cut(i, m, j)} :: Cut(i, m, j) && i < m && Lang(body, s, i, m) && LangLoop(body, s, m, j))
  }

  ghost predicate Lang(e: Seq, s: seq<Byte>, i: nat, j: nat)
    decreases e, 0, 0
  {
    match e
    case Nil => i == j <= |s|
    case Snoc(init, last) => exists m: nat {:trigger Cut(i, m, j)} :: Cut(i, m, j) && Lang(init, s, i, m) && LangItem(last, s, m, j)
  }

  ghost predicate LangAlts(e: Alts, s: seq<Byte>, i: nat, j: nat)
    decreases e, 0, 0
  {
    match e
    case One(only) => Lang(only, s, i, j)
    case More(others, final) => LangAlts(others, s, i, j) || Lang(final, s, i, j)
  }

  // ---- The order in which end positions are found ----

  predicate Within(ends: seq<nat>, lo: nat, hi: nat) {
    forall i :: 0 <= i < |ends| ==> lo <= ends[i] <= hi
  }

  /** Leftmost alternative first, most repetitions first. */
  function MatchesItem(e: Item, s: seq<Byte>, d: nat): (ends: seq<nat>)
    requires d <= |s|
    ensures Within(ends, d, |s|)
    decreases e, 2, 0, 0
  {
    match e
    case Chars(chars) => if d + |chars| <= |s| && s[d..d + |chars|] == chars then [d + |chars|] else []
    case Any => if d < |s| && Accepts(e, s[d]) then [d + 1] else []
    case CharSet(_, _) => if d < |s| && Accepts(e, s[d]) then [d + 1] else []
    case Word(_) => if d < |s| && Accepts(e, s[d]) then [d + 1] else []
    case Test(op) => if TestHolds(op, s, d) then [d] else []
    case StartMem(_) => [d]
    case Group(_, alts) => MatchesAlts(alts, s, d)
    case Repeat(zero, many, body) =>
      (if many then ThenLoop(body, s, d, Matches(body, s, d)) else Matches(body, s, d))
      + (if zero then [d] else [])
  }

  /** After one repetition that moved past d, further repetitions or none. */
  function ThenLoop(body: Seq, s: seq<Byte>, d: nat, ends: seq<nat>): (all: seq<nat>)
    requires d <= |s| && Within(ends, d, |s|)
    ensures Within(all, d, |s|)
    decreases body, 1, |s| - d, |ends|
  {
    if ends == [] then []
    else
      (if ends[0] == d then []
       else ThenLoop(body, s, ends[0], Matches(body, s, ends[0])) + [ends[0]])
      + ThenLoop(body, s, d, ends[1..])
  }

  function Matches(e: Seq, s: seq<Byte>, d: nat): (ends: seq<nat>)
    requires d <= |s|
    ensures Within(ends, d, |s|)
    decreases e, 0, 0, 0
  {
    match e
    case Nil => [d]
    case Snoc(init, last) => ThenItem(last, s, d, Matches(init, s, d))
  }

  function ThenItem(e: Item, s: seq<Byte>, d: nat, ends: seq<nat>): (all: seq<nat>)
    requires d <= |s| && Within(ends, d, |s|)
    ensures Within(all, d, |s|)
    decreases e, 3, 0, |ends|
  {
    if ends == [] then []
    else MatchesItem(e, s, ends[0]) + ThenItem(e, s, d, ends[1..])
  }

  function MatchesAlts(e: Alts, s: seq<Byte>, d: nat): (ends: seq<nat>)
    requires d <= |s|
    ensures Within(ends, d, |s|)
    decreases e, 0, 0, 0
  {
    match e
    case One(only) => Matches(only, s, d)
    case More(others, final) => MatchesAlts(others, s, d) + Matches(final, s, d)
  }
}
