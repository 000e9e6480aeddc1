/** What a pattern means: the tree re_compile_pattern reads it as, with
    obscure_syntax 0 and no translation.  Patterns are followed by a zero byte,
    which the compiler may look at. */
module RegexParse {
  import opened RegexSyntax

  datatype Error =
    | Invalid           // Invalid regular expression
    | UnmatchedOpen
    | UnmatchedClose
    | PrematureEnd
    | TooBig
    | Unmodelled        // a back-reference or a tenth group

  datatype Result<+T> = Ok(value: T) | Err(error: Error)

  /** Finished alternatives of an expression being read. */
  datatype Finished = None | Some(alts: Alts)

  /** An expression being read: the whole pattern, or the inside of group `reg`. */
  datatype Frame = Frame(reg: Byte, finished: Finished, current: Seq)

  datatype Parsing = Parsing(outer: seq<Frame>, top: Frame, regnum: nat)

  const MAX_GROUPS := 9

  // ---- Operands ----

  /** Something a postfix operator can apply to has been read. */
  predicate HasAtom(e: Seq) {
    e.Snoc? && (!(e.last.Test? || e.last.StartMem?) || HasAtom(e.init))
  }

  /** The operand of a postfix operator: the last atom and the tests after it. */
  function Operand(e: Seq): Seq
    requires HasAtom(e)
  {
    if e.last.Test? || e.last.StartMem? then Snoc(Operand(e.init), e.last) else Snoc(Nil, e.last)
  }

  function BeforeOperand(e: Seq): Seq
    requires HasAtom(e)
  {
    if e.last.Test? || e.last.StartMem? then BeforeOperand(e.init) else e.init
  }

  // ---- What each construct does to the expression being read ----

  function Add(st: Parsing, e: Item): Parsing {
    st.(top := st.top.(current := Snoc(st.top.current, e)))
  }

  predicate IsPostfix(c: Byte) {
    c == '*' as int || c == '+' as int || c == '?' as int
  }

  predicate EndsInChars(e: Seq) {
    e.Snoc? && e.last.Chars?
  }

  /** A character joins the string before it unless an operator follows it. */
  predicate Joins(e: Seq, next: Byte) {
    EndsInChars(e) && |e.last.chars| != 127 && !IsPostfix(next) && next != '^' as int
  }

  function AddChar(st: Parsing, c: Byte, next: Byte): Parsing {
    var e := st.top.current;
    if Joins(e, next) then st.(top := st.top.(current := Snoc(e.init, Chars(e.last.chars + [c]))))
    else Add(st, Chars([c]))
  }

  function Postfix(st: Parsing, zero: bool, many: bool): Parsing
    requires HasAtom(st.top.current)
  {
    var e := st.top.current;
    st.(top := st.top.(current := Snoc(BeforeOperand(e), Repeat(zero, many, Operand(e)))))
  }

  function Open(st: Parsing): Parsing
    requires st.regnum <= MAX_GROUPS
  {
    Parsing(st.outer + [Add(st, StartMem(st.regnum)).top], Frame(st.regnum, None, Nil), st.regnum + 1)
  }

  function Bar(st: Parsing): Parsing {
    st.(top := Frame(st.top.reg, Some(Finish(st.top)), Nil))
  }

  function Finish(f: Frame): Alts {
    match f.finished
    case None => One(f.current)
    case Some(alts) => More(alts, f.current)
  }

  function Close(st: Parsing): Parsing
    requires st.outer != []
  {
    var below := st.outer[|st.outer| - 1];
    Parsing(st.outer[..|st.outer| - 1],
            below.(current := Snoc(below.current, Group(st.top.reg, Finish(st.top)))), st.regnum)
  }

  // ---- Bracket expressions ----

  /** b |= 1 << k */
  function OrBit(b: Byte, k: nat): Byte
    requires k < 8
  {
    if Bit(b, k) then b
    else
      FitsInBits(b, k, 8);
      b + Pow2(k)
  }

  /** Setting a clear bit does not need more bits. */
  lemma {:induction false} FitsInBits(b: nat, k: nat, n: nat)
    requires b < Pow2(n) && k < n && !Bit(b, k)
    ensures b + Pow2(k) < Pow2(n)
    decreases n
  {
    if k > 0 {
      FitsInBits(b / 2, k - 1, n - 1);
    }
  }

  function SetBit(bits: seq<Byte>, c: Byte): seq<Byte>
    requires |bits| == 32
  {
    bits[c / 8 := OrBit(bits[c / 8], c % 8)]
  }

  function SetRange(bits: seq<Byte>, c: nat, hi: Byte): (r: seq<Byte>)
    requires |bits| == 32
    ensures |r| == 32
    decreases 256 - c
  {
    if c <= hi then SetRange(SetBit(bits, c), c + 1, hi) else bits
  }

  /** Trailing zero bytes are not stored. */
  function Trim(bits: seq<Byte>): (r: seq<Byte>)
    ensures |r| <= |bits|
  {
    if bits != [] && bits[|bits| - 1] == 0 then Trim(bits[..|bits| - 1]) else bits
  }

  /** A range lo-hi stands at p, right after its first character. */
  predicate RangeAt(pat: seq<Byte>, p: nat) {
    Peek(pat, p) == '-' as int && Peek(pat, p + 1) != ']' as int
  }

  /** Members of a bracket expression from p on; `first` is where its list starts. */
  function BracketFrom(pat: seq<Byte>, first: nat, p: nat, bits: seq<Byte>): Result<(seq<Byte>, nat)>
    requires p <= |pat| && |bits| == 32
    decreases |pat| - p
  {
    if p == |pat| then Err(PrematureEnd)
    else if pat[p] == ']' as int && p != first then Ok((bits, p + 1))
    else if RangeAt(pat, p + 1) then
      if p + 2 >= |pat| then Err(PrematureEnd)
      else BracketFrom(pat, first, p + 3, SetRange(bits, pat[p], pat[p + 2]))
    else BracketFrom(pat, first, p + 1, SetBit(bits, pat[p]))
  }

  // ---- Postfix operators ----

  /** A run of postfix operators counts as one. */
  function PostfixRun(pat: seq<Byte>, p: nat, zero: bool, many: bool): (bool, bool, nat)
    requires p <= |pat|
    decreases |pat| - p
  {
    if p < |pat| && IsPostfix(pat[p]) then
      PostfixRun(pat, p + 1, zero || pat[p] != '+' as int, many || pat[p] != '?' as int)
    else (zero, many, p)
  }

  // ---- Reading a pattern ----

  /** One construct at p: what has been read after it, and where it ends. */
  function ReadOne(pat: seq<Byte>, p: nat, st: Parsing): (r: Result<(Parsing, nat)>)
    requires p < |pat|
    ensures r.Ok? ==> p < r.value.1 <= |pat|
  {
    var c := pat[p];
    if c == '$' as int && EndsLine(pat, p + 1) then Ok((Add(st, Test(ENDLINE)), p + 1))
    else if c == '^' as int && (!HasAtom(st.top.current) || Peek(pat, p - 1) == NEWLINE) then
      Ok((Add(st, Test(BEGLINE)), p + 1))
    else if IsPostfix(c) && HasAtom(st.top.current) then
      var (zero, many, q) := PostfixRun(pat, p, false, false);
      assert p < q <= |pat| by { PostfixRunMoves(pat, p, false, false); }
      Ok((Postfix(st, zero, many), q))
    else if c == '.' as int then Ok((Add(st, Any), p + 1))
    else if c == '[' as int then ReadBracket(pat, p, st)
    else if c == '\\' as int then
      if p + 1 == |pat| then Err(Invalid) else ReadEscape(pat, p + 1, st)
    else Ok((AddChar(st, c, Peek(pat, p + 1)), p + 1))
  }

  /** $ is special only before the end of a line, an alternative or a group. */
  predicate EndsLine(pat: seq<Byte>, p: nat) {
    || p == |pat| || Peek(pat, p) == NEWLINE
    || (Peek(pat, p) == '\\' as int && (Peek(pat, p + 1) == ')' as int || Peek(pat, p + 1) == '|' as int))
  }

  function ReadBracket(pat: seq<Byte>, p: nat, st: Parsing): (r: Result<(Parsing, nat)>)
    requires p < |pat|
    ensures r.Ok? ==> p < r.value.1 <= |pat|
  {
    var inverted := Peek(pat, p + 1) == '^' as int;
    var first := if inverted then p + 2 else p + 1;
    match BracketFrom(pat, first, first, seq(32, _ => 0))
    case Err(error) => Err(error)
    case Ok((bits, q)) =>
      BracketMoves(pat, first, first, seq(32, _ => 0));
      Ok((Add(st, CharSet(inverted, Trim(bits))), q))
  }

  /** The character after a backslash. */
  function ReadEscape(pat: seq<Byte>, p: nat, st: Parsing): (r: Result<(Parsing, nat)>)
    requires p < |pat|
    ensures r.Ok? ==> p < r.value.1 <= |pat|
  {
    var c := pat[p];
    if c == '(' as int then
      if st.regnum <= MAX_GROUPS then Ok((Open(st), p + 1)) else Err(Unmodelled)
    else if c == ')' as int then
      if st.outer == [] then Err(UnmatchedClose) else Ok((Close(st), p + 1))
    else if c == '|' as int then Ok((Bar(st), p + 1))
    else if c == 'w' as int then Ok((Add(st, Word(false)), p + 1))
    else if c == 'W' as int then Ok((Add(st, Word(true)), p + 1))
    else if TestOfEscape(c) != 0 then Ok((Add(st, Test(TestOfEscape(c))), p + 1))
    else if IsReference(c, st) then Err(Unmodelled)
    else Ok((AddChar(st, c, Peek(pat, p + 1)), p + 1))
  }

  function TestOfEscape(c: Byte): Byte {
    if c == '<' as int then WORDBEG
    else if c == '>' as int then WORDEND
    else if c == 'b' as int then WORDBOUND
    else if c == 'B' as int then NOTWORDBOUND
    else if c == '`' as int then BEGBUF
    else if c == '\'' as int then ENDBUF
    else 0
  }

  /** A digit refers to a group that has been closed. */
  predicate IsReference(c: Byte, st: Parsing) {
    && '1' as int <= c <= '9' as int
    && c - '0' as int < st.regnum
    && !IsOpen(st, c - '0' as int)
  }

  /** Group reg has been opened and not been closed. */
  predicate IsOpen(st: Parsing, reg: int) {
    exists i :: 0 <= i < |st.outer| && reg == GroupAbove(st, i)
  }

  /** The group inside outer expression i. */
  function GroupAbove(st: Parsing, i: nat): Byte
    requires i < |st.outer|
  {
    if i + 1 < |st.outer| then st.outer[i + 1].reg else st.top.reg
  }

  function ReadFrom(pat: seq<Byte>, p: nat, st: Parsing): Result<Alts>
    requires p <= |pat|
    decreases |pat| - p
  {
    if p == |pat| then
      if st.outer == [] then Ok(Finish(st.top)) else Err(UnmatchedOpen)
    else
      match ReadOne(pat, p, st)
      case Err(error) => Err(error)
      case Ok((st', p')) => ReadFrom(pat, p', st')
  }

  const Nothing: Parsing := Parsing([], Frame(0, None, Nil), 1)

  /** The tree of a pattern. */
  function Parse(pat: seq<Byte>): Result<Alts> {
    ReadFrom(pat, 0, Nothing)
  }

  // ---- Positions ----

  lemma {:induction false} PostfixRunMoves(pat: seq<Byte>, p: nat, zero: bool, many: bool)
    requires p <= |pat|
    ensures var (_, _, q) := PostfixRun(pat, p, zero, many);
            p <= q <= |pat| && (p < |pat| && IsPostfix(pat[p]) ==> p < q)
    decreases |pat| - p
  {
    if p < |pat| && IsPostfix(pat[p]) {
      PostfixRunMoves(pat, p + 1, zero || pat[p] != '+' as int, many || pat[p] != '?' as int);
    }
  }

  lemma {:induction false} BracketMoves(pat: seq<Byte>, first: nat, p: nat, bits: seq<Byte>)
    requires p <= |pat| && |bits| == 32
    ensures var r := BracketFrom(pat, first, p, bits); r.Ok? ==> p < r.value.1 <= |pat| && |r.value.0| == 32
    decreases |pat| - p
  {
    if p < |pat| && !(pat[p] == ']' as int && p != first) {
      if RangeAt(pat, p + 1) {
        if p + 2 < |pat| {
          BracketMoves(pat, first, p + 3, SetRange(bits, pat[p], pat[p + 2]));
        }
      } else {
        BracketMoves(pat, first, p + 1, SetBit(bits, pat[p]));
      }
    }
  }
}
