/** The byte code a tree compiles to, and the layout facts about it. */
module RegexCode {
  import opened RegexSyntax

  /** Largest buffer for which every offset fits the two bytes of a jump. */
  const MAX_CODE := 0x8000

  // ---- Relative jumps ----

  /** What store_jump writes: the opcode, then the offset, low byte first. */
  function Jump(op: Byte, offset: int): seq<Byte> {
    [op, offset % 256, (offset / 256) % 256]
  }

  /** What SIGN_EXTEND_CHAR and the shift read back. */
  function DecodeOffset(lo: Byte, hi: Byte): int {
    lo + 256 * (if hi < 128 then hi else hi - 256)
  }

  lemma OffsetRoundTrip(op: Byte, offset: int)
    ensures DecodeOffset(Jump(op, offset)[1], Jump(op, offset)[2]) == offset
      <==> -0x8000 <= offset < 0x8000
  {
    var q := offset / 256;
    assert offset == 256 * q + offset % 256;
    if -0x8000 <= offset < 0x8000 {
      assert -128 <= q < 128;
    }
  }

  // ---- Code of a tree ----

  function ItemCode(e: Item): seq<Byte>
    requires WellFormedItem(e)
  {
    match e
    case Chars(chars) => [EXACTN, |chars|] + chars
    case Any => [ANYCHAR]
    case CharSet(negated, bits) => [if negated then CHARSET_NOT else CHARSET, |bits|] + bits
    case Word(inverted) => [if inverted then NOTWORDCHAR else WORDCHAR]
    case Test(op) => [op]
    case StartMem(reg) => [START_MEMORY, reg]
    case Group(reg, alts) => AltsCode(alts) + [STOP_MEMORY, reg]
    case Repeat(zero, many, body) => RepeatCode(zero, many, SeqCode(body))
  }

  /** An on_failure_jump past the loop, the operand, and for * and + a jump back;
      + starts by skipping the on_failure_jump. */
  function RepeatCode(zero: bool, many: bool, body: seq<Byte>): seq<Byte> {
    (if zero then [] else Jump(DUMMY_FAILURE_JUMP, 3))
    + Jump(ON_FAILURE_JUMP, |body| + if many then 3 else 0)
    + body
    + (if many then Jump(MAYBE_FINALIZE_JUMP, -(|body| + 6)) else [])
  }

  function SeqCode(e: Seq): seq<Byte>
    requires WellFormed(e)
  {
    match e
    case Nil => []
    case Snoc(init, last) => SeqCode(init) + ItemCode(last)
  }

  function AltsCode(e: Alts): seq<Byte>
    requires WellFormedAlts(e)
  {
    match e
    case One(only) => SeqCode(only)
    case More(others, final) => PrefixCode(others, |SeqCode(final)|) + SeqCode(final)
  }

  /** Every alternative of e guarded by an on_failure_jump and followed by a jump;
      the last jump has the given offset, each other one lands on the next jump. */
  function PrefixCode(e: Alts, offset: int): seq<Byte>
    requires WellFormedAlts(e)
  {
    match e
    case One(only) => GuardedCode(SeqCode(only)) + Jump(JUMP, offset)
    case More(others, final) =>
      PrefixCode(others, |SeqCode(final)| + 3) + GuardedCode(SeqCode(final)) + Jump(JUMP, offset)
  }

  function GuardedCode(alternative: seq<Byte>): seq<Byte> {
    Jump(ON_FAILURE_JUMP, |alternative| + 3) + alternative
  }

  // ---- Where code lies ----

  predicate SameByte(code: seq<Byte>, a: nat, block: seq<Byte>, i: nat)
    requires i < |block| && a + |block| <= |code|
  {
    code[a + i] == block[i]
  }

  /** The code holds the block at a. */
  predicate At(code: seq<Byte>, a: nat, block: seq<Byte>) {
    && a + |block| <= |code|
    && forall i: nat {:trigger SameByte(code, a, block, i)} :: i < |block| ==> SameByte(code, a, block, i)
  }

  lemma AtSlice(code: seq<Byte>, a: nat, block: seq<Byte>)
    requires a + |block| <= |code|
    ensures At(code, a, block) <==> code[a..a + |block|] == block
  {
    if At(code, a, block) {
      forall i: nat | i < |block| ensures code[a..a + |block|][i] == block[i] {
        assert SameByte(code, a, block, i);
      }
    }
    if code[a..a + |block|] == block {
      forall i: nat {:trigger SameByte(code, a, block, i)} | i < |block| ensures SameByte(code, a, block, i) {
        assert code[a + i] == code[a..a + |block|][i];
      }
    }
  }

  lemma AtSplit(code: seq<Byte>, a: nat, x: seq<Byte>, y: seq<Byte>)
    ensures At(code, a, x + y) <==> At(code, a, x) && At(code, a + |x|, y)
  {
    if a + |x| + |y| <= |code| {
      AtSlice(code, a, x + y);
      AtSlice(code, a, x);
      AtSlice(code, a + |x|, y);
      var whole := code[a..a + |x + y|];
      assert whole[..|x|] == code[a..a + |x|] && whole[|x|..] == code[a + |x|..a + |x| + |y|];
      assert whole == code[a..a + |x|] + code[a + |x|..a + |x| + |y|];
    }
  }

  lemma AtSplit3(code: seq<Byte>, a: nat, x: seq<Byte>, y: seq<Byte>, z: seq<Byte>)
    ensures At(code, a, x + y + z) <==> At(code, a, x) && At(code, a + |x|, y) && At(code, a + |x| + |y|, z)
  {
    AtSplit(code, a, x + y, z);
    AtSplit(code, a, x, y);
  }

  lemma AtByte(code: seq<Byte>, a: nat, block: seq<Byte>, i: nat)
    requires At(code, a, block) && i < |block|
    ensures code[a + i] == block[i]
  {
    assert SameByte(code, a, block, i);
  }

  /** A jump found in the code lands where it was meant to. */
  lemma AtJump(code: seq<Byte>, a: nat, op: Byte, offset: int)
    requires At(code, a, Jump(op, offset)) && -0x8000 <= offset < 0x8000
    ensures a + 3 <= |code| && code[a] == op && DecodeOffset(code[a + 1], code[a + 2]) == offset
  {
    OffsetRoundTrip(op, offset);
    AtByte(code, a, Jump(op, offset), 0);
    AtByte(code, a, Jump(op, offset), 1);
    AtByte(code, a, Jump(op, offset), 2);
  }

  lemma OnlyPrefix(e: Seq, offset: int)
    requires WellFormed(e)
    ensures PrefixCode(One(e), offset) == GuardedCode(SeqCode(e)) + Jump(JUMP, offset)
    ensures |PrefixCode(One(e), offset)| == |SeqCode(e)| + 6
  {
  }
}
