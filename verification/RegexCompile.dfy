/** re_compile_pattern: one pass that emits byte code, shifts what it has emitted to
    insert jumps, and fills in the jumps over alternatives late.  It is proved to
    leave exactly the code of the tree the pattern stands for. */
module RegexCompile {
  import opened RegexSyntax
  import opened RegexCode
  import opened RegexParse

  /** What \( saves: four numbers, with -1 for a null fixup_jump. */
  datatype Saved = Saved(start: nat, fixup: int, regnum: Byte, begalt: nat)

  // ---- The code of an expression being read ----

  /** Everything of a finished part but its last jump, which is not known yet. */
  function OpenPrefix(e: Alts): seq<Byte>
    requires WellFormedAlts(e)
  {
    match e
    case One(only) => GuardedCode(SeqCode(only))
    case More(others, final) => PrefixCode(others, |SeqCode(final)| + 3) + GuardedCode(SeqCode(final))
  }

  predicate WellFormedFrame(f: Frame) {
    WellFormed(f.current) && (f.finished.Some? ==> WellFormedAlts(f.finished.alts))
  }

  /** The bytes a .. end hold the frame; its last jump, at fixup, may hold anything. */
  predicate FrameAt(buf: seq<Byte>, f: Frame, a: nat, end: nat, fixup: int, begalt: nat) {
    && WellFormedFrame(f)
    && begalt + |SeqCode(f.current)| == end <= |buf|
    && At(buf, begalt, SeqCode(f.current))
    && match f.finished
       case None => begalt == a && fixup == -1
       case Some(alts) => fixup == a + |OpenPrefix(alts)| && begalt == fixup + 3 && At(buf, a, OpenPrefix(alts))
  }

  lemma AtKept(buf: seq<Byte>, buf': seq<Byte>, a: nat, block: seq<Byte>)
    requires At(buf, a, block) && a + |block| <= |buf'|
    requires forall i :: a <= i < a + |block| ==> buf'[i] == buf[i]
    ensures At(buf', a, block)
  {
    forall i: nat {:trigger SameByte(buf', a, block, i)} | i < |block| ensures SameByte(buf', a, block, i) {
      assert SameByte(buf, a, block, i);
    }
  }

  lemma FrameKept(buf: seq<Byte>, buf': seq<Byte>, f: Frame, a: nat, end: nat, fixup: int, begalt: nat)
    requires FrameAt(buf, f, a, end, fixup, begalt) && end <= |buf'|
    requires forall i :: a <= i < end && !(fixup <= i < fixup + 3 && fixup != -1) ==> buf'[i] == buf[i]
    ensures FrameAt(buf', f, a, end, fixup, begalt)
  {
    AtKept(buf, buf', begalt, SeqCode(f.current));
    if f.finished.Some? {
      AtKept(buf, buf', a, OpenPrefix(f.finished.alts));
    }
  }

  /** Storing the last jump completes the code of the expression. */
  lemma Completes(buf: seq<Byte>, f: Frame, a: nat, end: nat, fixup: int, begalt: nat)
    requires FrameAt(buf, f, a, end, fixup, begalt)
    requires fixup != -1 ==> At(buf, fixup, Jump(JUMP, end - (fixup + 3)))
    ensures WellFormedAlts(Finish(f)) && At(buf, a, AltsCode(Finish(f))) && a + |AltsCode(Finish(f))| == end
  {
    hide At, SeqCode, PrefixCode, OpenPrefix, ItemCode;
    if f.finished.Some? {
      var alts, n := f.finished.alts, |SeqCode(f.current)|;
      PrefixIsOpen(alts, n);
      AtSplit(buf, a, OpenPrefix(alts), Jump(JUMP, n));
      AtSplit(buf, a, PrefixCode(alts, n), SeqCode(f.current));
    }
  }

  lemma PrefixIsOpen(e: Alts, offset: int)
    requires WellFormedAlts(e)
    ensures PrefixCode(e, offset) == OpenPrefix(e) + Jump(JUMP, offset)
  {
  }

  /** Guarding the last alternative and letting the jump before it lead past it turns
      the expression into a finished part of a longer one. */
  lemma Extends(buf: seq<Byte>, f: Frame, a: nat, begalt: nat, end: nat, fixup: int)
    requires WellFormedFrame(f) && end <= |buf|
    requires At(buf, begalt, GuardedCode(SeqCode(f.current))) && begalt + |SeqCode(f.current)| + 3 == end
    requires match f.finished
             case None => begalt == a && fixup == -1
             case Some(alts) => fixup == a + |OpenPrefix(alts)| && begalt == fixup + 3 && At(buf, a, OpenPrefix(alts))
                                && At(buf, fixup, Jump(JUMP, end - (fixup + 3)))
    ensures WellFormedAlts(Finish(f)) && At(buf, a, OpenPrefix(Finish(f))) && a + |OpenPrefix(Finish(f))| == end
  {
    if f.finished.Some? {
      ExtendsMore(buf, f.finished.alts, f.current, |SeqCode(f.current)| + 3, a);
    }
  }

  lemma ExtendsMore(buf: seq<Byte>, alts: Alts, final: Seq, n: nat, a: nat)
    requires WellFormedAlts(alts) && WellFormed(final) && n == |SeqCode(final)| + 3
    requires At(buf, a, OpenPrefix(alts)) && At(buf, a + |OpenPrefix(alts)|, Jump(JUMP, n))
    requires At(buf, a + |OpenPrefix(alts)| + 3, GuardedCode(SeqCode(final)))
    ensures At(buf, a, OpenPrefix(More(alts, final)))
    ensures |OpenPrefix(More(alts, final))| == |OpenPrefix(alts)| + 3 + n
  {
    PrefixIsOpen(alts, n);
    AtSplit(buf, a, OpenPrefix(alts), Jump(JUMP, n));
    AtSplit(buf, a, PrefixCode(alts, n), GuardedCode(SeqCode(final)));
  }

  /** The code of an alternative splits where its last operand starts. */
  lemma {:induction false} OperandCode(e: Seq)
    requires HasAtom(e) && WellFormed(e)
    ensures WellFormed(BeforeOperand(e)) && WellFormed(Operand(e))
    ensures SeqCode(e) == SeqCode(BeforeOperand(e)) + SeqCode(Operand(e))
    decreases e
  {
    if e.last.Test? || e.last.StartMem? {
      OperandCode(e.init);
    } else {
      assert SeqCode(Snoc(Nil, e.last)) == SeqCode(Nil) + ItemCode(e.last) == ItemCode(e.last);
    }
  }

  // ---- Jumps in the buffer ----

  function StoredJump(buf: seq<Byte>, from: nat, op: Byte, to: int): (r: seq<Byte>)
    requires from + 3 <= |buf|
    ensures |r| == |buf|
  {
    buf[..from] + Jump(op, to - (from + 3)) + buf[from + 3..]
  }

  /** The piece from .. end moved up to make room for a block. */
  function InsertedBlock(buf: seq<Byte>, from: nat, end: nat, block: seq<Byte>): (r: seq<Byte>)
    requires from <= end && end + |block| <= |buf|
    ensures |r| == |buf|
  {
    buf[..from] + block + buf[from..end] + buf[end + |block|..]
  }

  function InsertedJump(buf: seq<Byte>, op: Byte, from: nat, to: int, end: nat): (r: seq<Byte>)
    requires from <= end && end + 3 <= |buf|
    ensures |r| == |buf|
  {
    InsertedBlock(buf, from, end, Jump(op, to - (from + 3)))
  }

  method StoreJump(buffer: array<Byte>, from: nat, op: Byte, to: int)
    requires from + 3 <= buffer.Length
    modifies buffer
    ensures buffer[..] == StoredJump(old(buffer[..]), from, op, to)
  {
    buffer[from] := op;
    buffer[from + 1] := (to - (from + 3)) % 256;
    buffer[from + 2] := ((to - (from + 3)) / 256) % 256;
  }

  /** Moves from .. end up by three and puts a jump to `to` in the gap. */
  method InsertJump(buffer: array<Byte>, op: Byte, from: nat, to: int, end: nat)
    requires from <= end && end + 3 <= buffer.Length
    modifies buffer
    ensures buffer[..] == InsertedJump(old(buffer[..]), op, from, to, end)
  {
    ghost var before := buffer[..];
    var pto, pfrom := end + 3, end;
    while pfrom != from
      invariant from <= pfrom <= end && pto == pfrom + 3
      invariant forall i :: 0 <= i < pto || end + 3 <= i < buffer.Length ==> buffer[i] == before[i]
      invariant forall i :: pto <= i < end + 3 ==> buffer[i] == before[i - 3]
    {
      pto, pfrom := pto - 1, pfrom - 1;
      buffer[pto] := buffer[pfrom];
    }
    ghost var moved := buffer[..];
    assert moved[from + 3..] == before[from..end] + before[end + 3..];
    assert moved[..from] == before[..from];
    StoreJump(buffer, from, op, to);
  }

  // ---- The compiler's state, as a value ----

  /** The compiler's pointers into the buffer, -1 for null. */
  datatype Regs = Regs(
    b: nat,               // end of the code emitted so far
    fixup: int,           // the jump still to be stored
    laststart: int,       // start of the operand of a postfix operator
    pending: int,         // count byte of the exactn last emitted
    begalt: nat,          // start of the current alternative
    stack: seq<Saved>)

  function Bottom(stack: seq<Saved>, k: nat): nat
    requires k <= |stack|
  {
    if k == 0 then 0 else stack[k - 1].start
  }

  /** Outer expression k lies below the code of the group read inside it. */
  ghost predicate OuterAt(buf: seq<Byte>, stack: seq<Saved>, st: Parsing, k: nat)
    requires k < |stack| == |st.outer|
  {
    && Bottom(stack, k) <= stack[k].start
    && FrameAt(buf, st.outer[k], Bottom(stack, k), stack[k].start, stack[k].fixup, stack[k].begalt)
    && stack[k].regnum == GroupAbove(st, k)
  }

  predicate InHole(fixup: int, i: int) {
    fixup != -1 && fixup <= i < fixup + 3
  }

  /** pending_exact plus its count reaches b exactly when an exactn comes last. */
  predicate PendingOk(buf: seq<Byte>, g: Regs, e: Seq)
    requires g.b <= |buf|
  {
    && (EndsInChars(e) ==> g.pending == g.b - |e.last.chars| - 1)
    && (g.pending != -1 ==>
          && 0 < g.pending < g.b
          && g.pending + buf[g.pending] + 1 <= g.b
          && (g.pending + buf[g.pending] + 1 == g.b ==> EndsInChars(e))
          && !InHole(g.fixup, g.pending)
          && forall k :: 0 <= k < |g.stack| ==> !InHole(g.stack[k].fixup, g.pending))
  }

  function LastStart(begalt: nat, e: Seq): int
    requires WellFormed(e)
  {
    if HasAtom(e) then
      OperandCode(e);
      begalt + |SeqCode(BeforeOperand(e))|
    else -1
  }

  ghost predicate OutersAt(buf: seq<Byte>, stack: seq<Saved>, st: Parsing) {
    && |st.outer| == |stack|
    && forall k: nat {:trigger OuterAt(buf, stack, st, k)} :: k < |stack| ==> OuterAt(buf, stack, st, k)
  }

  /** The buffer holds the code of what has been read. */
  ghost predicate Good(buf: seq<Byte>, g: Regs, st: Parsing) {
    && OutersAt(buf, g.stack, st)
    && Bottom(g.stack, |g.stack|) <= g.b <= |buf|
    && FrameAt(buf, st.top, Bottom(g.stack, |g.stack|), g.b, g.fixup, g.begalt)
    && g.laststart == LastStart(g.begalt, st.top.current)
    && PendingOk(buf, g, st.top.current)
  }

  // ---- How much code there is ----

  predicate WellFormedReading(st: Parsing) {
    WellFormedFrame(st.top) && forall k :: 0 <= k < |st.outer| ==> WellFormedFrame(st.outer[k])
  }

  /** The code of an expression so far, with the jump behind a finished part. */
  function FrameSize(f: Frame): nat
    requires WellFormedFrame(f)
  {
    (if f.finished.Some? then |OpenPrefix(f.finished.alts)| + 3 else 0) + |SeqCode(f.current)|
  }

  function OutersSize(outer: seq<Frame>): nat
    requires forall k :: 0 <= k < |outer| ==> WellFormedFrame(outer[k])
  {
    if outer == [] then 0 else OutersSize(outer[..|outer| - 1]) + FrameSize(outer[|outer| - 1])
  }

  /** The code of what has been read. */
  function CodeSize(st: Parsing): nat
    requires WellFormedReading(st)
  {
    OutersSize(st.outer) + FrameSize(st.top)
  }

  lemma {:induction false} BottomIs(buf: seq<Byte>, stack: seq<Saved>, st: Parsing, k: nat)
    requires OutersAt(buf, stack, st) && WellFormedReading(st) && k <= |stack|
    ensures Bottom(stack, k) == OutersSize(st.outer[..k])
    decreases k
  {
    if k > 0 {
      BottomIs(buf, stack, st, k - 1);
      assert OuterAt(buf, stack, st, k - 1);
      assert st.outer[..k][..k - 1] == st.outer[..k - 1];
    }
  }

  lemma SizeIs(buf: seq<Byte>, g: Regs, st: Parsing)
    requires Good(buf, g, st)
    ensures WellFormedReading(st) && g.b == CodeSize(st)
  {
    hide At, PendingOk, LastStart;
    forall k: nat | k < |st.outer| ensures WellFormedFrame(st.outer[k]) {
      assert OuterAt(buf, g.stack, st, k);
    }
    BottomIs(buf, g.stack, st, |g.stack|);
    assert st.outer[..|g.stack|] == st.outer;
  }

  /** Writing above the innermost expression leaves the others alone. */
  lemma OutersKept(buf: seq<Byte>, buf': seq<Byte>, stack: seq<Saved>, st: Parsing, st': Parsing)
    requires OutersAt(buf, stack, st) && st'.outer == st.outer && st'.top.reg == st.top.reg
    requires SameBelow(buf, buf', Bottom(stack, |stack|))
    ensures OutersAt(buf', stack, st')
  {
    forall k: nat {:trigger OuterAt(buf', stack, st', k)} | k < |stack| ensures OuterAt(buf', stack, st', k) {
      assert OuterAt(buf, stack, st, k);
      BottomsRise(buf, stack, st, k + 1);
      FrameKept(buf, buf', st.outer[k], Bottom(stack, k), stack[k].start, stack[k].fixup, stack[k].begalt);
    }
  }

  lemma {:induction false} BottomsRise(buf: seq<Byte>, stack: seq<Saved>, st: Parsing, k: nat)
    requires OutersAt(buf, stack, st) && k <= |stack|
    ensures Bottom(stack, k) <= Bottom(stack, |stack|)
    decreases |stack| - k
  {
    if k < |stack| {
      assert OuterAt(buf, stack, st, k);
      BottomsRise(buf, stack, st, k + 1);
    }
  }

  predicate SameBelow(buf: seq<Byte>, buf': seq<Byte>, n: nat) {
    n <= |buf| && n <= |buf'| && forall i :: 0 <= i < n ==> buf'[i] == buf[i]
  }

  // ---- One lemma per construct: what emitting its code achieves ----

  predicate IsZeroWidth(e: Item) {
    e.Test? || e.StartMem?
  }

  function AfterItem(g: Regs, e: Item): Regs
    requires WellFormedItem(e)
  {
    g.(b := g.b + |ItemCode(e)|,
       laststart := if IsZeroWidth(e) then g.laststart else g.b,
       pending := if e.Chars? then g.b + 1 else g.pending)
  }

  lemma ItemEmitted(buf: seq<Byte>, buf': seq<Byte>, g: Regs, st: Parsing, e: Item)
    requires Good(buf, g, st) && WellFormedItem(e) && SameBelow(buf, buf', g.b) && At(buf', g.b, ItemCode(e))
    requires !e.Group? && !e.Repeat?
    ensures Good(buf', AfterItem(g, e), Add(st, e))
  {
    var g', st' := AfterItem(g, e), Add(st, e);
    OutersKept(buf, buf', g.stack, st, st');
    FrameKept(buf, buf', st.top, Bottom(g.stack, |g.stack|), g.b, g.fixup, g.begalt);
    AtSplit(buf', g.begalt, SeqCode(st.top.current), ItemCode(e));
    AtByte(buf', g.b, ItemCode(e), 0);
    if e.Chars? {
      AtByte(buf', g.b, ItemCode(e), 1);
      HolesBelow(buf, g, st, g.b + 1);
    }
  }

  /** All jumps still to be stored lie below the current alternative. */
  lemma HolesBelow(buf: seq<Byte>, g: Regs, st: Parsing, i: nat)
    requires Good(buf, g, st) && g.begalt <= i
    ensures !InHole(g.fixup, i) && forall k :: 0 <= k < |g.stack| ==> !InHole(g.stack[k].fixup, i)
  {
    hide At, SeqCode, PendingOk;
    forall k: nat | k < |g.stack| ensures !InHole(g.stack[k].fixup, i) {
      assert OuterAt(buf, g.stack, st, k);
      BottomsRise(buf, g.stack, st, k + 1);
    }
  }

  lemma LastItemAt(buf: seq<Byte>, g: Regs, st: Parsing)
    requires Good(buf, g, st) && st.top.current.Snoc?
    ensures var e := st.top.current;
            && WellFormed(e)
            && At(buf, g.begalt, SeqCode(e.init))
            && At(buf, g.begalt + |SeqCode(e.init)|, ItemCode(e.last))
            && g.begalt + |SeqCode(e.init)| + |ItemCode(e.last)| == g.b
  {
    AtSplit(buf, g.begalt, SeqCode(st.top.current.init), ItemCode(st.top.current.last));
  }

  lemma PendingCount(buf: seq<Byte>, g: Regs, st: Parsing)
    requires Good(buf, g, st) && EndsInChars(st.top.current)
    ensures g.begalt < g.pending < g.b && g.pending + buf[g.pending] + 1 == g.b
    ensures buf[g.pending] == |st.top.current.last.chars|
  {
    hide OutersAt, FrameAt, LastStart, At, Bottom, SeqCode;
    LastItemAt(buf, g, st);
    AtByte(buf, g.begalt + |SeqCode(st.top.current.init)|, ItemCode(st.top.current.last), 1);
  }

  /** One more character in the exactn that comes last. */
  lemma CharJoined(buf: seq<Byte>, buf': seq<Byte>, g: Regs, st: Parsing, c: Byte)
    requires Good(buf, g, st) && EndsInChars(st.top.current) && |st.top.current.last.chars| < 127
    requires g.b < |buf| && 0 <= g.pending < |buf|
    requires buf' == buf[g.b := c][g.pending := |st.top.current.last.chars| + 1]
    ensures var e := st.top.current;
            Good(buf', g.(b := g.b + 1), st.(top := st.top.(current := Snoc(e.init, Chars(e.last.chars + [c])))))
  {
    hide OutersAt, FrameAt, At, Bottom;
    var e := st.top.current;
    var chars := e.last.chars;
    LastItemAt(buf, g, st);
    var mid := g.begalt + |SeqCode(e.init)|;
    PendingCount(buf, g, st);
    assert WellFormedItem(e.last) && mid + |chars| + 2 == g.b;
    CharsGrow(buf, buf', mid, chars, c);
    AtKept(buf, buf', g.begalt, SeqCode(e.init));
    AtSplit(buf', g.begalt, SeqCode(e.init), ItemCode(Chars(chars + [c])));
    CurrentReplaced(buf, buf', g, st, Snoc(e.init, Chars(chars + [c])), g.begalt, g.b + 1);
  }

  /** Rewriting the current alternative from some point on. */
  lemma CurrentReplaced(buf: seq<Byte>, buf': seq<Byte>, g: Regs, st: Parsing, e: Seq, m: nat, end: nat)
    requires Good(buf, g, st) && SameBelow(buf, buf', m) && g.begalt <= m && WellFormed(e)
    requires At(buf', g.begalt, SeqCode(e)) && g.begalt + |SeqCode(e)| == end
    ensures var st' := st.(top := st.top.(current := e));
            && OutersAt(buf', g.stack, st')
            && FrameAt(buf', st'.top, Bottom(g.stack, |g.stack|), end, g.fixup, g.begalt)
  {
    OutersKept(buf, buf', g.stack, st, st.(top := st.top.(current := e)));
    if st.top.finished.Some? {
      AtKept(buf, buf', Bottom(g.stack, |g.stack|), OpenPrefix(st.top.finished.alts));
    }
  }

  lemma CharsGrow(buf: seq<Byte>, buf': seq<Byte>, a: nat, chars: seq<Byte>, c: Byte)
    requires 1 <= |chars| < 127 && At(buf, a, ItemCode(Chars(chars))) && a + |chars| + 2 < |buf|
    requires buf' == buf[a + |chars| + 2 := c][a + 1 := |chars| + 1]
    ensures At(buf', a, ItemCode(Chars(chars + [c])))
  {
    var old', new' := ItemCode(Chars(chars)), ItemCode(Chars(chars + [c]));
    forall i: nat {:trigger SameByte(buf', a, new', i)} | i < |new'| ensures SameByte(buf', a, new', i) {
      if i < |old'| {
        AtByte(buf, a, old', i);
      }
    }
  }

  lemma OperandAt(buf: seq<Byte>, g: Regs, st: Parsing)
    requires Good(buf, g, st) && HasAtom(st.top.current)
    ensures var e := st.top.current;
            && WellFormed(BeforeOperand(e)) && WellFormed(Operand(e))
            && g.begalt <= g.laststart && At(buf, g.begalt, SeqCode(BeforeOperand(e)))
            && At(buf, g.laststart, SeqCode(Operand(e))) && g.laststart + |SeqCode(Operand(e))| == g.b
  {
    var e := st.top.current;
    OperandCode(e);
    AtSplit(buf, g.begalt, SeqCode(BeforeOperand(e)), SeqCode(Operand(e)));
  }

  lemma PostfixEmitted(buf: seq<Byte>, buf': seq<Byte>, g: Regs, st: Parsing, zero: bool, many: bool, code: seq<Byte>)
    requires Good(buf, g, st) && HasAtom(st.top.current) && (zero || many)
    requires 0 <= g.laststart && SameBelow(buf, buf', g.laststart)
    requires g.laststart + |code| == g.b && At(buf, g.laststart, code)
    requires At(buf', g.laststart, RepeatCode(zero, many, code))
    ensures Good(buf', g.(b := g.laststart + |RepeatCode(zero, many, code)|, pending := -1), Postfix(st, zero, many))
  {
    hide OutersAt, FrameAt, At, Bottom, RepeatCode;
    var e := st.top.current;
    var before, operand := BeforeOperand(e), Operand(e);
    OperandAt(buf, g, st);
    SameBlock(buf, g.laststart, code, SeqCode(operand));
    AtKept(buf, buf', g.begalt, SeqCode(before));
    var item := Repeat(zero, many, operand);
    AtSplit(buf', g.begalt, SeqCode(before), ItemCode(item));
    CurrentReplaced(buf, buf', g, st, Snoc(before, item), g.laststart, g.laststart + |RepeatCode(zero, many, code)|);
  }

  lemma SameBlock(buf: seq<Byte>, a: nat, x: seq<Byte>, y: seq<Byte>)
    requires At(buf, a, x) && At(buf, a, y) && |x| == |y|
    ensures x == y
  {
    AtSlice(buf, a, x);
    AtSlice(buf, a, y);
  }

  /** \( after its start_memory command. */
  lemma GroupOpened(buf: seq<Byte>, g: Regs, st: Parsing)
    requires st.regnum <= MAX_GROUPS && Good(buf, g, Add(st, StartMem(st.regnum)))
    ensures Good(buf, g.(fixup := -1, laststart := -1, begalt := g.b,
                         stack := g.stack + [Saved(g.b, g.fixup, st.regnum, g.begalt)]), Open(st))
  {
    hide AltsCode;
    var st1, stack' := Add(st, StartMem(st.regnum)), g.stack + [Saved(g.b, g.fixup, st.regnum, g.begalt)];
    forall k: nat {:trigger OuterAt(buf, stack', Open(st), k)} | k < |stack'| ensures OuterAt(buf, stack', Open(st), k) {
      if k < |g.stack| {
        assert OuterAt(buf, g.stack, st1, k);
      }
    }
    assert forall k :: 0 <= k < |stack'| ==> k < |g.stack| || stack'[k].fixup == g.fixup;
  }

  /** The buffer differs below n at most in the jump at fixup. */
  predicate SameButHole(buf: seq<Byte>, buf': seq<Byte>, n: nat, fixup: int) {
    n <= |buf| && n <= |buf'| && forall i :: 0 <= i < n && !InHole(fixup, i) ==> buf'[i] == buf[i]
  }

  predicate HoleLeads(buf: seq<Byte>, fixup: int, to: nat) {
    fixup != -1 ==> 0 <= fixup && At(buf, fixup, Jump(JUMP, to - (fixup + 3)))
  }

  /** \) : what was read becomes the last item of the expression around it. */
  lemma GroupClosed(buf: seq<Byte>, buf': seq<Byte>, g: Regs, st: Parsing)
    requires Good(buf, g, st) && st.outer != []
    requires SameButHole(buf, buf', g.b, g.fixup) && HoleLeads(buf', g.fixup, g.b)
    requires At(buf', g.b, [STOP_MEMORY, st.top.reg])
    ensures var saved := g.stack[|g.stack| - 1];
            && saved.regnum == st.top.reg
            && Good(buf', Regs(g.b + 2, saved.fixup, saved.start, g.pending, saved.begalt, g.stack[..|g.stack| - 1]), Close(st))
  {
    var n := |g.stack| - 1;
    var stack' := g.stack[..n];
    assert OuterAt(buf, g.stack, st, n);
    ParentGrows(buf, buf', g, st, g.stack[n]);
    PoppedOuters(buf, buf', g, st);
    assert forall k :: 0 <= k < |stack'| ==> stack'[k] == g.stack[k];
  }

  lemma ParentGrows(buf: seq<Byte>, buf': seq<Byte>, g: Regs, st: Parsing, saved: Saved)
    requires Good(buf, g, st) && st.outer != [] && saved == g.stack[|g.stack| - 1]
    requires SameButHole(buf, buf', g.b, g.fixup) && HoleLeads(buf', g.fixup, g.b)
    requires At(buf', g.b, [STOP_MEMORY, st.top.reg])
    ensures FrameAt(buf', Close(st).top, Bottom(g.stack, |g.stack| - 1), g.b + 2, saved.fixup, saved.begalt)
    ensures saved.start == LastStart(saved.begalt, Close(st).top.current)
  {
    assert g.b + 2 <= |buf'|;
    hide PendingOk, SeqCode, AltsCode, At;
    var n := |g.stack| - 1;
    var below, group := st.outer[n], Group(st.top.reg, Finish(st.top));
    assert OuterAt(buf, g.stack, st, n);
    FrameKept(buf, buf', st.top, saved.start, g.b, g.fixup, g.begalt);
    Completes(buf', st.top, saved.start, g.b, g.fixup, g.begalt);
    AtSplit(buf', saved.start, AltsCode(Finish(st.top)), [STOP_MEMORY, st.top.reg]);
    HoleAbove(buf, g, st);
    FrameKept(buf, buf', below, Bottom(g.stack, n), saved.start, saved.fixup, saved.begalt);
    FrameAddItem(buf', below, group, Bottom(g.stack, n), saved.start, g.b + 2, saved.fixup, saved.begalt);
  }

  /** An item behind what a frame has. */
  lemma FrameAddItem(buf: seq<Byte>, f: Frame, item: Item, a: nat, s: nat, end: nat, fixup: int, begalt: nat)
    requires WellFormedItem(item) && FrameAt(buf, f, a, s, fixup, begalt)
    requires WellFormed(Snoc(f.current, item)) && At(buf, s, ItemCode(item)) && s + |ItemCode(item)| == end <= |buf|
    ensures FrameAt(buf, f.(current := Snoc(f.current, item)), a, end, fixup, begalt)
  {
    hide At, ItemCode;
    AtSplit(buf, begalt, SeqCode(f.current), ItemCode(item));
  }

  lemma HoleAbove(buf: seq<Byte>, g: Regs, st: Parsing)
    requires Good(buf, g, st)
    ensures g.fixup != -1 ==> Bottom(g.stack, |g.stack|) <= g.fixup
  {
  }

  lemma PoppedOuters(buf: seq<Byte>, buf': seq<Byte>, g: Regs, st: Parsing)
    requires Good(buf, g, st) && st.outer != [] && SameButHole(buf, buf', g.b, g.fixup)
    ensures OutersAt(buf', g.stack[..|g.stack| - 1], Close(st))
  {
    var stack', st' := g.stack[..|g.stack| - 1], Close(st);
    HoleAbove(buf, g, st);
    forall k: nat {:trigger OuterAt(buf', stack', st', k)} | k < |stack'| ensures OuterAt(buf', stack', st', k) {
      assert OuterAt(buf, g.stack, st, k);
      BottomsRise(buf, g.stack, st, k + 1);
      FrameKept(buf, buf', st.outer[k], Bottom(g.stack, k), g.stack[k].start, g.stack[k].fixup, g.stack[k].begalt);
      assert Bottom(stack', k) == Bottom(g.stack, k);
    }
  }

  /** \| : the alternative is guarded, the jump before it filled in, and a new jump left open. */
  lemma AlternativeEnded(buf: seq<Byte>, buf': seq<Byte>, g: Regs, st: Parsing)
    requires Good(buf, g, st) && SameButHole(buf, buf', g.begalt, g.fixup) && HoleLeads(buf', g.fixup, g.b + 3)
    requires At(buf', g.begalt, GuardedCode(SeqCode(st.top.current))) && g.b + 6 <= |buf'|
    ensures Good(buf', g.(b := g.b + 6, fixup := g.b + 3, laststart := -1, pending := -1, begalt := g.b + 6), Bar(st))
  {
    var a := Bottom(g.stack, |g.stack|);
    HoleAbove(buf, g, st);
    if st.top.finished.Some? {
      AtKept(buf, buf', a, OpenPrefix(st.top.finished.alts));
    }
    Extends(buf', st.top, a, g.begalt, g.b + 3, g.fixup);
    OutersKept(buf, buf', g.stack, st, Bar(st));
  }

  /** At the end of the pattern. */
  lemma PatternEnded(buf: seq<Byte>, buf': seq<Byte>, g: Regs, st: Parsing)
    requires Good(buf, g, st) && st.outer == []
    requires SameButHole(buf, buf', g.b, g.fixup) && HoleLeads(buf', g.fixup, g.b)
    ensures WellFormedAlts(Finish(st.top)) && buf'[..g.b] == AltsCode(Finish(st.top))
  {
    FrameKept(buf, buf', st.top, 0, g.b, g.fixup, g.begalt);
    Completes(buf', st.top, 0, g.b, g.fixup, g.begalt);
    AtSlice(buf', 0, AltsCode(Finish(st.top)));
  }

  // ---- The bytes after each construct ----

  /** Nothing has been written above the code. */
  predicate ZeroAbove(buf: seq<Byte>, b: nat) {
    forall i :: b <= i < |buf| ==> buf[i] == 0
  }

  ghost predicate Sound(buf: seq<Byte>, g: Regs, st: Parsing) {
    Good(buf, g, st) && ZeroAbove(buf, g.b)
  }

  /** buf with a block put in at b. */
  function Written(buf: seq<Byte>, b: nat, block: seq<Byte>): (r: seq<Byte>)
    requires b + |block| <= |buf|
    ensures |r| == |buf|
  {
    buf[..b] + block + buf[b + |block|..]
  }

  lemma WrittenAt(buf: seq<Byte>, b: nat, block: seq<Byte>)
    requires b + |block| <= |buf|
    ensures var buf' := Written(buf, b, block);
            && SameBelow(buf, buf', b) && At(buf', b, block)
            && forall i :: b + |block| <= i < |buf| ==> buf'[i] == buf[i]
  {
    var buf' := Written(buf, b, block);
    AtSlice(buf', b, block);
    assert buf'[b..b + |block|] == block;
  }

  lemma WroteItem(buf: seq<Byte>, g: Regs, st: Parsing, e: Item)
    requires Sound(buf, g, st) && WellFormedItem(e) && !e.Group? && !e.Repeat? && g.b + |ItemCode(e)| <= |buf|
    ensures Sound(Written(buf, g.b, ItemCode(e)), AfterItem(g, e), Add(st, e))
  {
    WrittenAt(buf, g.b, ItemCode(e));
    ItemEmitted(buf, Written(buf, g.b, ItemCode(e)), g, st, e);
  }

  /** The test made in the code for joining decides as Joins does. */
  lemma JoinTest(buf: seq<Byte>, g: Regs, st: Parsing, next: Byte)
    requires Good(buf, g, st)
    ensures g.pending != -1 ==> 0 < g.pending < |buf|
    ensures Joins(st.top.current, next)
       <==> !(g.pending == -1 || g.pending + buf[g.pending] + 1 != g.b || buf[g.pending] == 127
              || IsPostfix(next) || next == '^' as int)
    ensures EndsInChars(st.top.current) ==> 0 < g.pending && buf[g.pending] == |st.top.current.last.chars| <= 127
  {
    if EndsInChars(st.top.current) {
      PendingCount(buf, g, st);
      assert WellFormedItem(st.top.current.last);
    }
  }

  lemma JoinedChar(buf: seq<Byte>, g: Regs, st: Parsing, c: Byte, next: Byte)
    requires Sound(buf, g, st) && Joins(st.top.current, next) && g.b < |buf|
    ensures 0 < g.pending < |buf| && buf[g.pending] < 127
    ensures Sound(buf[g.b := c][g.pending := buf[g.pending] + 1], g.(b := g.b + 1), AddChar(st, c, next))
  {
    JoinTest(buf, g, st, next);
    CharJoined(buf, buf[g.b := c][g.pending := buf[g.pending] + 1], g, st, c);
  }

  /** The bytes after `back` has been appended to a piece and `guard` and then `lead`
      inserted in front of it. */
  function LoopBytes(buf: seq<Byte>, from: nat, end: nat, guard: seq<Byte>, back: seq<Byte>, lead: seq<Byte>): seq<Byte>
    requires from <= end && end + 9 <= |buf| && |guard| == 3 && |back| <= 3 && |lead| <= 3
  {
    var e := end + |back|;
    InsertedBlock(InsertedBlock(Written(buf, end, back), from, e, guard), from, e + 3, lead)
  }

  function Lead(zero: bool): (r: seq<Byte>)
    ensures |r| == if zero then 0 else 3
  {
    if zero then [] else Jump(DUMMY_FAILURE_JUMP, 3)
  }

  function Guard(n: nat, many: bool): (r: seq<Byte>)
    ensures |r| == 3
  {
    Jump(ON_FAILURE_JUMP, n + if many then 3 else 0)
  }

  function Back(n: nat, many: bool): (r: seq<Byte>)
    ensures |r| == if many then 3 else 0
  {
    if many then Jump(MAYBE_FINALIZE_JUMP, -(n + 6)) else []
  }

  function PostfixBytes(buf: seq<Byte>, from: nat, end: nat, zero: bool, many: bool): seq<Byte>
    requires from <= end && end + 9 <= |buf|
  {
    LoopBytes(buf, from, end, Guard(end - from, many), Back(end - from, many), Lead(zero))
  }

  function PostfixEnd(end: nat, zero: bool, many: bool): nat {
    end + (if many then 3 else 0) + (if zero then 3 else 6)
  }

  lemma PostfixBytesAre(buf: seq<Byte>, from: nat, end: nat, zero: bool, many: bool)
    requires from <= end && end + 9 <= |buf|
    ensures PostfixEnd(end, zero, many) == from + |RepeatCode(zero, many, buf[from..end])|
    ensures PostfixBytes(buf, from, end, zero, many) == Written(buf, from, RepeatCode(zero, many, buf[from..end]))
  {
    TwoInsertions(buf, from, end, Guard(end - from, many), Back(end - from, many), Lead(zero));
  }

  /** Appending a block and inserting two in front, whatever the blocks hold. */
  lemma TwoInsertions(buf: seq<Byte>, from: nat, end: nat, guard: seq<Byte>, back: seq<Byte>, lead: seq<Byte>)
    requires from <= end && end + 9 <= |buf| && |guard| == 3 && |back| <= 3 && |lead| <= 3
    ensures LoopBytes(buf, from, end, guard, back, lead) == Written(buf, from, lead + guard + buf[from..end] + back)
  {
    var looped, e, code := Written(buf, end, back), end + |back|, buf[from..end];
    WrittenSlice(buf, from, end, back);
    Inserted(looped, from, e, guard);
    var inner := guard + (code + back);
    Rewritten(buf, looped, from, e + 3, inner);
    var guarded := Written(buf, from, inner);
    WrittenSlice(buf, from, from, inner);
    Inserted(guarded, from, e + 3, lead);
    assert lead + inner == lead + guard + code + back;
    Rewritten(buf, guarded, from, e + 3 + |lead|, lead + inner);
  }

  // The three steps in which the code builds a loop.

  lemma BackStored(buf: seq<Byte>, from: nat, end: nat)
    requires from <= end && end + 3 <= |buf|
    ensures StoredJump(buf, end, MAYBE_FINALIZE_JUMP, from - 3) == Written(buf, end, Back(end - from, true))
  {
    assert from - 3 - (end + 3) == -(end - from + 6);
  }

  lemma GuardInserted(buf: seq<Byte>, from: nat, n: nat, many: bool)
    requires from + n + (if many then 6 else 3) <= |buf|
    ensures var e := from + n + if many then 3 else 0;
            InsertedJump(buf, ON_FAILURE_JUMP, from, e + 3, e) == InsertedBlock(buf, from, e, Guard(n, many))
  {
    var e := from + n + if many then 3 else 0;
    assert e + 3 - (from + 3) == n + if many then 3 else 0;
  }

  lemma LoopDone(buf: seq<Byte>, from: nat, end: nat, e: nat, zero: bool, many: bool, looped: seq<Byte>, guarded: seq<Byte>, after: seq<Byte>)
    requires from <= end && end + 9 <= |buf| && e == end + |Back(end - from, many)|
    requires looped == Written(buf, end, Back(end - from, many))
    requires guarded == InsertedBlock(looped, from, e, Guard(end - from, many))
    requires after == InsertedBlock(guarded, from, e + 3, Lead(zero))
    ensures after == PostfixBytes(buf, from, end, zero, many)
  {
  }

  lemma NothingInserted(buf: seq<Byte>, from: nat, end: nat)
    requires from <= end <= |buf|
    ensures InsertedBlock(buf, from, end, []) == buf
  {
  }

  lemma Appended(buf: seq<Byte>, end: nat, block: seq<Byte>)
    requires end + |block| <= |buf|
    ensures block == [] ==> Written(buf, end, block) == buf
  {
  }

  /** Inserting a block in front of a piece, in terms of what is written. */
  lemma Inserted(buf: seq<Byte>, from: nat, end: nat, block: seq<Byte>)
    requires from <= end && end + |block| <= |buf|
    ensures InsertedBlock(buf, from, end, block) == Written(buf, from, block + buf[from..end])
  {
  }

  lemma WrittenSlice(buf: seq<Byte>, from: nat, end: nat, block: seq<Byte>)
    requires from <= end && end + |block| <= |buf|
    ensures var buf' := Written(buf, end, block);
            && buf'[from..end + |block|] == buf[from..end] + block
            && buf'[..from] == buf[..from]
            && forall k :: end + |block| <= k <= |buf| ==> buf'[k..] == buf[k..]
  {
  }

  /** Writing over what was written before. */
  lemma Rewritten(buf: seq<Byte>, buf': seq<Byte>, from: nat, end: nat, block: seq<Byte>)
    requires from + |block| == end <= |buf| == |buf'| && buf'[..from] == buf[..from] && buf'[end..] == buf[end..]
    ensures Written(buf', from, block) == Written(buf, from, block)
  {
  }

  lemma WrotePostfix(buf: seq<Byte>, g: Regs, st: Parsing, zero: bool, many: bool)
    requires Sound(buf, g, st) && HasAtom(st.top.current) && (zero || many) && g.b + 9 <= |buf|
    ensures 0 <= g.laststart <= g.b
    ensures Sound(PostfixBytes(buf, g.laststart, g.b, zero, many),
                  g.(b := PostfixEnd(g.b, zero, many), pending := -1), Postfix(st, zero, many))
  {
    hide Good, At, RepeatCode, LastStart, SeqCode, PostfixBytes, Written, Postfix;
    OperandAt(buf, g, st);
    var from: nat := g.laststart;
    var code, buf' := buf[from..g.b], PostfixBytes(buf, from, g.b, zero, many);
    var whole := RepeatCode(zero, many, code);
    PostfixBytesAre(buf, from, g.b, zero, many);
    AtSlice(buf, from, code);
    WrittenAt(buf, from, whole);
    PostfixEmitted(buf, buf', g, st, zero, many, code);
  }

  /** The jump at fixup filled in, if there is one. */
  function Filled(buf: seq<Byte>, fixup: int, to: nat): (r: seq<Byte>)
    requires fixup != -1 ==> 0 <= fixup && fixup + 3 <= |buf|
    ensures |r| == |buf|
  {
    if fixup == -1 then buf else StoredJump(buf, fixup, JUMP, to)
  }

  lemma FilledAt(buf: seq<Byte>, fixup: int, to: nat)
    requires fixup != -1 ==> 0 <= fixup && fixup + 3 <= |buf|
    ensures SameButHole(buf, Filled(buf, fixup, to), |buf|, fixup) && HoleLeads(Filled(buf, fixup, to), fixup, to)
  {
    if fixup != -1 {
      var jump := Jump(JUMP, to - (fixup + 3));
      WrittenAt(buf, fixup, jump);
    }
  }

  lemma HoleInside(buf: seq<Byte>, g: Regs, st: Parsing)
    requires Good(buf, g, st)
    ensures g.fixup == -1 || (0 <= g.fixup && g.fixup + 3 == g.begalt)
    ensures g.begalt <= g.b <= |buf|
  {
  }

  lemma WroteClose(buf: seq<Byte>, g: Regs, st: Parsing)
    requires Sound(buf, g, st) && st.outer != [] && g.b + 2 <= |buf|
    ensures |g.stack| == |st.outer| && (g.fixup == -1 || 0 <= g.fixup <= g.b - 3)
    ensures var saved := g.stack[|g.stack| - 1];
            Sound(Written(Filled(buf, g.fixup, g.b), g.b, [STOP_MEMORY, saved.regnum]),
                  Regs(g.b + 2, saved.fixup, saved.start, g.pending, saved.begalt, g.stack[..|g.stack| - 1]), Close(st))
  {
    HoleInside(buf, g, st);
    assert OuterAt(buf, g.stack, st, |g.stack| - 1);
    var filled := Filled(buf, g.fixup, g.b);
    var buf' := Written(filled, g.b, [STOP_MEMORY, st.top.reg]);
    FilledAt(buf, g.fixup, g.b);
    WrittenAt(filled, g.b, [STOP_MEMORY, st.top.reg]);
    HoleKept(filled, buf', g.fixup, g.b, g.b);
    GroupClosed(buf, buf', g, st);
  }

  lemma HoleKept(buf: seq<Byte>, buf': seq<Byte>, fixup: int, n: nat, to: nat)
    requires HoleLeads(buf, fixup, to) && SameBelow(buf, buf', n) && (fixup == -1 || fixup + 3 <= n)
    ensures HoleLeads(buf', fixup, to)
  {
    if fixup != -1 {
      AtKept(buf, buf', fixup, Jump(JUMP, to - (fixup + 3)));
    }
  }

  function BarBytes(buf: seq<Byte>, begalt: nat, b: nat, fixup: int): seq<Byte>
    requires begalt <= b && b + 6 <= |buf| && (fixup == -1 || (0 <= fixup && fixup + 3 <= |buf|))
  {
    Filled(InsertedJump(buf, ON_FAILURE_JUMP, begalt, b + 6, b), fixup, b + 3)
  }

  lemma BarBytesAre(buf: seq<Byte>, begalt: nat, b: nat, fixup: int, code: seq<Byte>)
    requires begalt <= b && b + 6 <= |buf| && (fixup == -1 || (0 <= fixup && fixup + 3 == begalt))
    requires At(buf, begalt, code) && begalt + |code| == b && ZeroAbove(buf, b)
    ensures var buf' := BarBytes(buf, begalt, b, fixup);
            && |buf'| == |buf| && SameButHole(buf, buf', begalt, fixup) && HoleLeads(buf', fixup, b + 3)
            && At(buf', begalt, GuardedCode(code)) && ZeroAbove(buf', b + 3)
  {
    var inserted := InsertedJump(buf, ON_FAILURE_JUMP, begalt, b + 6, b);
    var buf' := BarBytes(buf, begalt, b, fixup);
    AtSlice(buf, begalt, code);
    Inserted(buf, begalt, b, Jump(ON_FAILURE_JUMP, |code| + 3));
    WrittenAt(buf, begalt, GuardedCode(code));
    FilledAt(inserted, fixup, b + 3);
    AtKept(inserted, buf', begalt, GuardedCode(code));
  }

  lemma WroteBar(buf: seq<Byte>, g: Regs, st: Parsing)
    requires Sound(buf, g, st) && g.b + 6 <= |buf|
    ensures g.begalt <= g.b && (g.fixup == -1 || 0 <= g.fixup <= g.b - 3)
    ensures Sound(BarBytes(buf, g.begalt, g.b, g.fixup),
                  g.(b := g.b + 6, fixup := g.b + 3, laststart := -1, pending := -1, begalt := g.b + 6), Bar(st))
  {
    HoleInside(buf, g, st);
    BarBytesAre(buf, g.begalt, g.b, g.fixup, SeqCode(st.top.current));
    AlternativeEnded(buf, BarBytes(buf, g.begalt, g.b, g.fixup), g, st);
  }

  // ---- The compiler ----

  /** Room the compiler keeps below the end of the buffer: for any construct but a
      bracket expression, and for a bracket expression. */
  const SLACK := 10
  const BRACKET_SLACK := 35

  /** The room that has to be left in front of a construct that starts with c. */
  function Slack(c: Byte): nat {
    if c == '[' as int then BRACKET_SLACK else SLACK
  }

  /** The reading from p on comes to a construct with too little room left for it. */
  predicate RunsOut(pattern: seq<Byte>, p: nat, st: Parsing)
    requires p <= |pattern|
    decreases |pattern| - p
  {
    && p < |pattern| && WellFormedReading(st)
    && (CodeSize(st) + Slack(pattern[p]) > MAX_CODE
        || match ReadOne(pattern, p, st)
           case Err(_) => false
           case Ok((st', p')) => RunsOut(pattern, p', st'))
  }

  class Compiler {
    var buffer: array<Byte>
    var b: nat
    var fixup: int
    var laststart: int
    var pendingExact: int
    var begalt: nat
    var stack: seq<Saved>
    var regnum: Byte
    ghost var st: Parsing    // what has been read so far

    constructor ()
      ensures Valid() && fresh(buffer) && st == Nothing
    {
      buffer := new Byte[MAX_CODE](_ => 0);
      b, fixup, laststart, pendingExact, begalt, stack, regnum := 0, -1, -1, -1, 0, [], 1;
      st := Nothing;
    }

    ghost function Now(): Regs
      reads this
    {
      Regs(b, fixup, laststart, pendingExact, begalt, stack)
    }

    ghost predicate Valid()
      reads this, buffer
    {
      && buffer.Length == MAX_CODE && regnum == st.regnum <= MAX_GROUPS + 1
      && Sound(buffer[..], Now(), st)
    }

    /** Stores bytes at the end of the code. */
    method Push(op: Byte)
      requires b < buffer.Length
      modifies this`b, buffer
      ensures buffer[..] == Written(old(buffer[..]), old(b), [op]) && b == old(b) + 1
    {
      buffer[b] := op;
      b := b + 1;
    }

    method Push2(op: Byte, operand: Byte)
      requires b + 2 <= buffer.Length
      modifies this`b, buffer
      ensures buffer[..] == Written(old(buffer[..]), old(b), [op, operand]) && b == old(b) + 2
    {
      buffer[b], buffer[b + 1] := op, operand;
      b := b + 2;
    }

    /** A command of one byte. */
    method EmitCommand(op: Byte, ghost e: Item)
      requires Valid() && b < MAX_CODE && WellFormedItem(e) && ItemCode(e) == [op] && !e.Group? && !e.Repeat?
      modifies this, buffer
      ensures Valid() && st == Add(old(st), e) && buffer == old(buffer) && b <= old(b) + 9
    {
      WroteItem(buffer[..], Now(), st, e);
      if !IsTestOp(op) {
        laststart := b;
      }
      Push(op);
      st := Add(st, e);
    }

    /** An ordinary character: joins the exactn before it, or starts one. */
    method EmitChar(c: Byte, next: Byte)
      requires Valid() && b + 3 <= MAX_CODE
      modifies this, buffer
      ensures Valid() && st == AddChar(old(st), c, next) && buffer == old(buffer) && b <= old(b) + 9
    {
      JoinTest(buffer[..], Now(), st, next);
      if pendingExact == -1 || pendingExact + buffer[pendingExact] + 1 != b || buffer[pendingExact] == 127
         || IsPostfix(next) || next == '^' as int {
        EmitFirst(c);
      } else {
        EmitJoined(c, next);
      }
    }

    method EmitFirst(c: Byte)
      requires Valid() && b + 3 <= MAX_CODE
      modifies this, buffer
      ensures Valid() && st == Add(old(st), Chars([c])) && buffer == old(buffer) && b <= old(b) + 9
    {
      WroteItem(buffer[..], Now(), st, Chars([c]));
      StartExact(c);
      st := Add(st, Chars([c]));
    }

    method EmitJoined(c: Byte, next: Byte)
      requires Valid() && b + 3 <= MAX_CODE && Joins(st.top.current, next)
      modifies this, buffer
      ensures Valid() && st == AddChar(old(st), c, next) && buffer == old(buffer) && b <= old(b) + 9
    {
      JoinTest(buffer[..], Now(), st, next);
      JoinedChar(buffer[..], Now(), st, c, next);
      GrowExact(c);
      st := AddChar(st, c, next);
    }

    method StartExact(c: Byte)
      requires b + 3 <= buffer.Length
      modifies this`b, this`laststart, this`pendingExact, buffer
      ensures buffer[..] == Written(old(buffer[..]), old(b), [EXACTN, 1] + [c])
      ensures b == old(b) + 3 && laststart == old(b) && pendingExact == old(b) + 1
    {
      laststart := b;
      pendingExact := b + 1;
      buffer[b], buffer[b + 1], buffer[b + 2] := EXACTN, 1, c;
      b := b + 3;
    }

    method GrowExact(c: Byte)
      requires b < buffer.Length && 0 <= pendingExact < b && buffer[pendingExact] < 127
      modifies this`b, buffer
      ensures buffer[..] == old(buffer[..])[old(b) := c][pendingExact := old(buffer[pendingExact]) + 1] && b == old(b) + 1
    {
      buffer[b] := c;
      b := b + 1;
      buffer[pendingExact] := buffer[pendingExact] + 1;
    }

    /** * + ? : the jump back, then the failure jump and for + the jump over it, both
        inserted in front of the operand. */
    method EmitPostfix(zero: bool, many: bool)
      requires Valid() && HasAtom(st.top.current) && (zero || many) && b + 9 <= MAX_CODE
      modifies this, buffer
      ensures Valid() && st == Postfix(old(st), zero, many) && buffer == old(buffer) && b <= old(b) + 9
    {
      WrotePostfix(buffer[..], Now(), st, zero, many);
      hide Sound, PostfixBytes, Postfix;
      InsertLoop(zero, many);
      st := Postfix(st, zero, many);
    }

    method InsertLoop(zero: bool, many: bool)
      requires 0 <= laststart <= b && b + 9 <= buffer.Length
      modifies this`b, this`pendingExact, buffer
      ensures buffer[..] == PostfixBytes(old(buffer[..]), laststart, old(b), zero, many)
      ensures b == PostfixEnd(old(b), zero, many) && pendingExact == -1
    {
      hide Written, InsertedBlock, PostfixBytes, Guard, Lead, Back;
      ghost var n: nat, end, before := b - laststart, b, buffer[..];
      AppendBack(many);
      ghost var looped, e := buffer[..], b;
      InsertGuard(many, n);
      ghost var guarded := buffer[..];
      pendingExact := -1;
      if !zero {
        InsertLead();
      } else {
        NothingInserted(buffer[..], laststart, b);
      }
      LoopDone(before, laststart, end, e, zero, many, looped, guarded, buffer[..]);
    }

    method AppendBack(many: bool)
      requires 0 <= laststart <= b && b + 3 <= buffer.Length
      modifies this`b, buffer
      ensures buffer[..] == Written(old(buffer[..]), old(b), Back(old(b) - laststart, many))
      ensures b == old(b) + if many then 3 else 0
    {
      if many {
        BackStored(buffer[..], laststart, b);
        StoreJump(buffer, b, MAYBE_FINALIZE_JUMP, laststart - 3);
        b := b + 3;
      } else {
        Appended(buffer[..], b, []);
      }
    }

    method InsertGuard(many: bool, ghost n: nat)
      requires 0 <= laststart && b == laststart + n + (if many then 3 else 0) && b + 3 <= buffer.Length
      modifies this`b, buffer
      ensures buffer[..] == InsertedBlock(old(buffer[..]), laststart, old(b), Guard(n, many))
      ensures b == old(b) + 3
    {
      ghost var before := buffer[..];
      GuardInserted(before, laststart, n, many);
      InsertJump(buffer, ON_FAILURE_JUMP, laststart, b + 3, b);
      b := b + 3;
    }

    method InsertLead()
      requires 0 <= laststart <= b && b + 3 <= buffer.Length
      modifies this`b, buffer
      ensures buffer[..] == InsertedBlock(old(buffer[..]), laststart, old(b), Lead(false))
      ensures b == old(b) + 3
    {
      InsertJump(buffer, DUMMY_FAILURE_JUMP, laststart, laststart + 6, b);
      b := b + 3;
    }

    method EmitOpen()
      requires Valid() && b + 2 <= MAX_CODE && st.regnum <= MAX_GROUPS
      modifies this, buffer
      ensures Valid() && st == Open(old(st)) && buffer == old(buffer) && b <= old(b) + 9
    {
      WroteItem(buffer[..], Now(), st, StartMem(regnum));
      GroupOpened(Written(buffer[..], b, [START_MEMORY, regnum]), AfterItem(Now(), StartMem(regnum)), st);
      Push2(START_MEMORY, regnum);
      stack := stack + [Saved(b, fixup, regnum, begalt)];
      regnum := regnum + 1;
      fixup, laststart, begalt := -1, -1, b;
      st := Open(st);
      assert ZeroAbove(buffer[..], b);
    }

    method EmitClose()
      requires Valid() && b + 2 <= MAX_CODE && st.outer != []
      modifies this, buffer
      ensures Valid() && st == Close(old(st)) && buffer == old(buffer) && b <= old(b) + 9
    {
      WroteClose(buffer[..], Now(), st);
      EndGroup();
      st := Close(st);
    }

    method EndGroup()
      requires stack != [] && b + 2 <= buffer.Length && (fixup == -1 || 0 <= fixup <= b - 3)
      modifies this`begalt, this`fixup, this`laststart, this`stack, this`b, buffer
      ensures var saved := old(stack[|stack| - 1]);
              && buffer[..] == Written(Filled(old(buffer[..]), old(fixup), old(b)), old(b), [STOP_MEMORY, saved.regnum])
              && b == old(b) + 2 && begalt == saved.begalt && fixup == saved.fixup && laststart == saved.start
              && stack == old(stack[..|stack| - 1])
    {
      var saved := stack[|stack| - 1];
      begalt := saved.begalt;
      if fixup != -1 {
        StoreJump(buffer, fixup, JUMP, b);
      }
      Push2(STOP_MEMORY, saved.regnum);
      fixup, laststart := saved.fixup, saved.start;
      stack := stack[..|stack| - 1];
    }

    method EmitBar()
      requires Valid() && b + 6 <= MAX_CODE
      modifies this, buffer
      ensures Valid() && st == Bar(old(st)) && buffer == old(buffer) && b <= old(b) + 9
    {
      WroteBar(buffer[..], Now(), st);
      EndAlternative();
      st := Bar(st);
    }

    method EndAlternative()
      requires begalt <= b && b + 6 <= buffer.Length && (fixup == -1 || 0 <= fixup <= b - 3)
      modifies this`b, this`fixup, this`laststart, this`pendingExact, this`begalt, buffer
      ensures buffer[..] == BarBytes(old(buffer[..]), old(begalt), old(b), old(fixup))
      ensures b == begalt == old(b) + 6 && fixup == old(b) + 3 && laststart == pendingExact == -1
    {
      hide Jump;
      InsertJump(buffer, ON_FAILURE_JUMP, begalt, b + 6, b);
      pendingExact := -1;
      b := b + 3;
      if fixup != -1 {
        StoreJump(buffer, fixup, JUMP, b);
      }
      fixup := b;
      b := b + 3;
      laststart := -1;
      begalt := b;
    }

    /** A run of postfix operators from p on, of which the first has been seen. */
    method ReadPostfixes(pattern: seq<Byte>, p: nat) returns (zero: bool, many: bool, p': nat)
      requires p < |pattern| && IsPostfix(pattern[p])
      ensures (zero, many, p') == PostfixRun(pattern, p, false, false) && p < p' <= |pattern| && (zero || many)
    {
      zero, many, p' := false, false, p;
      while p' < |pattern| && IsPostfix(pattern[p'])
        invariant p <= p' <= |pattern| && (p < p' ==> zero || many)
        invariant PostfixRun(pattern, p', zero, many) == PostfixRun(pattern, p, false, false)
      {
        zero := zero || pattern[p'] != '+' as int;
        many := many || pattern[p'] != '?' as int;
        p' := p' + 1;
      }
    }

    /** Sets the bits of a range in the map at base. */
    method SetRangeBits(base: nat, lo: Byte, hi: Byte)
      requires base + 32 <= buffer.Length
      modifies buffer
      ensures buffer[base..base + 32] == SetRange(old(buffer[base..base + 32]), lo, hi)
      ensures forall i :: 0 <= i < buffer.Length && !(base <= i < base + 32) ==> buffer[i] == old(buffer[i])
    {
      var c: nat := lo;
      while c <= hi
        invariant SetRange(buffer[base..base + 32], c, hi) == SetRange(old(buffer[base..base + 32]), lo, hi)
        invariant forall i :: 0 <= i < buffer.Length && !(base <= i < base + 32) ==> buffer[i] == old(buffer[i])
        decreases 256 - c
      {
        SetOneBit(base, c);
        c := c + 1;
      }
    }

    method SetOneBit(base: nat, c: Byte)
      requires base + 32 <= buffer.Length
      modifies buffer
      ensures buffer[base..base + 32] == SetBit(old(buffer[base..base + 32]), c)
      ensures forall i :: 0 <= i < buffer.Length && !(base <= i < base + 32) ==> buffer[i] == old(buffer[i])
    {
      ghost var bits := buffer[base..base + 32];
      assert bits[c / 8] == buffer[base + c / 8];
      buffer[base + c / 8] := OrBit(buffer[base + c / 8], c % 8);
      assert buffer[base..base + 32] == bits[c / 8 := OrBit(bits[c / 8], c % 8)];
    }

    /** The members of a bracket expression, as bits at base. */
    method ReadMembers(pattern: seq<Byte>, first: nat, base: nat) returns (ok: bool, p: nat)
      requires first <= |pattern| && base + 32 <= buffer.Length
      modifies buffer
      ensures ok ==> BracketFrom(pattern, first, first, old(buffer[base..base + 32])) == Ok((buffer[base..base + 32], p))
      ensures !ok ==> BracketFrom(pattern, first, first, old(buffer[base..base + 32])) == Err(PrematureEnd)
      ensures forall i :: 0 <= i < buffer.Length && !(base <= i < base + 32) ==> buffer[i] == old(buffer[i])
    {
      p := first;
      while true
        invariant first <= p <= |pattern|
        invariant BracketFrom(pattern, first, p, buffer[base..base + 32])
               == BracketFrom(pattern, first, first, old(buffer[base..base + 32]))
        invariant forall i :: 0 <= i < buffer.Length && !(base <= i < base + 32) ==> buffer[i] == old(buffer[i])
        decreases |pattern| - p
      {
        if p == |pattern| {
          return false, p;
        }
        var c := pattern[p];
        p := p + 1;
        if c == ']' as int && p != first + 1 {
          return true, p;
        }
        if RangeAt(pattern, p) {
          if p + 1 >= |pattern| {
            return false, p;
          }
          SetRangeBits(base, c, pattern[p + 1]);
          p := p + 2;
        } else {
          SetOneBit(base, c);
        }
      }
    }

    /** Drops zero bytes at the end of the map of 32 bytes at base. */
    method TrimMap(base: nat) returns (count: Byte)
      requires base + 32 <= buffer.Length
      ensures count <= 32 && buffer[base..base + count] == Trim(buffer[base..base + 32])
      ensures forall i :: base + count <= i < base + 32 ==> buffer[i] == 0
    {
      count := 32;
      while count > 0 && buffer[base + count - 1] == 0
        invariant count <= 32 && Trim(buffer[base..base + count]) == Trim(buffer[base..base + 32])
        invariant forall i :: base + count <= i < base + 32 ==> buffer[i] == 0
      {
        assert buffer[base..base + count][..count - 1] == buffer[base..base + (count - 1)];
        count := count - 1;
      }
    }

    /** Stores the command byte and an empty map. */
    method StartMap(op: Byte)
      requires b + BRACKET_SLACK <= buffer.Length
      modifies this`b, this`laststart, buffer
      ensures b == old(b) + 2 && laststart == old(b)
      ensures buffer[..] == Written(old(buffer[..]), old(b), [op, 32] + seq(32, _ => 0))
    {
      laststart := b;
      Push2(op, 32);
      forall i | 0 <= i < 32 {
        buffer[b + i] := 0;
      }
    }

    /** Trims the map at b, corrects its length byte and moves past it. */
    method EndMap(ghost before: seq<Byte>, op: Byte)
      requires 2 <= b && b + 32 <= buffer.Length == |before| && ZeroAbove(before, b - 2)
      requires SameBelow(before, buffer[..], b - 2) && buffer[b - 2] == op
      requires forall i :: b + 32 <= i < buffer.Length ==> buffer[i] == 0
      modifies this`b, buffer
      ensures var kept := Trim(old(buffer[b..b + 32]));
              && |kept| <= 32 && b == old(b) + |kept|
              && buffer[..] == Written(before, old(b) - 2, [op, |kept|] + kept)
    {
      var count := TrimMap(b);
      ghost var kept := buffer[b..b + count];
      buffer[b - 1] := count;
      assert buffer[b..b + count] == kept;
      BracketBytes(before, buffer[..], b - 2, op, kept);
      b := b + count;
    }

    /** A bracket expression: map bytes are set in place, then trimmed. */
    method StoreBracket(pattern: seq<Byte>, p: nat) returns (ok: bool, p': nat)
      requires p < |pattern| && b + BRACKET_SLACK <= buffer.Length && ZeroAbove(buffer[..], b)
      modifies this`b, this`laststart, buffer
      ensures var inverted := Peek(pattern, p + 1) == '^' as int;
              var first := if inverted then p + 2 else p + 1;
              var r := BracketFrom(pattern, first, first, seq(32, _ => 0));
              if ok then
                && r.Ok? && p' == r.value.1 && |Trim(r.value.0)| <= 32
                && var code := ItemCode(CharSet(inverted, Trim(r.value.0)));
                   buffer[..] == Written(old(buffer[..]), old(b), code) && b == old(b) + |code| && laststart == old(b)
              else r == Err(PrematureEnd)
    {
      ghost var before := buffer[..];
      var inverted := Peek(pattern, p + 1) == '^' as int;
      var first := if inverted then p + 2 else p + 1;
      var op := if inverted then CHARSET_NOT else CHARSET;
      StartMap(op);
      ghost var started := buffer[..];
      StartedMap(before, b - 2, op);
      assert buffer[b..b + 32] == started[b..b + 32];
      ok, p' := ReadMembers(pattern, first, b);
      if ok {
        EndMap(before, op);
      }
    }

    method EmitBracket(pattern: seq<Byte>, p: nat) returns (ok: bool, p': nat)
      requires Valid() && p < |pattern| && b + BRACKET_SLACK <= MAX_CODE
      modifies this, buffer
      ensures buffer == old(buffer) && (ok ==> b <= old(b) + 34)
      ensures if ok then Valid() && ReadBracket(pattern, p, old(st)) == Ok((st, p'))
              else ReadBracket(pattern, p, old(st)) == Err(PrematureEnd)
    {
      ghost var before, g := buffer[..], Now();
      ok, p' := StoreBracket(pattern, p);
      if ok {
        ghost var inverted := Peek(pattern, p + 1) == '^' as int;
        ghost var first := if inverted then p + 2 else p + 1;
        ghost var item := CharSet(inverted, Trim(BracketFrom(pattern, first, first, seq(32, _ => 0)).value.0));
        WroteItem(before, g, st, item);
        st := Add(st, item);
      }
    }

    lemma GroupsKnown()
      requires Valid()
      ensures |stack| == |st.outer| && forall k :: 0 <= k < |stack| ==> stack[k].regnum == GroupAbove(st, k)
    {
      forall k | 0 <= k < |stack| ensures stack[k].regnum == GroupAbove(st, k) {
        assert OuterAt(buffer[..], stack, st, k);
      }
    }

    /** Whether a digit refers to a closed group: looks through the open ones. */
    method IsBackReference(c: Byte) returns (yes: bool)
      requires Valid()
      ensures yes == IsReference(c, st)
    {
      if !('1' as int <= c <= '9' as int) {
        return false;
      }
      var c1 := c - '0' as int;
      if c1 >= regnum {
        return false;
      }
      GroupsKnown();
      var k := |stack|;
      while k > 0
        invariant 0 <= k <= |stack| == |st.outer|
        invariant forall i :: k <= i < |stack| ==> c1 != GroupAbove(st, i)
      {
        hide Compiler.Valid;
        k := k - 1;
        if stack[k].regnum == c1 {
          return false;
        }
      }
      yes := true;
    }

    /** What the pointers say about what has been read. */
    lemma Knows()
      requires Valid()
      ensures HasAtom(st.top.current) <==> laststart != -1
      ensures stack == [] <==> st.outer == []
    {
    }

    lemma KnowsSize()
      requires Valid()
      ensures WellFormedReading(st) && b == CodeSize(st)
    {
      SizeIs(buffer[..], Now(), st);
    }

    /** The construct after a backslash at p - 1. */
    method CompileEscape(pattern: seq<Byte>, p: nat) returns (r: Result<nat>)
      requires Valid() && p < |pattern| && b + SLACK <= MAX_CODE
      modifies this, buffer
      ensures buffer == old(buffer) && r != Err(TooBig)
      ensures r.Ok? ==> p < r.value && b <= old(b) + 9
      ensures match r
              case Ok(p') => Valid() && ReadEscape(pattern, p, old(st)) == Ok((st, p'))
              case Err(e) => ReadEscape(pattern, p, old(st)) == Err(e)
    {
      var c := pattern[p];
      Knows();
      if c == '(' as int {
        if regnum > MAX_GROUPS {
          return Err(Unmodelled);
        }
        EmitOpen();
      } else if c == ')' as int {
        if stack == [] {
          return Err(UnmatchedClose);
        }
        EmitClose();
      } else if c == '|' as int {
        EmitBar();
      } else if c == 'w' as int {
        EmitCommand(WORDCHAR, Word(false));
      } else if c == 'W' as int {
        EmitCommand(NOTWORDCHAR, Word(true));
      } else if TestOfEscape(c) != 0 {
        EmitCommand(TestOfEscape(c), Test(TestOfEscape(c)));
      } else {
        var reference := IsBackReference(c);
        if reference {
          return Err(Unmodelled);
        }
        EmitChar(c, Peek(pattern, p + 1));
      }
      r := Ok(p + 1);
    }

    /** The construct at p. */
    method CompileOne(pattern: seq<Byte>, p: nat) returns (r: Result<nat>)
      requires Valid() && p < |pattern| && b + SLACK <= MAX_CODE
      modifies this, buffer
      ensures buffer == old(buffer)
      ensures r.Ok? ==> p < r.value && b <= old(b) + 34 && b < MAX_CODE
      ensures r == Err(TooBig) <==> old(b) + Slack(pattern[p]) > MAX_CODE
      ensures r != Err(TooBig) ==>
                match r
                case Ok(p') => Valid() && ReadOne(pattern, p, old(st)) == Ok((st, p'))
                case Err(e) => ReadOne(pattern, p, old(st)) == Err(e)
    {
      var c := pattern[p];
      Knows();
      hide Valid, ReadBracket, ReadEscape, PostfixRun, Postfix, AddChar;
      if c == '$' as int && EndsLine(pattern, p + 1) {
        EmitCommand(ENDLINE, Test(ENDLINE));
      } else if c == '^' as int && (laststart == -1 || Peek(pattern, p - 1) == NEWLINE) {
        EmitCommand(BEGLINE, Test(BEGLINE));
      } else if IsPostfix(c) && laststart != -1 {
        var zero, many, p' := ReadPostfixes(pattern, p);
        EmitPostfix(zero, many);
        return Ok(p');
      } else if c == '.' as int {
        EmitCommand(ANYCHAR, Any);
      } else if c == '[' as int {
        if b + BRACKET_SLACK > MAX_CODE {
          return Err(TooBig);
        }
        var ok, p' := EmitBracket(pattern, p);
        return if ok then Ok(p') else Err(PrematureEnd);
      } else if c == '\\' as int {
        if p + 1 == |pattern| {
          return Err(Invalid);
        }
        r := CompileEscape(pattern, p + 1);
        return;
      } else {
        EmitChar(c, Peek(pattern, p + 1));
      }
      r := Ok(p + 1);
    }

    /** Compiles a pattern; the number of bytes used, or what is wrong with it.  The
        buffer grows to MAX_CODE bytes and no further: it is too small exactly when the
        reading comes to a construct with too little room left, never for short patterns. */
    method Compile(pattern: seq<Byte>) returns (r: Result<nat>)
      requires Valid() && st == Nothing
      modifies this, buffer
      ensures buffer == old(buffer)
      ensures r == Err(TooBig) <==> RunsOut(pattern, 0, Nothing)
      ensures r == Err(TooBig) ==> 34 * |pattern| + BRACKET_SLACK > MAX_CODE
      ensures r != Err(TooBig) ==>
                match Parse(pattern)
                case Err(e) => r == Err(e)
                case Ok(tree) =>
                  && WellFormedAlts(tree) && r == Ok(|AltsCode(tree)|) && |AltsCode(tree)| < MAX_CODE
                  && buffer.Length == MAX_CODE && buffer[..|AltsCode(tree)|] == AltsCode(tree)
                  && buffer[|AltsCode(tree)|] == 0
    {
      var p := 0;
      while p != |pattern|
        invariant Valid() && p <= |pattern| && buffer == old(buffer) && b < MAX_CODE
        invariant ReadFrom(pattern, p, st) == Parse(pattern)
        invariant RunsOut(pattern, p, st) == RunsOut(pattern, 0, Nothing) && b <= 34 * p
        decreases |pattern| - p
      {
        hide Valid, ReadOne, CodeSize;
        KnowsSize();
        if b + SLACK > MAX_CODE {
          return Err(TooBig);
        }
        var step := CompileOne(pattern, p);
        if step.Err? {
          return Err(step.error);
        }
        p := step.value;
      }
      r := EndPattern();
    }

    /** The jump over the last alternatives is filled in; all groups must be closed. */
    method EndPattern() returns (r: Result<nat>)
      requires Valid() && b < MAX_CODE
      modifies buffer
      ensures st.outer != [] ==> r == Err(UnmatchedOpen)
      ensures st.outer == [] ==>
                var tree := Finish(st.top);
                && WellFormedAlts(tree) && r == Ok(|AltsCode(tree)|) && |AltsCode(tree)| < MAX_CODE
                && buffer[..|AltsCode(tree)|] == AltsCode(tree) && buffer[|AltsCode(tree)|] == 0
    {
      Knows();
      ghost var before, g := buffer[..], Now();
      HoleInside(before, g, st);
      FilledAt(before, fixup, b);
      if fixup != -1 {
        StoreJump(buffer, fixup, JUMP, b);
      }
      if stack != [] {
        return Err(UnmatchedOpen);
      }
      PatternEnded(before, buffer[..], g, st);
      assert buffer[..][b] == 0;
      r := Ok(b);
    }
  }

  lemma StartedMap(buf: seq<Byte>, b: nat, op: Byte)
    requires b + 34 <= |buf| && ZeroAbove(buf, b)
    ensures var buf' := Written(buf, b, [op, 32] + seq(32, _ => 0));
            && SameBelow(buf, buf', b) && buf'[b] == op && buf'[b + 2..b + 34] == seq(32, _ => 0)
            && forall i :: b + 34 <= i < |buf| ==> buf'[i] == 0
  {
  }

  /** Two command bytes and the trimmed map, with zeros above. */
  lemma BracketBytes(before: seq<Byte>, after: seq<Byte>, b: nat, op: Byte, kept: seq<Byte>)
    requires |before| == |after| && b + 34 <= |before| && |kept| <= 32 && ZeroAbove(before, b)
    requires forall i :: 0 <= i < b ==> after[i] == before[i]
    requires after[b] == op && after[b + 1] == |kept| && after[b + 2..b + 2 + |kept|] == kept
    requires forall i :: b + 2 + |kept| <= i < |after| ==> after[i] == 0
    ensures after == Written(before, b, [op, |kept|] + kept)
  {
    forall i | 0 <= i < |after| ensures after[i] == Written(before, b, [op, |kept|] + kept)[i] {
      if b + 2 <= i < b + 2 + |kept| {
        assert after[i] == after[b + 2..b + 2 + |kept|][i - (b + 2)];
      }
    }
  }
}
