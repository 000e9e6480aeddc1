/** Compiled programs are closed: read command by command they end exactly at the
    end, and every jump lands on the start of a command.  This is what insert_jump
    and the late store_jump calls have to preserve. */
module RegexLayout {
  import opened RegexSyntax
  import opened RegexCode
  import opened RegexMachine
  import C = RegexCorrect

  /** Reading whole commands from a on, one arrives at i. */
  ghost predicate Boundary(code: seq<Byte>, a: nat, i: nat)
    decreases |code| - a
  {
    a == i || (Decodes(code, a) && Boundary(code, a + CommandSize(code, a), i))
  }

  /** A jump back leads to the on_failure_jump of its loop, whose exit follows the
      jump; every other jump leads forward. */
  predicate JumpShape(code: seq<Byte>, i: nat)
    requires Decodes(code, i) && IsJumpOp(code[i])
  {
    var t := Target(code, i);
    if code[i] == MAYBE_FINALIZE_JUMP then C.JumpsTo(code, t, ON_FAILURE_JUMP, i + 3) && t < i
    else code[i] != FINALIZE_JUMP && i + 3 <= t
  }

  /** The command at i of a block a .. b whose jumps out all lead to t. */
  ghost predicate CommandOk(code: seq<Byte>, a: nat, b: nat, t: int, flat: bool, i: nat) {
    && Decodes(code, i) && i + CommandSize(code, i) <= b
    && (flat ==> code[i] != START_MEMORY && code[i] != STOP_MEMORY)
    && (IsJumpOp(code[i]) ==>
          && JumpShape(code, i)
          && (Target(code, i) == t || (a <= Target(code, i) <= b && Boundary(code, a, Target(code, i)))))
  }

  ghost predicate Closed(code: seq<Byte>, a: nat, b: nat, t: int, flat: bool) {
    && a <= b <= |code|
    && Boundary(code, a, b)
    && forall i: nat {:trigger Boundary(code, a, i)} :: Boundary(code, a, i) && i < b ==> CommandOk(code, a, b, t, flat, i)
  }

  /** A whole program; a flat one does not record what groups matched. */
  ghost predicate Compiled(code: seq<Byte>, flat: bool) {
    Closed(code, 0, |code|, |code|, flat)
  }

  // ---- Boundaries ----

  lemma {:induction false} BoundaryBounds(code: seq<Byte>, a: nat, i: nat)
    requires Boundary(code, a, i)
    ensures a <= i && (a < i ==> i <= |code|)
    decreases |code| - a
  {
    if a != i {
      BoundaryBounds(code, a + CommandSize(code, a), i);
    }
  }

  lemma {:induction false} BoundaryTrans(code: seq<Byte>, a: nat, b: nat, i: nat)
    requires Boundary(code, a, b) && Boundary(code, b, i)
    ensures Boundary(code, a, i)
    decreases |code| - a
  {
    if a != b {
      BoundaryTrans(code, a + CommandSize(code, a), b, i);
    }
  }

  /** There is only one way to read on. */
  lemma {:induction false} BoundaryLinear(code: seq<Byte>, a: nat, b: nat, i: nat)
    requires Boundary(code, a, b) && Boundary(code, a, i) && b <= i
    ensures Boundary(code, b, i)
    decreases |code| - a
  {
    if a != b {
      BoundaryBounds(code, a + CommandSize(code, a), b);
      BoundaryLinear(code, a + CommandSize(code, a), b, i);
    }
  }

  lemma BoundaryNext(code: seq<Byte>, a: nat, i: nat)
    requires Boundary(code, a, i) && Decodes(code, i)
    ensures Boundary(code, a, i + CommandSize(code, i))
  {
    BoundaryTrans(code, a, i, i + CommandSize(code, i));
  }

  // ---- Putting closed blocks together ----

  lemma ClosedConcat(code: seq<Byte>, a: nat, b: nat, c: nat, t1: int, t: int, flat: bool)
    requires Closed(code, a, b, t1, flat) && Closed(code, b, c, t, flat)
    requires t1 == t || (b <= t1 <= c && Boundary(code, b, t1))
    ensures Closed(code, a, c, t, flat)
  {
    BoundaryTrans(code, a, b, c);
    forall i: nat {:trigger Boundary(code, a, i)} | Boundary(code, a, i) && i < c
      ensures CommandOk(code, a, c, t, flat, i)
    {
      if i < b {
        assert CommandOk(code, a, b, t1, flat, i);
        if IsJumpOp(code[i]) && Target(code, i) == t1 != t {
          BoundaryTrans(code, a, b, t1);
        }
      } else {
        BoundaryLinear(code, a, b, i);
        assert CommandOk(code, b, c, t, flat, i);
        if IsJumpOp(code[i]) && Target(code, i) != t {
          BoundaryTrans(code, a, b, Target(code, i));
        }
      }
    }
  }

  lemma ClosedEmpty(code: seq<Byte>, a: nat, t: int, flat: bool)
    requires a <= |code|
    ensures Closed(code, a, a, t, flat)
  {
    forall i: nat {:trigger Boundary(code, a, i)} | Boundary(code, a, i) && i < a ensures false {
      BoundaryBounds(code, a, i);
    }
  }

  /** A single command is a closed block. */
  lemma ClosedOne(code: seq<Byte>, a: nat, t: int, flat: bool)
    requires Decodes(code, a) && (IsJumpOp(code[a]) ==> JumpShape(code, a) && Target(code, a) == t)
    requires flat ==> code[a] != START_MEMORY && code[a] != STOP_MEMORY
    ensures Closed(code, a, a + CommandSize(code, a), t, flat)
  {
    var b := a + CommandSize(code, a);
    assert Boundary(code, a, b);
    forall i: nat {:trigger Boundary(code, a, i)} | Boundary(code, a, i) && i < b
      ensures i == a
    {
      if i != a {
        BoundaryBounds(code, b, i);
      }
    }
  }

  // ---- The code of a tree is closed ----

  lemma {:induction false} SeqClosed(code: seq<Byte>, e: Seq, a: nat, flat: bool)
    requires WellFormed(e) && At(code, a, SeqCode(e)) && |code| <= MAX_CODE && (flat ==> GroupFree(e))
    ensures Closed(code, a, a + |SeqCode(e)|, a + |SeqCode(e)|, flat)
    decreases e, 0
  {
    match e
    case Nil => ClosedEmpty(code, a, a, flat);
    case Snoc(init, last) =>
      var mid := a + |SeqCode(init)|;
      AtSplit(code, a, SeqCode(init), ItemCode(last));
      SeqClosed(code, init, a, flat);
      ItemClosed(code, last, mid, flat);
      assert Boundary(code, mid, mid);
      ClosedConcat(code, a, mid, mid + |ItemCode(last)|, mid, mid + |ItemCode(last)|, flat);
  }

  lemma {:induction false} ItemClosed(code: seq<Byte>, e: Item, a: nat, flat: bool)
    requires WellFormedItem(e) && At(code, a, ItemCode(e)) && |code| <= MAX_CODE && (flat ==> GroupFreeItem(e))
    ensures Closed(code, a, a + |ItemCode(e)|, a + |ItemCode(e)|, flat)
    decreases e, 0
  {
    hide At, SeqCode, AltsCode, RepeatCode, Closed;
    if e.Group? {
      AtSplit(code, a, AltsCode(e.alts), [STOP_MEMORY, e.reg]);
      AltsClosed(code, e.alts, a, flat);
      GroupClosed(code, a, a + |AltsCode(e.alts)|, e.reg);
    } else if e.Repeat? {
      var p := C.LoopLayout(code, a, e.zero, e.many, SeqCode(e.body));
      SeqClosed(code, e.body, p + 3, flat);
      RepeatClosed(code, a, p, a + |ItemCode(e)|, e.zero, e.many, SeqCode(e.body), flat);
    } else {
      SingleClosed(code, e, a, flat);
    }
  }

  lemma GroupClosed(code: seq<Byte>, a: nat, b: nat, reg: Byte)
    requires Closed(code, a, b, b, false) && At(code, b, [STOP_MEMORY, reg])
    ensures Closed(code, a, b + 2, b + 2, false)
  {
    AtByte(code, b, [STOP_MEMORY, reg], 0);
    ClosedOne(code, b, b + 2, false);
    assert Boundary(code, b, b);
    ClosedConcat(code, a, b, b + 2, b, b + 2, false);
  }

  lemma SingleClosed(code: seq<Byte>, e: Item, a: nat, flat: bool)
    requires WellFormedItem(e) && !e.Group? && !e.Repeat? && At(code, a, ItemCode(e)) && (flat ==> GroupFreeItem(e))
    ensures Closed(code, a, a + |ItemCode(e)|, a + |ItemCode(e)|, flat)
  {
    C.SingleStep(C.Sys(code, [], {}, (c, r) => false), e, a, 0, []);
    SingleSize(code, e, a);
    ClosedOne(code, a, a + |ItemCode(e)|, flat);
  }

  lemma SingleSize(code: seq<Byte>, e: Item, a: nat)
    requires WellFormedItem(e) && At(code, a, ItemCode(e)) && !e.Group? && !e.Repeat? && Decodes(code, a)
    ensures CommandSize(code, a) == |ItemCode(e)| && code[a] == ItemCode(e)[0] && !IsJumpOp(code[a])
  {
    AtByte(code, a, ItemCode(e), 0);
    if e.Chars? || e.CharSet? {
      AtByte(code, a, ItemCode(e), 1);
    }
  }

  lemma RepeatClosed(code: seq<Byte>, a: nat, p: nat, b: nat, zero: bool, many: bool, body: seq<Byte>, flat: bool)
    requires C.LoopAt(code, a, p, b, zero, many, body)
    requires Closed(code, p + 3, p + 3 + |body|, p + 3 + |body|, flat)
    ensures Closed(code, a, b, b, flat)
  {
    var q := p + 3 + |body|;
    ClosedOne(code, p, b, flat);
    assert Boundary(code, q, q);
    if many {
      BackJumpClosed(code, p, b, flat);
    } else {
      ClosedConcat(code, p, p + 3, b, b, b, flat);
    }
    if !zero {
      assert Boundary(code, p, p + 3) by {
        assert Boundary(code, p + 3, p + 3);
      }
      ClosedOne(code, a, p + 3, flat);
      ClosedConcat(code, a, p, b, p + 3, b, flat);
    }
  }

  lemma BackJumpClosed(code: seq<Byte>, p: nat, b: nat, flat: bool)
    requires p + 6 <= b && C.JumpsTo(code, p, ON_FAILURE_JUMP, b) && C.JumpsTo(code, b - 3, MAYBE_FINALIZE_JUMP, p)
    requires Closed(code, p + 3, b - 3, b - 3, flat) && Closed(code, p, p + 3, b, flat)
    ensures Closed(code, p, b, b, flat)
  {
    var q: nat := b - 3;
    assert Decodes(code, q) && CommandSize(code, q) == 3;
    ClosedOne(code, q, p, flat);
    assert Boundary(code, q, q) && Boundary(code, q, b);
    ClosedConcat(code, p + 3, q, b, q, p, flat);
    BoundaryTrans(code, p, p + 3, b);
    assert Boundary(code, p, p);
    forall i: nat {:trigger Boundary(code, p, i)} | Boundary(code, p, i) && i < b
      ensures CommandOk(code, p, b, b, flat, i)
    {
      if i < p + 3 {
        assert CommandOk(code, p, p + 3, b, flat, i);
      } else {
        BoundaryLinear(code, p, p + 3, i);
        assert CommandOk(code, p + 3, b, p, flat, i);
        if IsJumpOp(code[i]) && Target(code, i) != p {
          BoundaryTrans(code, p, p + 3, Target(code, i));
        }
      }
    }
  }

  lemma {:induction false} AltsClosed(code: seq<Byte>, e: Alts, a: nat, flat: bool)
    requires WellFormedAlts(e) && At(code, a, AltsCode(e)) && |code| <= MAX_CODE && (flat ==> GroupFreeAlts(e))
    ensures Closed(code, a, a + |AltsCode(e)|, a + |AltsCode(e)|, flat)
    decreases e, 1
  {
    hide At, SeqCode, Closed;
    if e.One? {
      SeqClosed(code, e.only, a, flat);
    } else {
      var mid := C.AltsLayout(code, a, e.others, e.final);
      var b := mid + |SeqCode(e.final)|;
      PrefixClosed(code, e.others, a, mid, b, flat);
      SeqClosed(code, e.final, mid, flat);
      ClosedConcat(code, a, mid, b, b, b, flat);
    }
  }

  lemma {:induction false} PrefixClosed(code: seq<Byte>, e: Alts, a: nat, b: nat, t: nat, flat: bool)
    requires WellFormedAlts(e) && |code| <= MAX_CODE && b <= t <= |code| && (flat ==> GroupFreeAlts(e))
    requires At(code, a, PrefixCode(e, t - b)) && b == a + |PrefixCode(e, t - b)|
    ensures Closed(code, a, b, t, flat)
    decreases e, 1
  {
    hide At, SeqCode, PrefixCode, GuardedCode, Closed;
    if e.One? {
      OnlyPrefix(e.only, t - b);
      AlternativeClosed(code, e.only, a, t, flat);
    } else {
      var mid := C.PrefixLayout(code, a, b, e.others, e.final, t);
      var last := b - 3;
      AlternativeClosed(code, e.final, mid, t, flat);
      PrefixClosed(code, e.others, a, mid, last, flat);
      ClosedConcat(code, a, mid, b, last, t, flat);
    }
  }

  lemma {:induction false} AlternativeClosed(code: seq<Byte>, e: Seq, a: nat, t: nat, flat: bool)
    requires WellFormed(e) && |code| <= MAX_CODE && a + |SeqCode(e)| + 6 <= t <= |code| && (flat ==> GroupFree(e))
    requires At(code, a, GuardedCode(SeqCode(e)) + Jump(JUMP, t - (a + |SeqCode(e)| + 6)))
    ensures Closed(code, a, a + |SeqCode(e)| + 6, t, flat)
    ensures Boundary(code, a, a + |SeqCode(e)| + 3)
    decreases e, 1
  {
    C.GuardLayout(code, a, SeqCode(e), t);
    SeqClosed(code, e, a + 3, flat);
    GuardClosed(code, a, |SeqCode(e)|, t, flat);
    LastJumpStarts(code, a, |SeqCode(e)|, t, flat);
  }

  /** The jump ending an alternative starts a command, to which the jump before leads. */
  lemma LastJumpStarts(code: seq<Byte>, a: nat, n: nat, t: nat, flat: bool)
    requires C.JumpsTo(code, a, ON_FAILURE_JUMP, a + n + 6) && Closed(code, a + 3, a + n + 3, a + n + 3, flat)
    ensures Boundary(code, a, a + n + 3)
  {
    assert Decodes(code, a) && CommandSize(code, a) == 3;
  }

  lemma GuardClosed(code: seq<Byte>, a: nat, n: nat, t: nat, flat: bool)
    requires C.JumpsTo(code, a, ON_FAILURE_JUMP, a + n + 6) && C.JumpsTo(code, a + n + 3, JUMP, t)
    requires Closed(code, a + 3, a + n + 3, a + n + 3, flat) && a + n + 6 <= t
    ensures Closed(code, a, a + n + 6, t, flat)
  {
    var q, b := a + n + 3, a + n + 6;
    assert Decodes(code, q) && CommandSize(code, q) == 3;
    ClosedOne(code, q, t, flat);
    assert Boundary(code, q, q) && Boundary(code, b, b);
    ClosedConcat(code, a + 3, q, b, q, t, flat);
    assert Decodes(code, a) && CommandSize(code, a) == 3;
    ClosedOne(code, a, b, flat);
    ClosedConcat(code, a, a + 3, b, b, t, flat);
  }

  /** Every jump of a compiled program lands on a command or at the very end. */
  lemma ProgramCompiled(e: Alts)
    requires WellFormedAlts(e) && |AltsCode(e)| <= MAX_CODE
    ensures Compiled(AltsCode(e), GroupFreeAlts(e))
  {
    var code := AltsCode(e);
    AtSlice(code, 0, code);
    AltsClosed(code, e, 0, GroupFreeAlts(e));
  }
}
