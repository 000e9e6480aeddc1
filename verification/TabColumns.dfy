/** Where tabs end, told from the output of expand alone, and where unexpand puts them. */
module TabColumns {
  import opened Streams
  import opened Tabs

  // ---------------------------------------------------------------- columns of a text without tabs

  /** Characters less backspaces. */
  function Net(s: seq<Byte>): int {
    if s == [] then 0 else Net(s[..|s| - 1]) + if s[|s| - 1] == BACKSPACE then -1 else 1
  }

  /** Where the last line begins. */
  function LastLine(s: seq<Byte>): (k: nat)
    ensures k <= |s| && NL !in s[k..] && (k > 0 ==> s[k - 1] == NL)
  {
    if s == [] || s[|s| - 1] == NL then |s|
    else
      var k := LastLine(s[..|s| - 1]);
      assert s[k..] == s[..|s| - 1][k..] + [s[|s| - 1]];
      k
  }

  /** The column behind a text: the characters of its last line less the backspaces, never
      below zero, so that only what follows the last time at zero counts. */
  ghost predicate AtColumn(s: seq<Byte>, column: nat) {
    var line := s[LastLine(s)..];
    && (forall k :: 0 <= k <= |line| ==> Net(line[k..]) <= column)
    && exists k :: 0 <= k <= |line| && Net(line[k..]) == column
  }

  lemma {:induction false} NetSplit(a: seq<Byte>, b: seq<Byte>)
    ensures Net(a + b) == Net(a) + Net(b)
    decreases |b|
  {
    if b == [] {
      assert a + b == a;
    } else {
      var b' := b[..|b| - 1];
      NetSplit(a, b');
      assert (a + b)[..|a + b| - 1] == a + b';
    }
  }

  lemma {:induction false} NetPlain(s: seq<Byte>)
    requires BACKSPACE !in s
    ensures Net(s) == |s|
    decreases |s|
  {
    if s != [] {
      NetPlain(s[..|s| - 1]);
    }
  }

  lemma ColumnUnique(s: seq<Byte>, c1: nat, c2: nat)
    requires AtColumn(s, c1) && AtColumn(s, c2)
    ensures c1 == c2
  {
    var line := s[LastLine(s)..];
    var k1 :| 0 <= k1 <= |line| && Net(line[k1..]) == c1;
    var k2 :| 0 <= k2 <= |line| && Net(line[k2..]) == c2;
  }

  /** In a text without newlines and backspaces it is the length. */
  lemma PlainColumn(s: seq<Byte>)
    requires NL !in s && BACKSPACE !in s
    ensures AtColumn(s, |s|)
  {
    LineIs(s, 0);
    assert s[0..] == s;
    forall k | 0 <= k <= |s| ensures Net(s[k..]) == |s| - k {
      NetPlain(s[k..]);
    }
    assert Net(s[0..]) == |s|;
  }

  lemma LineIs(s: seq<Byte>, k: nat)
    requires k <= |s| && NL !in s[k..] && (k > 0 ==> s[k - 1] == NL)
    ensures LastLine(s) == k
  {
    NoneFrom(s, k);
    NoneFrom(s, LastLine(s));
  }

  lemma NoneFrom(s: seq<Byte>, k: nat)
    requires k <= |s| && NL !in s[k..]
    ensures forall i :: k <= i < |s| ==> s[i] != NL
  {
    forall i | k <= i < |s| ensures s[i] != NL {
      assert s[i] == s[k..][i - k];
    }
  }

  // ---------------------------------------------------------------- one more character

  lemma ColumnStart()
    ensures AtColumn([], 0)
  {
    var none: seq<Byte> := [];
    assert none[0..] == [] && Net(none[0..]) == 0;
  }

  /** Ordinary characters go one column on, backspaces one back, newlines to the first. */
  lemma OneColumn(s: seq<Byte>, c: Byte, column: nat)
    requires AtColumn(s, column)
    ensures AtColumn(s + [c], if c == NL then 0 else if c != BACKSPACE then column + 1 else if column > 0 then column - 1 else 0)
  {
    var s' := s + [c];
    var m := LastLine(s);
    if c == NL {
      LineIs(s', |s'|);
      ColumnStart();
      assert s'[|s'|..] == [];
    } else {
      assert s'[m..] == s[m..] + [c];
      LineIs(s', m);
      LineGrows(s[m..], c, column);
    }
  }

  lemma LineGrows(line: seq<Byte>, c: Byte, column: nat)
    requires c != NL
    requires (forall k :: 0 <= k <= |line| ==> Net(line[k..]) <= column) && exists k :: 0 <= k <= |line| && Net(line[k..]) == column
    ensures var line', column' := line + [c], if c != BACKSPACE then column + 1 else if column > 0 then column - 1 else 0;
      && (forall k :: 0 <= k <= |line'| ==> Net(line'[k..]) <= column')
      && exists k :: 0 <= k <= |line'| && Net(line'[k..]) == column'
  {
    var line', d := line + [c], if c == BACKSPACE then -1 else 1;
    forall k | 0 <= k <= |line| ensures Net(line'[k..]) == Net(line[k..]) + d {
      assert line'[k..] == line[k..] + [c];
      NetSplit(line[k..], [c]);
      assert [c][..0] == [];
    }
    assert line'[|line'|..] == [] && Net([]) == 0;
    var k :| 0 <= k <= |line| && Net(line[k..]) == column;
    assert Net(line'[k..]) == column + d;
    assert Net(line'[|line'|..]) == 0;
  }

  lemma {:induction false} BlanksColumn(s: seq<Byte>, n: nat, column: nat)
    requires AtColumn(s, column)
    ensures AtColumn(s + Repeat(SPACE, n), column + n)
    decreases n
  {
    hide AtColumn;
    if n == 0 {
      assert s + Repeat(SPACE, 0) == s;
    } else {
      BlanksColumn(s, n - 1, column);
      OneColumn(s + Repeat(SPACE, n - 1), SPACE, column + n - 1);
      assert s + Repeat(SPACE, n) == s + Repeat(SPACE, n - 1) + [SPACE];
    }
  }

  // ---------------------------------------------------------------- expand

  /** The column that expand keeps is the column of what it has put out. */
  lemma {:induction false} ColumnOfOutput(s: seq<Byte>, t: nat)
    requires t > 0
    ensures AtColumn(Expanded(s, 0, t), ColumnAfter(s, 0, t))
    decreases |s|
  {
    hide AtColumn, Expanded, ColumnAfter, NextStop;
    if s == [] {
      NothingExpanded(t);
      ColumnStart();
    } else {
      var p, c := s[..|s| - 1], s[|s| - 1];
      var column := ColumnAfter(p, 0, t);
      ColumnOfOutput(p, t);
      assert s == p + [c];
      ExpandedAppend(p, [c], 0, t);
      ExpandedOne(c, column, t);
      if c == TAB {
        BlanksColumn(Expanded(p, 0, t), NextStop(column, t) - column, column);
      } else {
        OneColumn(Expanded(p, 0, t), c, column);
      }
    }
  }

  lemma NothingExpanded(t: nat)
    requires t > 0
    ensures Expanded([], 0, t) == [] && ColumnAfter([], 0, t) == 0
  {
  }

  lemma StopIs(column: nat, t: nat)
    requires t > 0
    ensures 0 < NextStop(column, t) - column <= t && NextStop(column, t) % t == 0
  {
    StopOf(column, t);
    Quotient(column / t + 1, 0, t);
  }

  /** A tab becomes blanks up to the least multiple of t behind the column reached. */
  lemma TabEndsAtStop(p: seq<Byte>, t: nat, column: nat)
    requires t > 0 && AtColumn(Expanded(p, 0, t), column)
    ensures exists n: nat :: 0 < n <= t && (column + n) % t == 0 && Expanded(p + [TAB], 0, t) == Expanded(p, 0, t) + Repeat(SPACE, n)
  {
    hide AtColumn, Expanded, ColumnAfter, NextStop;
    ColumnOfOutput(p, t);
    ColumnUnique(Expanded(p, 0, t), column, ColumnAfter(p, 0, t));
    ExpandedAppend(p, [TAB], 0, t);
    ExpandedOne(TAB, column, t);
    StopIs(column, t);
    var n: nat := NextStop(column, t) - column;
    assert (column + n) % t == 0;
  }

  /** In a line without backspaces it is the number of characters put out. */
  lemma TabEndsAtStopPlain(p: seq<Byte>, t: nat)
    requires t > 0 && NL !in p && BACKSPACE !in p
    ensures exists n: nat :: 0 < n <= t && (|Expanded(p, 0, t)| + n) % t == 0 && Expanded(p + [TAB], 0, t) == Expanded(p, 0, t) + Repeat(SPACE, n)
  {
    NothingNew(p, 0, t);
    PlainColumn(Expanded(p, 0, t));
    TabEndsAtStop(p, t, |Expanded(p, 0, t)|);
  }

  lemma {:induction false} NothingNew(p: seq<Byte>, column: nat, t: nat)
    requires t > 0 && NL !in p && BACKSPACE !in p
    ensures NL !in Expanded(p, column, t) && BACKSPACE !in Expanded(p, column, t)
    decreases |p|
  {
    if p != [] {
      NothingNew(p[1..], Moved(p[0], column, t), t);
    }
  }

  /** All other characters stay as they are. */
  lemma OthersStay(p: seq<Byte>, c: Byte, t: nat)
    requires t > 0 && c != TAB
    ensures Expanded(p + [c], 0, t) == Expanded(p, 0, t) + [c]
  {
    ExpandedAppend(p, [c], 0, t);
    ExpandedOne(c, ColumnAfter(p, 0, t), t);
  }

  // ---------------------------------------------------------------- unexpand

  /** How far the loop of unexpand has come. */
  datatype Stage = Stage(column: nat, pending: nat, convert: bool)

  predicate Sane(st: Stage) {
    st.pending <= st.column && (!st.convert ==> st.pending == 0)
  }

  function OneStage(c: Byte, st: Stage, all: bool, t: nat): (st': Stage)
    requires t > 0 && Sane(st)
    ensures Sane(st')
  {
    if st.convert && Blank(c) then
      BlankShown(c, st.column, t);
      var to := Moved(c, st.column, t);
      Stage(to, st.pending + (to - st.column), true)
    else Stage(Column(c, st.column, st.convert, t), 0, Converts(c, st.convert, all))
  }

  function StageAfter(p: seq<Byte>, st: Stage, all: bool, t: nat): (st': Stage)
    requires t > 0 && Sane(st)
    ensures Sane(st')
  {
    if p == [] then st else StageAfter(p[1..], OneStage(p[0], st, all, t), all, t)
  }

  function Compressed(s: seq<Byte>, st: Stage, all: bool, t: nat): seq<Byte>
    requires t > 0 && Sane(st)
  {
    Unexpanded(s, st.column, st.pending, st.convert, all, t)
  }

  lemma {:induction false} CompressedSplit(p: seq<Byte>, rest: seq<Byte>, st: Stage, all: bool, t: nat)
    requires t > 0 && Sane(st)
    ensures Compressed(p + rest, st, all, t) == Compressed(p, st, all, t) + Compressed(rest, StageAfter(p, st, all, t), all, t)
    decreases |p|
  {
    if p == [] {
      assert p + rest == rest;
    } else {
      assert (p + rest)[1..] == p[1..] + rest;
      CompressedSplit(p[1..], rest, OneStage(p[0], st, all, t), all, t);
      FirstCompressed(p, st, all, t);
      FirstCompressed(p + rest, st, all, t);
    }
  }

  lemma FirstCompressed(s: seq<Byte>, st: Stage, all: bool, t: nat)
    requires t > 0 && Sane(st) && s != []
    ensures Compressed(s, st, all, t)
         == (if st.convert && Blank(s[0]) then [] else Blanks(st.column - st.pending, st.column, t) + [s[0]])
              + Compressed(s[1..], OneStage(s[0], st, all, t), all, t)
  {
  }

  /** Whether blanks behind p are converted. */
  predicate Converting(p: seq<Byte>, all: bool) {
    all || LeadingOnly(p)
  }

  lemma {:induction false} StageConverts(p: seq<Byte>, st: Stage, all: bool, t: nat)
    requires t > 0 && Sane(st) && (all ==> st.convert)
    ensures StageAfter(p, st, all, t).convert <==> Converting(p, all) && (st.convert || NL in p)
    decreases |p|
  {
    if p == [] {
      LeadingNone();
    } else {
      LeadingTail(p);
      StageConverts(p[1..], OneStage(p[0], st, all, t), all, t);
    }
  }

  lemma {:induction false} StageColumn(p: seq<Byte>, st: Stage, e: nat, all: bool, t: nat)
    requires t > 0 && Sane(st) && (st.convert ==> st.column == e)
    ensures StageAfter(p, st, all, t).convert ==> StageAfter(p, st, all, t).column == ColumnAfter(p, e, t)
    decreases |p|
  {
    if p != [] {
      LineStart(p[0], e, t);
      StageColumn(p[1..], OneStage(p[0], st, all, t), Moved(p[0], e, t), all, t);
    }
  }

  lemma {:induction false} StagePending(p: seq<Byte>, st: Stage, all: bool, t: nat)
    requires t > 0 && Sane(st) && if p == [] then st.pending == 0 else !Blank(p[|p| - 1])
    ensures StageAfter(p, st, all, t).pending == 0
    decreases |p|
  {
    if |p| == 1 {
      assert p[1..] == [];
    } else if p != [] {
      StagePending(p[1..], OneStage(p[0], st, all, t), all, t);
    }
  }

  const START: Stage := Stage(0, 0, true)

  /** What stands for blanks from one column to another: one blank as it is; otherwise m tabs
      that end at the last stop, the m-th of those behind the first column, and then blanks. */
  ghost predicate IsRun(run: seq<Byte>, from: nat, to: nat, t: nat) {
    if from <= to <= from + 1 then run == Repeat(SPACE, to - from)
    else exists m: nat, k: nat :: OfTabs(run, m, k, from, to, t)
  }

  predicate OfTabs(run: seq<Byte>, m: nat, k: nat, from: nat, to: nat, t: nat) {
    && run == Repeat(TAB, m) + Repeat(SPACE, k) && from + k <= to && t > 0
    && if m == 0 then from + k == to && forall x :: from < x <= to ==> x % t != 0
       else k < t && (to - k) % t == 0 && t * (m - 1) < to - k - from <= t * m
  }

  lemma BlanksAreRun(from: nat, to: nat, t: nat)
    requires t > 0 && from <= to
    ensures IsRun(Blanks(from, to, t), from, to, t)
  {
    hide OfTabs;
    if to - from > 1 {
      QuotientMonotone(from, to, t);
      if from / t < to / t {
        TabsToStop(from, to, t);
      } else {
        NoStop(from, to, t);
        assert Repeat(TAB, 0) + Repeat(SPACE, to - from) == Repeat(SPACE, to - from);
      }
    }
  }

  lemma TabsToStop(from: nat, to: nat, t: nat)
    requires t > 0 && from / t < to / t && from <= to
    ensures OfTabs(Repeat(TAB, to / t - from / t) + Repeat(SPACE, to % t), to / t - from / t, to % t, from, to, t)
  {
    StopOf(from, t);
    StopOf(to, t);
    Quotient(to / t, 0, t);
    var m, last := to / t - from / t, t * (to / t);
    Spread(t, to / t, from / t);
    QuotientMonotone(from, to, t);
    assert last == to - to % t && t * m == last - t * (from / t) && t * (m - 1) == t * m - t;
  }

  lemma Spread(t: int, a: int, b: int)
    ensures t * (a - b) == t * a - t * b && t * (a - b - 1) == t * (a - b) - t
  {
  }

  lemma NoStop(from: nat, to: nat, t: nat)
    requires t > 0 && from <= to && from / t == to / t
    ensures OfTabs(Repeat(TAB, 0) + Repeat(SPACE, to - from), 0, to - from, from, to, t)
  {
    forall x | from < x <= to ensures x % t != 0 {
      SameQuotient(from, x, to, t);
    }
  }

  lemma SameQuotient(from: nat, x: nat, to: nat, t: nat)
    requires t > 0 && from < x <= to && from / t == to / t
    ensures x % t != 0
  {
    QuotientMonotone(from, x, t);
    QuotientMonotone(x, to, t);
    StopOf(from, t);
    StopOf(x, t);
  }

  /** Behind a text where blanks are converted, blanks before another character become tabs
      to the stops between the columns that expand reaches, and blanks. */
  lemma RunOfBlanks(p: seq<Byte>, b: seq<Byte>, c: Byte, all: bool, t: nat, from: nat, to: nat) returns (run: seq<Byte>)
    requires t > 0 && Converting(p, all) && (p != [] ==> !Blank(p[|p| - 1]))
    requires (forall k :: 0 <= k < |b| ==> Blank(b[k])) && !Blank(c)
    requires AtColumn(Expanded(p, 0, t), from) && AtColumn(Expanded(p + b, 0, t), to)
    ensures IsRun(run, from, to, t)
    ensures Unexpanded(p + b + [c], 0, 0, true, all, t) == Unexpanded(p, 0, 0, true, all, t) + run + [c]
  {
    hide Unexpanded, Expanded, AtColumn, Blanks, IsRun, OfTabs, Converting, ColumnAfter, StageAfter, Repeat, NextStop;
    StageBehind(p, all, t, from);
    ColumnOfOutput(p, t);
    ColumnOfOutput(p + b, t);
    ColumnUnique(Expanded(p, 0, t), from, ColumnAfter(p, 0, t));
    ColumnUnique(Expanded(p + b, 0, t), to, ColumnAfter(p + b, 0, t));
    ExpandedAppend(p, b, 0, t);
    BlanksPile(b, Stage(from, 0, true), all, t);
    run := Blanks(from, to, t);
    BlanksAreRun(from, to, t);
    CompressedRun(p, b, c, Stage(from, 0, true), to, all, t);
  }

  /** Where a text ends that blanks follow. */
  lemma StageBehind(p: seq<Byte>, all: bool, t: nat, from: nat)
    requires t > 0 && Converting(p, all) && (p != [] ==> !Blank(p[|p| - 1]))
    requires AtColumn(Expanded(p, 0, t), from)
    ensures StageAfter(p, START, all, t) == Stage(from, 0, true)
  {
    hide Unexpanded, Expanded, AtColumn, Converting, ColumnAfter, StageAfter, Moved;
    ColumnOfOutput(p, t);
    ColumnUnique(Expanded(p, 0, t), from, ColumnAfter(p, 0, t));
    StageConverts(p, START, all, t);
    StageColumn(p, START, 0, all, t);
    StagePending(p, START, all, t);
  }

  lemma CompressedRun(p: seq<Byte>, b: seq<Byte>, c: Byte, st: Stage, to: nat, all: bool, t: nat)
    requires t > 0 && !Blank(c) && Sane(st) && StageAfter(p, START, all, t) == st && st.pending == 0 && st.column <= to
    requires StageAfter(b, st, all, t) == Stage(to, to - st.column, true) && Compressed(b, st, all, t) == []
    ensures Compressed(p + b + [c], START, all, t) == Compressed(p, START, all, t) + Blanks(st.column, to, t) + [c]
  {
    hide Compressed, StageAfter, Blanks, Blank;
    assert p + b + [c] == p + (b + [c]);
    CompressedSplit(p, b + [c], START, all, t);
    CompressedSplit(b, [c], st, all, t);
    LastCompressed(c, StageAfter(b, st, all, t), all, t);
    var front, run := Compressed(p, START, all, t), Blanks(st.column, to, t);
    assert front + ([] + (run + [c])) == front + run + [c];
  }

  lemma LastCompressed(c: Byte, st: Stage, all: bool, t: nat)
    requires t > 0 && Sane(st) && !(st.convert && Blank(c))
    ensures Compressed([c], st, all, t) == Blanks(st.column - st.pending, st.column, t) + [c]
  {
    FirstCompressed([c], st, all, t);
    assert [c][1..] == [] && Compressed([], OneStage(c, st, all, t), all, t) == [];
  }

  lemma {:induction false} BlanksPile(b: seq<Byte>, st: Stage, all: bool, t: nat)
    requires t > 0 && Sane(st) && st.convert && forall k :: 0 <= k < |b| ==> Blank(b[k])
    ensures Compressed(b, st, all, t) == []
    ensures var st', to := StageAfter(b, st, all, t), ColumnAfter(b, st.column, t);
            st.column <= to && st' == Stage(to, st.pending + (to - st.column), true)
    decreases |b|
  {
    if b != [] {
      BlankShown(b[0], st.column, t);
      BlanksPile(b[1..], OneStage(b[0], st, all, t), all, t);
      FirstCompressed(b, st, all, t);
    }
  }

  /** Elsewhere every character stays as it is. */
  lemma NoneConverted(p: seq<Byte>, c: Byte, all: bool, t: nat)
    requires t > 0 && !Converting(p, all)
    ensures Unexpanded(p + [c], 0, 0, true, all, t) == Unexpanded(p, 0, 0, true, all, t) + [c]
  {
    StageConverts(p, START, all, t);
    var st := StageAfter(p, START, all, t);
    CompressedSplit(p, [c], START, all, t);
    LastCompressed(c, st, all, t);
    NoBlanks(st.column, st.column, t);
  }
}
