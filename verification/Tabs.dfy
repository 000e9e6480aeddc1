/** expand of gnu/src/expand.c and unexpand of gnu/src/unexpand.c with tab stops every t
    columns: replacing blanks by tabs is invisible to replacing tabs by blanks. */
module Tabs {
  import opened Streams

  const SPACE: Byte := 32
  const TAB: Byte := 9
  const BACKSPACE: Byte := 8

  function Repeat(c: Byte, n: nat): (r: seq<Byte>)
    ensures |r| == n
    ensures forall k :: 0 <= k < n ==> r[k] == c
  {
    seq(n, _ => c)
  }

  /** The tab stop behind a column. */
  function NextStop(column: nat, t: nat): (n: nat)
    requires t > 0
    ensures n > column
  {
    column + t - column % t
  }

  // ---------------------------------------------------------------- expand

  /** Where a character leaves the column. */
  function Moved(c: Byte, column: nat, t: nat): nat
    requires t > 0
  {
    if c == NL then 0
    else if c == TAB then NextStop(column, t)
    else if c == BACKSPACE then (if column > 0 then column - 1 else 0)
    else column + 1
  }

  function Shown(c: Byte, column: nat, t: nat): seq<Byte>
    requires t > 0
  {
    if c == TAB then Repeat(SPACE, NextStop(column, t) - column) else [c]
  }

  function ColumnAfter(s: seq<Byte>, column: nat, t: nat): nat
    requires t > 0
  {
    if s == [] then column else ColumnAfter(s[1..], Moved(s[0], column, t), t)
  }

  function Expanded(s: seq<Byte>, column: nat, t: nat): seq<Byte>
    requires t > 0
  {
    if s == [] then [] else Shown(s[0], column, t) + Expanded(s[1..], Moved(s[0], column, t), t)
  }

  lemma {:induction false} ExpandedAppend(a: seq<Byte>, b: seq<Byte>, column: nat, t: nat)
    requires t > 0
    ensures Expanded(a + b, column, t) == Expanded(a, column, t) + Expanded(b, ColumnAfter(a, column, t), t)
    ensures ColumnAfter(a + b, column, t) == ColumnAfter(b, ColumnAfter(a, column, t), t)
    decreases |a|
  {
    hide Moved, Shown;
    if a == [] {
      assert a + b == b;
    } else {
      ExpandedAppend(a[1..], b, Moved(a[0], column, t), t);
      assert (a + b)[1..] == a[1..] + b;
    }
  }

  lemma ExpandedOne(c: Byte, column: nat, t: nat)
    requires t > 0
    ensures Expanded([c], column, t) == Shown(c, column, t) && ColumnAfter([c], column, t) == Moved(c, column, t)
  {
    assert [c][1..] == [];
  }

  /** Tabs become blanks up to the next stop, on the whole line. */
  method Expand(s: seq<Byte>, t: nat) returns (out: seq<Byte>)
    requires t > 0
    ensures out == Expanded(s, 0, t)
  {
    out := [];
    var column: nat, i: nat := 0, 0;
    while i < |s|
      invariant 0 <= i <= |s| && out == Expanded(s[..i], 0, t) && column == ColumnAfter(s[..i], 0, t)
    {
      hide Expanded, ColumnAfter;
      var c := s[i];
      ExpandedAppend(s[..i], [c], 0, t);
      ExpandedOne(c, column, t);
      assert s[..i + 1] == s[..i] + [c];
      if c == NL {
        out := out + [c];
        column := 0;
      } else if c == TAB {
        out, column := WriteSpaces(out, column, NextStop(column, t));
      } else {
        if c == BACKSPACE {
          if column > 0 {
            column := column - 1;
          }
        } else {
          column := column + 1;
        }
        out := out + [c];
      }
      i := i + 1;
    }
    assert s[..i] == s;
  }

  method WriteSpaces(out0: seq<Byte>, column0: nat, to: nat) returns (out: seq<Byte>, column: nat)
    requires column0 <= to
    ensures column == to && out == out0 + Repeat(SPACE, to - column0)
  {
    out, column := out0, column0;
    while column < to
      invariant column0 <= column <= to && out == out0 + Repeat(SPACE, column - column0)
    {
      assert Repeat(SPACE, column + 1 - column0) == Repeat(SPACE, column - column0) + [SPACE];
      out := out + [SPACE];
      column := column + 1;
    }
  }

  // ---------------------------------------------------------------- unexpand

  /** The blanks from one column to another: a single one as it is, others as a tab for each
      stop on the way, and blanks behind the last. */
  function Blanks(from: nat, to: nat, t: nat): seq<Byte>
    requires t > 0 && from <= to
  {
    if to - from <= 1 then Repeat(SPACE, to - from)
    else if from / t < to / t then Repeat(TAB, to / t - from / t) + Repeat(SPACE, to % t)
    else Repeat(SPACE, to - from)
  }

  /** The rest of a line's text; pending blanks end at column. */
  function Unexpanded(s: seq<Byte>, column: nat, pending: nat, convert: bool, all: bool, t: nat): seq<Byte>
    requires t > 0 && pending <= column && (!convert ==> pending == 0)
  {
    if s == [] then []
    else if convert && (s[0] == SPACE || s[0] == TAB) then
      var to := Moved(s[0], column, t);
      Unexpanded(s[1..], to, pending + (to - column), true, all, t)
    else
      Blanks(column - pending, column, t) + [s[0]] + Unexpanded(s[1..], Column(s[0], column, convert, t), 0, Converts(s[0], convert, all), all, t)
  }

  /** The column is not kept where nothing is converted any more. */
  function Column(c: Byte, column: nat, convert: bool, t: nat): nat
    requires t > 0
  {
    if c == NL then 0 else if convert then Moved(c, column, t) else column
  }

  predicate Converts(c: Byte, convert: bool, all: bool) {
    c == NL || (convert && (all || c == BACKSPACE))
  }

  /** The blanks that are still pending at the end. */
  function Pending(s: seq<Byte>, column: nat, pending: nat, convert: bool, all: bool, t: nat): nat
    requires t > 0
  {
    if s == [] then pending
    else if convert && (s[0] == SPACE || s[0] == TAB) then
      var to := Moved(s[0], column, t);
      if to >= column then Pending(s[1..], to, pending + (to - column), true, all, t) else 0
    else Pending(s[1..], Column(s[0], column, convert, t), 0, Converts(s[0], convert, all), all, t)
  }

  /** Nothing is pending at the end of a line. */
  lemma {:induction false} NothingPending(s: seq<Byte>, column: nat, pending: nat, convert: bool, all: bool, t: nat)
    requires t > 0 && s != [] && s[|s| - 1] == NL
    ensures Pending(s, column, pending, convert, all, t) == 0
    decreases |s|
  {
    if |s| > 1 {
      if convert && (s[0] == SPACE || s[0] == TAB) {
        var to := Moved(s[0], column, t);
        if to >= column {
          NothingPending(s[1..], to, pending + (to - column), true, all, t);
        }
      } else {
        NothingPending(s[1..], Column(s[0], column, convert, t), 0, Converts(s[0], convert, all), all, t);
      }
    } else {
      assert s[1..] == [];
    }
  }

  // ---------------------------------------------------------------- stops

  lemma StopOf(column: nat, t: nat)
    requires t > 0
    ensures NextStop(column, t) == t * (column / t + 1)
    ensures NextStop(column, t) / t == column / t + 1
    ensures t * (column / t) == column - column % t
  {
    assert column == t * (column / t) + column % t;
    var q := column / t + 1;
    assert t * q == t * (column / t) + t;
    Quotient(q, 0, t);
  }

  lemma Multiple(t: int, e: int)
    requires t > 0
    ensures e >= 1 ==> t * e >= t
    ensures e <= -1 ==> t * e <= -t
  {
  }

  lemma Quotient(q: nat, r: nat, t: nat)
    requires t > 0 && r < t
    ensures (t * q + r) / t == q && (t * q + r) % t == r
  {
    var x := t * q + r;
    var d, m := x / t, x % t;
    assert x == t * d + m;
    var e := q - d;
    assert t * e == t * q - t * d == m - r;
    Multiple(t, e);
  }

  lemma QuotientMonotone(a: nat, b: nat, t: nat)
    requires t > 0 && a <= b
    ensures a / t <= b / t
    ensures a / t == b / t ==> b < NextStop(a, t)
    ensures a / t < b / t ==> NextStop(a, t) <= b
  {
    StopOf(a, t);
    assert a == t * (a / t) + a % t && b == t * (b / t) + b % t;
    var e := b / t - a / t;
    assert t * e == t * (b / t) - t * (a / t);
    Multiple(t, e);
  }

  // ---------------------------------------------------------------- blanks and tabs look the same

  lemma {:induction false} SpacesExpand(n: nat, column: nat, t: nat)
    requires t > 0
    ensures Expanded(Repeat(SPACE, n), column, t) == Repeat(SPACE, n)
    ensures ColumnAfter(Repeat(SPACE, n), column, t) == column + n
    decreases n
  {
    if n > 0 {
      SpacesExpand(n - 1, column + 1, t);
      assert Repeat(SPACE, n)[1..] == Repeat(SPACE, n - 1);
      assert Repeat(SPACE, n) == [SPACE] + Repeat(SPACE, n - 1);
    }
  }

  /** n tabs go to the n-th stop. */
  lemma {:induction false} TabsExpand(n: nat, column: nat, t: nat)
    requires t > 0 && n > 0
    ensures t * (column / t + n) >= column
    ensures Expanded(Repeat(TAB, n), column, t) == Repeat(SPACE, t * (column / t + n) - column)
    ensures ColumnAfter(Repeat(TAB, n), column, t) == t * (column / t + n)
    decreases n
  {
    StopOf(column, t);
    var stop := NextStop(column, t);
    assert Repeat(TAB, n)[1..] == Repeat(TAB, n - 1);
    if n > 1 {
      TabsExpand(n - 1, stop, t);
      assert t * (stop / t + (n - 1)) == t * (column / t + n);
      assert Repeat(SPACE, t * (column / t + n) - column) == Repeat(SPACE, stop - column) + Repeat(SPACE, t * (column / t + n) - stop);
    }
  }

  /** Blanks compressed to tabs expand to as many blanks. */
  lemma BlanksExpand(from: nat, to: nat, t: nat)
    requires t > 0 && from <= to
    ensures Expanded(Blanks(from, to, t), from, t) == Repeat(SPACE, to - from)
    ensures ColumnAfter(Blanks(from, to, t), from, t) == to
  {
    SpacesExpand(to - from, from, t);
    if to - from > 1 && from / t < to / t {
      var n := to / t - from / t;
      var stop := t * (from / t + n);
      StopOf(to, t);
      TabsExpand(n, from, t);
      SpacesExpand(to % t, stop, t);
      ExpandedAppend(Repeat(TAB, n), Repeat(SPACE, to % t), from, t);
      assert Repeat(SPACE, stop - from) + Repeat(SPACE, to % t) == Repeat(SPACE, to - from);
    }
  }

  /** Blanks, a character and what follows it. */
  lemma FlushedExpand(from: nat, to: nat, c: Byte, rest: seq<Byte>, t: nat)
    requires t > 0 && from <= to
    ensures Expanded(Blanks(from, to, t) + [c] + rest, from, t)
         == Repeat(SPACE, to - from) + Shown(c, to, t) + Expanded(rest, Moved(c, to, t), t)
  {
    hide Blanks, Moved, Shown, Expanded, ColumnAfter;
    var b := Blanks(from, to, t);
    BlanksExpand(from, to, t);
    ExpandedOne(c, to, t);
    ExpandedAppend(b, [c], from, t);
    ExpandedAppend(b + [c], rest, from, t);
  }

  lemma SpacesTogether(m: nat, n: nat)
    ensures Repeat(SPACE, m + n) == Repeat(SPACE, m) + Repeat(SPACE, n)
  {
  }

  lemma BlankShown(c: Byte, column: nat, t: nat)
    requires t > 0 && (c == SPACE || c == TAB)
    ensures Moved(c, column, t) > column && Shown(c, column, t) == Repeat(SPACE, Moved(c, column, t) - column)
  {
  }

  /** What unexpand writes expands as its input does, but for blanks still pending at the
      end. Here e is the column of both, which unexpand knows while it converts. */
  lemma {:induction false} ExpandUnexpanded(s: seq<Byte>, column: nat, pending: nat, convert: bool, all: bool, t: nat, e: nat)
    requires t > 0 && pending <= column && (!convert ==> pending == 0) && (convert ==> e == column) && pending <= e
    ensures Expanded(Unexpanded(s, column, pending, convert, all, t), e - pending, t)
              + Repeat(SPACE, Pending(s, column, pending, convert, all, t))
         == Repeat(SPACE, pending) + Expanded(s, e, t)
    decreases |s|
  {
    hide Blanks, Moved, Shown, Repeat;
    if s == [] {
      assert Expanded(s, e, t) == [] == Expanded([], e - pending, t);
    } else if convert && (s[0] == SPACE || s[0] == TAB) {
      var to := Moved(s[0], column, t);
      BlankShown(s[0], column, t);
      ExpandUnexpanded(s[1..], to, pending + (to - column), true, all, t, to);
      SpacesTogether(pending, to - column);
    } else {
      var column', convert', e' := Column(s[0], column, convert, t), Converts(s[0], convert, all), Moved(s[0], e, t);
      LineStart(s[0], e, t);
      ExpandUnexpanded(s[1..], column', 0, convert', all, t, e');
      FlushedExpand(e - pending, e, s[0], Unexpanded(s[1..], column', 0, convert', all, t), t);
      NoBlanks(column, e, t);
      assert Blanks(column - pending, column, t) == Blanks(e - pending, e, t);
      SpacesLast(Repeat(SPACE, pending), Shown(s[0], e, t), Expanded(Unexpanded(s[1..], column', 0, convert', all, t), e', t),
                 Repeat(SPACE, Pending(s[1..], column', 0, convert', all, t)), Expanded(s[1..], e', t));
    }
  }

  lemma SpacesLast(a: seq<Byte>, b: seq<Byte>, u: seq<Byte>, p: seq<Byte>, x: seq<Byte>)
    requires u + p == [] + x
    ensures (a + b + u) + p == a + (b + x)
  {
    assert (a + b + u) + p == a + (b + (u + p));
    assert [] + x == x;
  }

  lemma LineStart(c: Byte, e: nat, t: nat)
    requires t > 0
    ensures c == NL ==> Moved(c, e, t) == 0
  {
  }

  lemma NoBlanks(column: nat, e: nat, t: nat)
    requires t > 0
    ensures Blanks(column, column, t) == [] == Blanks(e, e, t) && Repeat(SPACE, 0) == []
  {
  }

  // ---------------------------------------------------------------- what is pending, told from the text

  predicate Blank(c: Byte) {
    c == SPACE || c == TAB
  }

  /** From the last newline on there are only blanks, tabs and backspaces. */
  predicate LeadingOnly(s: seq<Byte>) {
    forall i :: 0 <= i < |s| && NL !in s[i..] ==> Blank(s[i]) || s[i] == BACKSPACE
  }

  /** The text ends in blanks that unexpand would convert: with -a any, otherwise those in
      front of all text of the last line. */
  predicate EndsInBlanks(s: seq<Byte>, all: bool) {
    s != [] && Blank(s[|s| - 1]) && (all || LeadingOnly(s))
  }

  lemma {:induction false} PendingIs(s: seq<Byte>, column: nat, pending: nat, convert: bool, all: bool, t: nat)
    requires t > 0 && s != [] && (all ==> convert)
    ensures Pending(s, column, pending, convert, all, t) > 0 <==> EndsInBlanks(s, all) && (convert || NL in s)
    decreases |s|
  {
    hide Moved, LeadingOnly, Shown, Repeat;
    if convert && Blank(s[0]) {
      BlankShown(s[0], column, t);
    }
    LeadingTail(s);
    if |s| == 1 {
      LeadingNone();
      assert s[1..] == [];
    } else {
      var to := Moved(s[0], column, t);
      if convert && Blank(s[0]) {
        PendingIs(s[1..], to, pending + (to - column), true, all, t);
      } else {
        PendingIs(s[1..], Column(s[0], column, convert, t), 0, Converts(s[0], convert, all), all, t);
      }
    }
  }

  lemma LeadingNone()
    ensures LeadingOnly([])
  {
  }

  lemma LeadingTail(s: seq<Byte>)
    requires s != []
    ensures LeadingOnly(s) <==> LeadingOnly(s[1..]) && (NL !in s ==> Blank(s[0]) || s[0] == BACKSPACE)
  {
    assert s[0..] == s;
    assert forall i :: 0 <= i < |s| - 1 ==> s[1..][i..] == s[i + 1..];
    if LeadingOnly(s) {
      forall i | 0 <= i < |s| - 1 && NL !in s[1..][i..] ensures Blank(s[1..][i]) || s[1..][i] == BACKSPACE {
        assert NL !in s[i + 1..];
      }
    }
    if LeadingOnly(s[1..]) && (NL !in s ==> Blank(s[0]) || s[0] == BACKSPACE) {
      forall i | 0 <= i < |s| && NL !in s[i..] ensures Blank(s[i]) || s[i] == BACKSPACE {
        if i > 0 {
          assert s[1..][i - 1..] == s[i..];
        }
      }
    }
  }

  /** Compressing blanks is invisible unless the text ends in blanks to be converted. */
  lemma UnexpandIsInvisible(s: seq<Byte>, all: bool, t: nat)
    requires t > 0
    ensures Expanded(Unexpanded(s, 0, 0, true, all, t), 0, t) == Expanded(s, 0, t) <==> !EndsInBlanks(s, all)
  {
    ExpandUnexpanded(s, 0, 0, true, all, t, 0);
    var out, p := Expanded(Unexpanded(s, 0, 0, true, all, t), 0, t), Pending(s, 0, 0, true, all, t);
    assert Repeat(SPACE, 0) + Expanded(s, 0, t) == Expanded(s, 0, t);
    assert |Expanded(s, 0, t)| == |out| + p;
    assert p == 0 ==> out + Repeat(SPACE, p) == out;
    if s != [] {
      PendingIs(s, 0, 0, true, all, t);
    }
  }

  // ---------------------------------------------------------------- the loop of unexpand

  /** From a column, tabs have been written to the last stop before another. */
  ghost predicate Tabbed(out: seq<Byte>, out0: seq<Byte>, from: nat, column: nat, t: nat)
    requires t > 0
  {
    && from <= column && from / t <= column / t
    && out == out0 + Repeat(TAB, column / t - from / t)
    && (column == from || (column % t == 0 && from / t < column / t))
  }

  lemma OneMoreTab(out: seq<Byte>, out0: seq<Byte>, from: nat, column: nat, t: nat)
    requires t > 0 && Tabbed(out, out0, from, column, t)
    ensures Tabbed(out + [TAB], out0, from, NextStop(column, t), t)
  {
    StopOf(column, t);
    Quotient(column / t + 1, 0, t);
    var n := column / t - from / t;
    assert Repeat(TAB, n + 1) == Repeat(TAB, n) + [TAB];
  }

  lemma NoTabYet(out0: seq<Byte>, from: nat, t: nat)
    requires t > 0
    ensures Tabbed(out0, out0, from, from, t)
  {
    assert out0 + Repeat(TAB, 0) == out0;
  }

  lemma SingleBlank(to: nat, t: nat)
    requires t > 0 && to > 0
    ensures Blanks(to - 1, to, t) == [SPACE]
  {
  }

  lemma TabbedBlanks(out: seq<Byte>, out0: seq<Byte>, from: nat, column: nat, to: nat, t: nat)
    requires t > 0 && Tabbed(out, out0, from, column, t) && column <= to < NextStop(column, t) && to - from != 1
    ensures out + Repeat(SPACE, to - column) == out0 + Blanks(from, to, t)
  {
    QuotientMonotone(column, to, t);
    StopOf(column, t);
    StopOf(to, t);
  }

  /** Writes as many tabs as possible and then blanks. */
  method FlushPending(out0: seq<Byte>, to: nat, pending0: nat, t: nat) returns (out: seq<Byte>, column: nat)
    requires t > 0 && pending0 <= to
    ensures out == out0 + Blanks(to - pending0, to, t) && column == to
  {
    out, column := out0, to;
    var pending := pending0;
    hide Blanks, Tabbed, Repeat;
    if pending == 1 {
      SingleBlank(to, t);
      out := out + [SPACE];
      return;
    }
    column := column - pending;
    ghost var from := column;
    NoTabYet(out0, from, t);
    while pending != 0 && NextStop(column, t) - column <= pending
      invariant 0 <= pending && column + pending == to && Tabbed(out, out0, from, column, t)
      decreases pending
    {
      hide Blanks, Tabbed, Repeat;
      OneMoreTab(out, out0, from, column, t);
      out := out + [TAB];
      pending := pending - (NextStop(column, t) - column);
      column := NextStop(column, t);
    }
    TabbedBlanks(out, out0, from, column, to, t);
    out, column := WriteSpaces(out, column, column + pending);
  }

  /** Writes what is pending and the character. */
  method PutOther(c: Byte, out0: seq<Byte>, column0: nat, pending: nat, convert0: bool, all: bool, t: nat)
    returns (out: seq<Byte>, column: nat, convert: bool)
    requires t > 0 && pending <= column0 && !(convert0 && (c == SPACE || c == TAB))
    ensures out == out0 + Blanks(column0 - pending, column0, t) + [c]
    ensures column == Column(c, column0, convert0, t) && (convert <==> Converts(c, convert0, all))
  {
    convert := convert0;
    out, column := FlushPending(out0, column0, pending, t);
    if convert {
      if c == BACKSPACE {
        if column > 0 {
          column := column - 1;
        }
      } else {
        column := column + 1;
        if !all {
          convert := false;
        }
      }
    }
    out := out + [c];
    if c == NL {
      column := 0;
      convert := true;
    }
  }

  /** Pending blanks are counted, and written before the next character; after the first of
      a line nothing more is converted, unless all blanks are to be. */
  method Unexpand(s: seq<Byte>, all: bool, t: nat) returns (out: seq<Byte>)
    requires t > 0
    ensures out == Unexpanded(s, 0, 0, true, all, t)
  {
    out := [];
    var column: nat, pending: nat, convert, i: nat := 0, 0, true, 0;
    ghost var whole, todo := Unexpanded(s, 0, 0, true, all, t), s;
    while i < |s|
      invariant 0 <= i <= |s| && todo == s[i..] && pending <= column && (!convert ==> pending == 0)
      invariant out + Unexpanded(todo, column, pending, convert, all, t) == whole
    {
      hide Blanks, Column, Converts, Unexpanded;
      var c := s[i];
      if (c == SPACE || c == TAB) && convert {
        UnexpandedBlank(todo, column, pending, all, t);
        var next := if c == SPACE then column + 1 else NextStop(column, t);
        pending := pending + (next - column);
        column := next;
      } else {
        UnexpandedOther(out, todo, column, pending, convert, all, t);
        out, column, convert := PutOther(c, out, column, pending, convert, all, t);
        pending := 0;
      }
      todo := todo[1..];
      i := i + 1;
    }
    assert todo == [];
  }

  lemma UnexpandedBlank(s: seq<Byte>, column: nat, pending: nat, all: bool, t: nat)
    requires t > 0 && pending <= column && s != [] && (s[0] == SPACE || s[0] == TAB)
    ensures var next := if s[0] == SPACE then column + 1 else NextStop(column, t);
      Unexpanded(s, column, pending, true, all, t) == Unexpanded(s[1..], next, pending + (next - column), true, all, t)
  {
  }

  lemma UnexpandedOther(out: seq<Byte>, s: seq<Byte>, column: nat, pending: nat, convert: bool, all: bool, t: nat)
    requires t > 0 && pending <= column && (!convert ==> pending == 0) && s != [] && !(convert && (s[0] == SPACE || s[0] == TAB))
    ensures out + Unexpanded(s, column, pending, convert, all, t)
         == (out + Blanks(column - pending, column, t) + [s[0]])
              + Unexpanded(s[1..], Column(s[0], column, convert, t), 0, Converts(s[0], convert, all), all, t)
  {
    hide Blanks, Column, Converts;
  }
}
