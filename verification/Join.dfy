/** join of gnu/src/join.c: two files, each sorted on its join field, are read in step, a
    group of equal lines at a time with one line read ahead. */
module Join {
  import opened SortNumber
  import opened SortText

  /** A line is the list of its fields. */
  type Line = seq<Text>

  /** The join field; a line that does not have it counts as having an empty one. */
  function Key(line: Line, field: nat): Text {
    if field < |line| then line[field] else []
  }

  function KeyOrder(line1: Line, line2: Line, field1: nat, field2: nat): int {
    TextOrder(Key(line1, field1), Key(line2, field2), false)
  }

  /** The fields are compared as bytes, an empty one before every other. */
  method KeyCmp(line1: Line, line2: Line, field1: nat, field2: nat) returns (diff: int)
    ensures diff < 0 <==> KeyOrder(line1, line2, field1, field2) < 0
    ensures diff > 0 <==> KeyOrder(line1, line2, field1, field2) > 0
    ensures diff < 0 <==> Precedes(Key(line1, field1), Key(line2, field2), false)
    ensures diff > 0 <==> Precedes(Key(line2, field2), Key(line1, field1), false)
    ensures diff == 0 <==> Key(line1, field1) == Key(line2, field2)
  {
    hide Precedes;
    TextOrderIsPrecedence(Key(line1, field1), Key(line2, field2), false);
    var a, b := Key(line1, field1), Key(line2, field2);
    EqualIsIdentical(a, b, false);
    if |a| == 0 {
      return if |b| == 0 then 0 else -1;
    }
    if |b| == 0 {
      return 1;
    }
    diff := MemCmp(a, b, if |a| < |b| then |a| else |b|);
    if diff == 0 {
      diff := |a| - |b|;
    }
  }

  // ---------------------------------------------------------------- what a join is

  datatype Row = Pair(line1: Line, line2: Line) | Only1(line: Line) | Only2(line: Line)

  datatype Fields = Fields(one: nat, two: nat)

  predicate Matches(f: Fields, line1: Line, line2: Line) {
    Key(line1, f.one) == Key(line2, f.two)
  }

  /** A line of the first file with each line of the second that has the same key. */
  function PairsOfLine(f: Fields, line: Line, file2: seq<Line>): seq<Row> {
    if file2 == [] then []
    else (if Matches(f, line, file2[0]) then [Pair(line, file2[0])] else []) + PairsOfLine(f, line, file2[1..])
  }

  function Pairs(f: Fields, file1: seq<Line>, file2: seq<Line>): seq<Row> {
    if file1 == [] then [] else PairsOfLine(f, file1[0], file2) + Pairs(f, file1[1..], file2)
  }

  /** The lines of the first file that pair with none of the second. */
  function Lone1(f: Fields, file1: seq<Line>, file2: seq<Line>): seq<Row> {
    if file1 == [] then []
    else (if PairsOfLine(f, file1[0], file2) == [] then [Only1(file1[0])] else []) + Lone1(f, file1[1..], file2)
  }

  predicate Pairless2(f: Fields, line: Line, file1: seq<Line>) {
    forall i :: 0 <= i < |file1| ==> !Matches(f, file1[i], line)
  }

  function Lone2(f: Fields, file1: seq<Line>, file2: seq<Line>): seq<Row> {
    if file2 == [] then []
    else (if Pairless2(f, file2[0], file1) then [Only2(file2[0])] else []) + Lone2(f, file1, file2[1..])
  }

  predicate NoMatch(f: Fields, file1: seq<Line>, file2: seq<Line>) {
    forall i, j :: 0 <= i < |file1| && 0 <= j < |file2| ==> !Matches(f, file1[i], file2[j])
  }

  lemma {:induction false} PairsOfLineSplit(f: Fields, line: Line, g: seq<Line>, r: seq<Line>)
    ensures PairsOfLine(f, line, g + r) == PairsOfLine(f, line, g) + PairsOfLine(f, line, r)
    decreases |g|
  {
    if g == [] {
      assert g + r == r;
    } else {
      PairsOfLineSplit(f, line, g[1..], r);
      assert (g + r)[1..] == g[1..] + r;
    }
  }

  lemma {:induction false} NoPairs(f: Fields, line: Line, file2: seq<Line>)
    requires forall j :: 0 <= j < |file2| ==> !Matches(f, line, file2[j])
    ensures PairsOfLine(f, line, file2) == []
    decreases |file2|
  {
    if file2 != [] {
      NoPairs(f, line, file2[1..]);
    }
  }

  lemma {:induction false} SomePair(f: Fields, line: Line, file2: seq<Line>, j: nat)
    requires j < |file2| && Matches(f, line, file2[j])
    ensures PairsOfLine(f, line, file2) != []
    decreases |file2|
  {
    if j > 0 {
      SomePair(f, line, file2[1..], j - 1);
    }
  }

  /** Every row of a pair is there as often as its lines are in the files. */
  lemma {:induction false} PairCounts(f: Fields, file1: seq<Line>, file2: seq<Line>, line1: Line, line2: Line)
    ensures multiset(Pairs(f, file1, file2))[Pair(line1, line2)]
         == if (if f.one < |line1| then line1[f.one] else []) == (if f.two < |line2| then line2[f.two] else [])
            then multiset(file1)[line1] * multiset(file2)[line2] else 0
    decreases |file1|
  {
    if file1 != [] {
      var r := Pair(line1, line2);
      PairCounts(f, file1[1..], file2, line1, line2);
      PairsOfLineCount(f, file1[0], file2, line1, line2);
      FirstCounts(file1, line1);
      assert multiset(Pairs(f, file1, file2))[r]
          == multiset(PairsOfLine(f, file1[0], file2))[r] + multiset(Pairs(f, file1[1..], file2))[r];
      Distribute(if file1[0] == line1 then 1 else 0, multiset(file1[1..])[line1], multiset(file2)[line2]);
    }
  }

  lemma Distribute(a: nat, b: nat, c: nat)
    ensures (a + b) * c == a * c + b * c && (a == 1 ==> a * c == c)
  {
  }

  lemma FirstCounts<T>(s: seq<T>, x: T)
    requires s != []
    ensures multiset(s)[x] == (if s[0] == x then 1 else 0) + multiset(s[1..])[x]
  {
    assert s == [s[0]] + s[1..];
  }

  lemma {:induction false} PairsOfLineCount(f: Fields, line: Line, file2: seq<Line>, line1: Line, line2: Line)
    ensures multiset(PairsOfLine(f, line, file2))[Pair(line1, line2)]
         == if line == line1 && Matches(f, line1, line2) then multiset(file2)[line2] else 0
    decreases |file2|
  {
    hide Matches;
    if file2 != [] {
      PairsOfLineCount(f, line, file2[1..], line1, line2);
      FirstCounts(file2, line2);
      var first := if Matches(f, line, file2[0]) then [Pair(line, file2[0])] else [];
      assert multiset(PairsOfLine(f, line, file2))[Pair(line1, line2)]
          == multiset(first)[Pair(line1, line2)] + multiset(PairsOfLine(f, line, file2[1..]))[Pair(line1, line2)];
    }
  }

  /** The other rows are the lines without a partner, as often as they are there. */
  lemma {:induction false} Lone1Counts(f: Fields, file1: seq<Line>, file2: seq<Line>, line: Line)
    ensures multiset(Lone1(f, file1, file2))[Only1(line)]
         == if exists j :: 0 <= j < |file2| && Matches(f, line, file2[j]) then 0 else multiset(file1)[line]
    decreases |file1|
  {
    hide Matches;
    if file1 != [] {
      Lone1Counts(f, file1[1..], file2, line);
      FirstCounts(file1, line);
      if j :| 0 <= j < |file2| && Matches(f, file1[0], file2[j]) {
        SomePair(f, file1[0], file2, j);
      } else {
        NoPairs(f, file1[0], file2);
      }
      var first := if PairsOfLine(f, file1[0], file2) == [] then [Only1(file1[0])] else [];
      assert multiset(Lone1(f, file1, file2))[Only1(line)]
          == multiset(first)[Only1(line)] + multiset(Lone1(f, file1[1..], file2))[Only1(line)];
    }
  }

  lemma {:induction false} Lone2Counts(f: Fields, file1: seq<Line>, file2: seq<Line>, line: Line)
    ensures multiset(Lone2(f, file1, file2))[Only2(line)]
         == if exists i :: 0 <= i < |file1| && Matches(f, file1[i], line) then 0 else multiset(file2)[line]
    decreases |file2|
  {
    hide Matches;
    if file2 != [] {
      Lone2Counts(f, file1, file2[1..], line);
      FirstCounts(file2, line);
      var first := if Pairless2(f, file2[0], file1) then [Only2(file2[0])] else [];
      assert multiset(Lone2(f, file1, file2))[Only2(line)]
          == multiset(first)[Only2(line)] + multiset(Lone2(f, file1, file2[1..]))[Only2(line)];
    }
  }

  /** Parts of the files that have no keys in common can be joined one after the other. */
  lemma {:induction false} PairsSplit(f: Fields, g1: seq<Line>, r1: seq<Line>, g2: seq<Line>, r2: seq<Line>)
    requires NoMatch(f, g1, r2) && NoMatch(f, r1, g2)
    ensures Pairs(f, g1 + r1, g2 + r2) == Pairs(f, g1, g2) + Pairs(f, r1, r2)
    ensures Lone1(f, g1 + r1, g2 + r2) == Lone1(f, g1, g2) + Lone1(f, r1, r2)
    decreases |g1| + |r1|
  {
    hide Matches, PairsOfLine;
    if g1 != [] {
      PairsOfLineSplit(f, g1[0], g2, r2);
      NoPairs(f, g1[0], r2);
      PairsSplit(f, g1[1..], r1, g2, r2);
      assert (g1 + r1)[1..] == g1[1..] + r1;
    } else {
      assert g1 + r1 == r1;
      PairsBehind(f, r1, g2, r2);
    }
  }

  lemma {:induction false} PairsBehind(f: Fields, r1: seq<Line>, g2: seq<Line>, r2: seq<Line>)
    requires NoMatch(f, r1, g2)
    ensures Pairs(f, r1, g2 + r2) == Pairs(f, r1, r2) && Lone1(f, r1, g2 + r2) == Lone1(f, r1, r2)
    decreases |r1|
  {
    hide Matches, PairsOfLine;
    if r1 != [] {
      PairsOfLineSplit(f, r1[0], g2, r2);
      NoPairs(f, r1[0], g2);
      PairsBehind(f, r1[1..], g2, r2);
    }
  }

  lemma {:induction false} Lone2Split(f: Fields, g1: seq<Line>, r1: seq<Line>, g2: seq<Line>, r2: seq<Line>)
    requires NoMatch(f, g1, r2) && NoMatch(f, r1, g2)
    ensures Lone2(f, g1 + r1, g2 + r2) == Lone2(f, g1, g2) + Lone2(f, r1, r2)
    decreases |g2|
  {
    if g2 != [] {
      Lone2Split(f, g1, r1, g2[1..], r2);
      assert (g2 + r2)[1..] == g2[1..] + r2;
      PairlessSplit(f, g2[0], g1, r1);
    } else {
      assert g2 + r2 == r2;
      Lone2Behind(f, g1, r1, r2);
    }
  }

  lemma PairlessSplit(f: Fields, line: Line, g1: seq<Line>, r1: seq<Line>)
    ensures Pairless2(f, line, g1 + r1) <==> Pairless2(f, line, g1) && Pairless2(f, line, r1)
  {
    var s := g1 + r1;
    assert forall i :: 0 <= i < |g1| ==> s[i] == g1[i];
    assert forall i :: 0 <= i < |r1| ==> s[|g1| + i] == r1[i];
  }

  lemma {:induction false} Lone2Behind(f: Fields, g1: seq<Line>, r1: seq<Line>, r2: seq<Line>)
    requires NoMatch(f, g1, r2)
    ensures Lone2(f, g1 + r1, r2) == Lone2(f, r1, r2)
    decreases |r2|
  {
    if r2 != [] {
      Lone2Behind(f, g1, r1, r2[1..]);
      PairlessSplit(f, r2[0], g1, r1);
    }
  }

  // ---------------------------------------------------------------- sorted files

  ghost predicate SortedOn(lines: seq<Line>, field: nat) {
    forall i, j :: 0 <= i < j < |lines| ==> KeyOrder(lines[i], lines[j], field, field) <= 0
  }

  /** No line's key precedes that of a line before it. */
  lemma SortedOnIs(lines: seq<Line>, field: nat)
    ensures SortedOn(lines, field)
       <==> forall i, j :: 0 <= i < j < |lines| ==> !Precedes(Key(lines[j], field), Key(lines[i], field), false)
  {
    hide Precedes, TextOrder;
    forall i, j | 0 <= i < j < |lines|
      ensures KeyOrder(lines[i], lines[j], field, field) <= 0 <==> !Precedes(Key(lines[j], field), Key(lines[i], field), false)
    {
      TextOrderIsPrecedence(Key(lines[i], field), Key(lines[j], field), false);
    }
  }

  /** From a key strictly above on, nothing matches. */
  lemma NoneFromAbove(line: Line, field: nat, lines: seq<Line>, field': nat)
    requires SortedOn(lines, field') && lines != [] && KeyOrder(line, lines[0], field, field') < 0
    ensures forall j :: 0 <= j < |lines| ==> Key(lines[j], field') != Key(line, field)
  {
    var a := Key(line, field);
    forall j | 0 <= j < |lines| ensures Key(lines[j], field') != a {
      var b, c := Key(lines[0], field'), Key(lines[j], field');
      EqualIsIdentical(b, b, false);
      if c == a {
        TextOrderFlips(b, c, false);
      }
    }
  }

  // ---------------------------------------------------------------- the output

  datatype RowKind = OfPairs | Of1 | Of2

  predicate IsOf(row: Row, kind: RowKind) {
    match kind
    case OfPairs => row.Pair?
    case Of1 => row.Only1?
    case Of2 => row.Only2?
  }

  function RowsOf(kind: RowKind, rows: seq<Row>): seq<Row> {
    if rows == [] then [] else (if IsOf(rows[0], kind) then [rows[0]] else []) + RowsOf(kind, rows[1..])
  }

  lemma {:induction false} RowsSplit(kind: RowKind, a: seq<Row>, b: seq<Row>)
    ensures RowsOf(kind, a + b) == RowsOf(kind, a) + RowsOf(kind, b)
    decreases |a|
  {
    hide IsOf;
    if a == [] {
      assert a + b == b;
    } else {
      RowsSplit(kind, a[1..], b);
      assert (a + b)[1..] == a[1..] + b;
    }
  }

  /** Which rows are printed. */
  datatype Printed = Printed(pairs: bool, lone1: bool, lone2: bool)

  function When(b: bool, rows: seq<Row>): seq<Row> {
    if b then rows else []
  }

  /** The rows are those of the join of two files, in order for each kind of row. */
  ghost predicate IsJoin(rows: seq<Row>, f: Fields, p: Printed, file1: seq<Line>, file2: seq<Line>) {
    && RowsOf(OfPairs, rows) == When(p.pairs, Pairs(f, file1, file2))
    && RowsOf(Of1, rows) == When(p.lone1, Lone1(f, file1, file2))
    && RowsOf(Of2, rows) == When(p.lone2, Lone2(f, file1, file2))
  }

  lemma JoinInParts(a: seq<Row>, b: seq<Row>, f: Fields, p: Printed, g1: seq<Line>, r1: seq<Line>, g2: seq<Line>, r2: seq<Line>)
    requires NoMatch(f, g1, r2) && NoMatch(f, r1, g2)
    requires IsJoin(a, f, p, g1, g2) && IsJoin(b, f, p, r1, r2)
    ensures IsJoin(a + b, f, p, g1 + r1, g2 + r2)
  {
    hide NoMatch, Pairs, Lone1, Lone2, RowsOf;
    RowsSplit(OfPairs, a, b);
    RowsSplit(Of1, a, b);
    RowsSplit(Of2, a, b);
    PairsSplit(f, g1, r1, g2, r2);
    Lone2Split(f, g1, r1, g2, r2);
  }

  // ---------------------------------------------------------------- the order of the rows

  function RowKey(row: Row, f: Fields): Text {
    match row
    case Pair(line1, _) => Key(line1, f.one)
    case Only1(line) => Key(line, f.one)
    case Only2(line) => Key(line, f.two)
  }

  predicate NotAfter(a: Text, b: Text) {
    TextOrder(a, b, false) <= 0
  }

  /** No row's key precedes that of a row before it. */
  ghost predicate NonePrecedes(rows: seq<Row>, f: Fields) {
    forall i, j :: 0 <= i < j < |rows| ==> !Precedes(RowKey(rows[j], f), RowKey(rows[i], f), false)
  }

  lemma InKeyOrderIs(rows: seq<Row>, f: Fields)
    ensures InKeyOrder(rows, f) <==> NonePrecedes(rows, f)
  {
    hide Precedes, TextOrder, RowKey;
    forall i, j | 0 <= i < j < |rows|
      ensures NotAfter(RowKey(rows[i], f), RowKey(rows[j], f)) <==> !Precedes(RowKey(rows[j], f), RowKey(rows[i], f), false)
    {
      TextOrderIsPrecedence(RowKey(rows[i], f), RowKey(rows[j], f), false);
    }
  }

  ghost predicate InKeyOrder(rows: seq<Row>, f: Fields) {
    forall i, j :: 0 <= i < j < |rows| ==> NotAfter(RowKey(rows[i], f), RowKey(rows[j], f))
  }

  /** No row belongs behind a line that is still to be read. */
  ghost predicate NoneAfter(rows: seq<Row>, f: Fields, rem: seq<Line>, field: nat) {
    forall i, j :: 0 <= i < |rows| && 0 <= j < |rem| ==> NotAfter(RowKey(rows[i], f), Key(rem[j], field))
  }

  ghost predicate OfKey(rows: seq<Row>, f: Fields, k: Text) {
    forall i :: 0 <= i < |rows| ==> RowKey(rows[i], f) == k
  }

  ghost predicate NoneBefore(k: Text, lines: seq<Line>, field: nat) {
    forall j :: 0 <= j < |lines| ==> NotAfter(k, Key(lines[j], field))
  }

  /** The rows are in the order of their keys, and so are the lines to come. */
  ghost predicate Ordered(rows: seq<Row>, f: Fields, rem1: seq<Line>, rem2: seq<Line>) {
    InKeyOrder(rows, f) && NoneAfter(rows, f, rem1, f.one) && NoneAfter(rows, f, rem2, f.two)
  }

  lemma NotAfterItself(k: Text)
    ensures NotAfter(k, k)
  {
    EqualIsIdentical(k, k, false);
  }

  /** Rows of the least key still to come keep the order. */
  lemma OrderedMore(rows: seq<Row>, piece: seq<Row>, f: Fields, k: Text, rem1: seq<Line>, rem2: seq<Line>, r1: seq<Line>, r2: seq<Line>)
    requires Ordered(rows, f, rem1, rem2) && OfKey(piece, f, k)
    requires NoneBefore(k, r1, f.one) && NoneBefore(k, r2, f.two)
    requires (exists j :: 0 <= j < |rem1| && Key(rem1[j], f.one) == k) || (exists j :: 0 <= j < |rem2| && Key(rem2[j], f.two) == k)
    requires (forall l :: l in r1 ==> l in rem1) && (forall l :: l in r2 ==> l in rem2)
    ensures Ordered(rows + piece, f, r1, r2)
  {
    hide RowKey, NotAfter, Key;
    NotAfterItself(k);
    var all := rows + piece;
    forall i | 0 <= i < |rows| ensures NotAfter(RowKey(rows[i], f), k) {
    }
    assert forall i :: |rows| <= i < |all| ==> all[i] == piece[i - |rows|];
    forall i, j {:trigger all[i], all[j]} | 0 <= i < j < |all| ensures NotAfter(RowKey(all[i], f), RowKey(all[j], f)) {
      if i < |rows| && j >= |rows| {
        assert RowKey(all[j], f) == k;
      } else if i >= |rows| {
        assert RowKey(all[i], f) == k && RowKey(all[j], f) == k;
      }
    }
    NoneAfterMore(rows, piece, f, k, rem1, r1, f.one);
    NoneAfterMore(rows, piece, f, k, rem2, r2, f.two);
  }

  lemma NoneAfterMore(rows: seq<Row>, piece: seq<Row>, f: Fields, k: Text, rem: seq<Line>, r: seq<Line>, field: nat)
    requires NoneAfter(rows, f, rem, field) && OfKey(piece, f, k) && NoneBefore(k, r, field) && (forall l :: l in r ==> l in rem)
    ensures NoneAfter(rows + piece, f, r, field)
  {
    hide RowKey, NotAfter, Key;
    var all := rows + piece;
    forall i, j {:trigger all[i], r[j]} | 0 <= i < |all| && 0 <= j < |r| ensures NotAfter(RowKey(all[i], f), Key(r[j], field)) {
      assert r[j] in rem;
      if i < |rows| {
        var n :| 0 <= n < |rem| && rem[n] == r[j];
        assert all[i] == rows[i];
      } else {
        assert all[i] == piece[i - |rows|];
      }
    }
  }

  /** The head of a sorted file has its least key. */
  lemma HeadIsLeast(lines: seq<Line>, field: nat)
    requires SortedOn(lines, field) && lines != []
    ensures NoneBefore(Key(lines[0], field), lines, field)
  {
    NotAfterItself(Key(lines[0], field));
  }

  /** What is not after the head of a sorted file is after none of its lines. */
  lemma LessThanHead(k: Text, lines: seq<Line>, field: nat)
    requires SortedOn(lines, field) && (lines != [] ==> NotAfter(k, Key(lines[0], field)))
    ensures NoneBefore(k, lines, field)
  {
    forall j | 0 <= j < |lines| ensures NotAfter(k, Key(lines[j], field)) {
      if j > 0 {
        assert KeyOrder(lines[0], lines[j], field, field) <= 0;
        TextOrderTransitive(k, Key(lines[0], field), Key(lines[j], field), false);
      }
    }
  }

  // ---------------------------------------------------------------- reading groups

  class Input {
    var rest: seq<Line>

    constructor (lines: seq<Line>)
      ensures rest == lines
    {
      rest := lines;
    }

    method GetLine() returns (line: Line, ok: bool)
      modifies this
      ensures ok <==> old(rest) != []
      ensures ok ==> old(rest) == [line] + rest
      ensures !ok ==> rest == []
    {
      ok := rest != [];
      line := [];
      if ok {
        line, rest := rest[0], rest[1..];
      }
    }
  }

  /** The lines read ahead; those from count on are left over. */
  class Group {
    var lines: seq<Line>
    var count: nat

    constructor ()
      ensures count == 0
    {
      lines, count := [], 0;
    }

    method GetSeq(input: Input) returns (ok: bool)
      requires count <= |lines|
      modifies this, input
      ensures old(count) <= count <= |lines| && lines[..old(count)] == old(lines[..count])
      ensures ok <==> old(input.rest) != []
      ensures ok ==> count == old(count) + 1 && old(input.rest) == [lines[old(count)]] + input.rest
      ensures !ok ==> count == old(count) && input.rest == []
    {
      var line;
      line, ok := input.GetLine();
      if ok {
        lines := lines[..count] + [line];
        count := count + 1;
      }
    }

    /** Drops the line at the head and reads the next one. */
    method Replace(input: Input)
      requires count == 1 <= |lines|
      modifies this, input
      ensures count <= 1 && count <= |lines| && (count == 0 ==> input.rest == [])
      ensures lines[..count] + input.rest == old(input.rest)
    {
      count := 0;
      var ok := GetSeq(input);
    }

    /** Reads on while lines have the key of the other file's line. One line too many is
        read, and at the end of the file it is counted though it is not there. */
    method ReadGroup(input: Input, field: nat, other: Line, otherField: nat) returns (eof: bool)
      requires count == 1 <= |lines| && Key(lines[0], field) == Key(other, otherField)
      modifies this, input
      ensures count > 0 && count - 1 <= |lines|
      ensures forall i :: 0 <= i < count - 1 ==> Key(lines[i], field) == Key(other, otherField)
      ensures count > 1 && lines[0] == old(lines[0])
      ensures eof ==> input.rest == [] && lines[..count - 1] == old(lines[..1] + input.rest)
      ensures !eof ==> count <= |lines| && Key(lines[count - 1], field) != Key(other, otherField)
      ensures !eof ==> lines[..count - 1] + ([lines[count - 1]] + input.rest) == old(lines[..1] + input.rest)
    {
      hide Key, KeyOrder, Precedes;
      ghost var all := lines[..1] + input.rest;
      eof := false;
      while true
        invariant 1 <= count <= |lines| && lines[..count] + input.rest == all && lines[0] == old(lines[0])
        invariant forall i :: 0 <= i < count ==> Key(lines[i], field) == Key(other, otherField)
        decreases |input.rest|
      {
        hide Key, KeyOrder, Precedes;
        ghost var had, before := lines[..count], input.rest;
        var ok := GetSeq(input);
        if !ok {
          eof := true;
          count := count + 1;
          break;
        }
        var diff := KeyCmp(lines[count - 1], other, field, otherField);
        assert had + before == had + ([lines[count - 1]] + input.rest) == (had + [lines[count - 1]]) + input.rest;
        assert lines[..count] == had + [lines[count - 1]];
        if diff != 0 {
          break;
        }
      }
    }

    /** Keeps the line read ahead, if there is one. */
    method KeepLast(eof: bool)
      requires count > 0 && count - 1 <= |lines| && (!eof ==> count <= |lines|)
      modifies this
      ensures count <= 1 && count <= |lines| && (count == 0 <==> eof)
      ensures !eof ==> lines[0] == old(lines[count - 1])
    {
      if !eof {
        lines := lines[0 := lines[count - 1]];
        count := 1;
      } else {
        count := 0;
      }
    }
  }

  // ---------------------------------------------------------------- the join

  function Lonely1(lines: seq<Line>): (r: seq<Row>)
    ensures |r| == |lines| && forall i :: 0 <= i < |r| ==> r[i] == Only1(lines[i])
  {
    if lines == [] then [] else [Only1(lines[0])] + Lonely1(lines[1..])
  }

  function Lonely2(lines: seq<Line>): (r: seq<Row>)
    ensures |r| == |lines| && forall i :: 0 <= i < |r| ==> r[i] == Only2(lines[i])
  {
    if lines == [] then [] else [Only2(lines[0])] + Lonely2(lines[1..])
  }

  lemma {:induction false} JoinWithNothing1(f: Fields, p: Printed, lines: seq<Line>)
    ensures IsJoin(When(p.lone1, Lonely1(lines)), f, p, lines, [])
    decreases |lines|
  {
    if lines != [] {
      JoinWithNothing1(f, p, lines[1..]);
    }
  }

  lemma {:induction false} JoinWithNothing2(f: Fields, p: Printed, lines: seq<Line>)
    ensures IsJoin(When(p.lone2, Lonely2(lines)), f, p, [], lines)
    decreases |lines|
  {
    if lines != [] {
      JoinWithNothing2(f, p, lines[1..]);
    }
  }

  /** All lines of both have the same key. */
  ghost predicate OneKey(f: Fields, g1: seq<Line>, g2: seq<Line>) {
    forall i, j :: 0 <= i < |g1| && 0 <= j < |g2| ==> Matches(f, g1[i], g2[j])
  }

  lemma {:induction false} NobodyLone1(f: Fields, g1: seq<Line>, g2: seq<Line>)
    requires OneKey(f, g1, g2) && g2 != []
    ensures Lone1(f, g1, g2) == []
    decreases |g1|
  {
    if g1 != [] {
      NobodyLone1(f, g1[1..], g2);
      SomePair(f, g1[0], g2, 0);
    }
  }

  lemma {:induction false} NobodyLone2(f: Fields, g1: seq<Line>, g2: seq<Line>)
    requires OneKey(f, g1, g2) && g1 != []
    ensures Lone2(f, g1, g2) == []
    decreases |g2|
  {
    if g2 != [] {
      NobodyLone2(f, g1, g2[1..]);
      assert Matches(f, g1[0], g2[0]);
    }
  }

  lemma {:induction false} PairsAreAll(rows: seq<Row>)
    requires forall k :: 0 <= k < |rows| ==> rows[k].Pair?
    ensures RowsOf(OfPairs, rows) == rows && RowsOf(Of1, rows) == [] && RowsOf(Of2, rows) == []
    decreases |rows|
  {
    if rows != [] {
      PairsAreAll(rows[1..]);
    }
  }

  lemma {:induction false} PairsOfLineUpto(f: Fields, line: Line, g2: seq<Line>, j: nat)
    requires j < |g2| && Matches(f, line, g2[j])
    ensures PairsOfLine(f, line, g2[..j + 1]) == PairsOfLine(f, line, g2[..j]) + [Pair(line, g2[j])]
  {
    PairsOfLineSplit(f, line, g2[..j], [g2[j]]);
    assert g2[..j + 1] == g2[..j] + [g2[j]];
  }

  lemma {:induction false} PairsUpto(f: Fields, g1: seq<Line>, i: nat, g2: seq<Line>)
    requires i < |g1|
    ensures Pairs(f, g1[..i + 1], g2) == Pairs(f, g1[..i], g2) + PairsOfLine(f, g1[i], g2)
    decreases i
  {
    if i > 0 {
      PairsUpto(f, g1[1..], i - 1, g2);
      assert g1[1..][..i] == g1[..i + 1][1..] && g1[1..][..i - 1] == g1[..i][1..];
    }
  }

  /** Every line of one group with every line of the other. */
  method PrintPairs(g1: seq<Line>, g2: seq<Line>, ghost f: Fields) returns (rows: seq<Row>)
    requires OneKey(f, g1, g2)
    ensures rows == Pairs(f, g1, g2)
    ensures forall k :: 0 <= k < |rows| ==> rows[k].Pair? && rows[k].line1 in g1
  {
    rows := [];
    var i: nat := 0;
    while i < |g1|
      invariant 0 <= i <= |g1| && rows == Pairs(f, g1[..i], g2)
      invariant forall k :: 0 <= k < |rows| ==> rows[k].Pair? && rows[k].line1 in g1
    {
      PairsUpto(f, g1, i, g2);
      ghost var before := rows;
      var j: nat := 0;
      while j < |g2|
        invariant 0 <= j <= |g2| && rows == before + PairsOfLine(f, g1[i], g2[..j])
        invariant forall k :: 0 <= k < |rows| ==> rows[k].Pair? && rows[k].line1 in g1
      {
        PairsOfLineUpto(f, g1[i], g2, j);
        rows := rows + [Pair(g1[i], g2[j])];
        j := j + 1;
      }
      assert g2[..j] == g2;
      i := i + 1;
    }
    assert g1[..i] == g1;
  }

  /** The rows printed are the join of the parts that are done; the parts have no keys in
      common with what remains of the other file. */
  ghost predicate Joined(rows: seq<Row>, f: Fields, p: Printed, file1: seq<Line>, rem1: seq<Line>, file2: seq<Line>, rem2: seq<Line>) {
    exists done1, done2 :: Parts(rows, f, p, file1, done1, rem1, file2, done2, rem2)
  }

  ghost predicate Parts(rows: seq<Row>, f: Fields, p: Printed, file1: seq<Line>, done1: seq<Line>, rem1: seq<Line>,
                        file2: seq<Line>, done2: seq<Line>, rem2: seq<Line>) {
    && file1 == done1 + rem1 && file2 == done2 + rem2
    && NoMatch(f, done1, rem2) && NoMatch(f, rem1, done2)
    && IsJoin(rows, f, p, done1, done2)
  }

  lemma NoMatchParts(f: Fields, a: seq<Line>, b: seq<Line>, c: seq<Line>, d: seq<Line>)
    requires NoMatch(f, a + b, c + d)
    ensures NoMatch(f, a, c) && NoMatch(f, a, d) && NoMatch(f, b, c) && NoMatch(f, b, d)
  {
    var s, t := a + b, c + d;
    assert forall i :: 0 <= i < |a| ==> s[i] == a[i];
    assert forall i :: 0 <= i < |b| ==> s[|a| + i] == b[i];
    assert forall i :: 0 <= i < |c| ==> t[i] == c[i];
    assert forall i :: 0 <= i < |d| ==> t[|c| + i] == d[i];
  }

  /** The next groups are joined. */
  lemma JoinNext(rows: seq<Row>, piece: seq<Row>, f: Fields, p: Printed, file1: seq<Line>, g1: seq<Line>, r1: seq<Line>,
                 file2: seq<Line>, g2: seq<Line>, r2: seq<Line>)
    requires Joined(rows, f, p, file1, g1 + r1, file2, g2 + r2)
    requires NoMatch(f, g1, r2) && NoMatch(f, r1, g2) && IsJoin(piece, f, p, g1, g2)
    ensures Joined(rows + piece, f, p, file1, r1, file2, r2)
  {
    hide IsJoin, Matches;
    var done1, done2 :| Parts(rows, f, p, file1, done1, g1 + r1, file2, done2, g2 + r2);
    assert done1 + [] == done1 && done2 + [] == done2;
    NoMatchParts(f, done1, [], g2, r2);
    NoMatchParts(f, g1, r1, done2, []);
    JoinInParts(rows, piece, f, p, done1, g1, done2, g2);
    assert (done1 + g1) + r1 == file1 && (done2 + g2) + r2 == file2;
    assert Parts(rows + piece, f, p, file1, done1 + g1, r1, file2, done2 + g2, r2);
  }

  lemma SortedRest(lines: seq<Line>, g: seq<Line>, r: seq<Line>, field: nat)
    requires SortedOn(lines, field) && lines == g + r
    ensures SortedOn(r, field)
    ensures g != [] && r != [] ==> KeyOrder(g[0], r[0], field, field) <= 0
  {
    assert forall i :: 0 <= i < |r| ==> lines[|g| + i] == r[i];
    assert g != [] ==> lines[0] == g[0];
  }

  /** The lines behind a group of one key match nothing of that key. */
  lemma BehindGroup(f: Fields, g: seq<Line>, r: seq<Line>, field: nat, k: Text)
    requires SortedOn(g + r, field) && g != [] && Key(g[0], field) == k && (r != [] ==> Key(r[0], field) != k)
    ensures SortedOn(r, field) && forall i :: 0 <= i < |r| ==> Key(r[i], field) != k
  {
    SortedRest(g + r, g, r, field);
    if r != [] {
      EqualIsIdentical(k, Key(r[0], field), false);
      NoneFromAbove(g[0], field, r, field);
    }
  }

  ghost predicate Reading(input: Input, group: Group, rem: seq<Line>, field: nat)
    reads input, group
  {
    && group.count <= 1 && group.count <= |group.lines|
    && rem == group.lines[..group.count] + input.rest
    && (group.count == 0 ==> input.rest == [])
    && SortedOn(rem, field)
  }

  /** Drops the head of the file whose key is the lesser. */
  method Pass(input: Input, group: Group, field: nat, ghost rem: seq<Line>)
    requires Reading(input, group, rem, field) && group.count == 1
    modifies input, group
    ensures rem != [] && rem[0] == old(group.lines[0]) && Reading(input, group, rem[1..], field)
  {
    SortedRest(rem, rem[..1], rem[1..], field);
    assert rem[1..] == input.rest;
    group.Replace(input);
  }

  /** Reads the group at the head of one file; what follows it has another key. */
  method TakeGroup(input: Input, group: Group, f: Fields, field: nat, other: Line, otherField: nat, ghost rem: seq<Line>)
    returns (g: seq<Line>, ghost r: seq<Line>)
    requires Reading(input, group, rem, field) && group.count == 1
    requires Key(group.lines[0], field) == Key(other, otherField)
    modifies input, group
    ensures rem == g + r && g != [] && g[0] == old(group.lines[0]) && Reading(input, group, r, field)
    ensures forall i :: 0 <= i < |g| ==> Key(g[i], field) == Key(other, otherField)
    ensures forall i :: 0 <= i < |r| ==> Key(r[i], field) != Key(other, otherField)
  {
    hide SortedOn, Key;
    var eof := group.ReadGroup(input, field, other, otherField);
    g := group.lines[..group.count - 1];
    r := if eof then [] else [group.lines[group.count - 1]] + input.rest;
    assert rem == g + r;
    BehindGroup(f, g, r, field, Key(other, otherField));
    group.KeepLast(eof);
    assert group.lines[..group.count] + input.rest == r;
  }

  lemma GroupsJoin(rows: seq<Row>, f: Fields, p: Printed, g1: seq<Line>, g2: seq<Line>)
    requires OneKey(f, g1, g2) && g1 != [] && g2 != [] && rows == When(p.pairs, Pairs(f, g1, g2))
    requires forall k :: 0 <= k < |rows| ==> rows[k].Pair?
    ensures IsJoin(rows, f, p, g1, g2)
  {
    hide Matches, OneKey;
    NobodyLone1(f, g1, g2);
    NobodyLone2(f, g1, g2);
    PairsAreAll(rows);
  }

  /** What is left of one file when the other is at its end. */
  method PrintRest(input: Input, group: Group, wanted: bool, first: bool, ghost rem: seq<Line>, field: nat) returns (rows: seq<Row>)
    requires Reading(input, group, rem, field)
    modifies input
    ensures rows == When(wanted, if first then Lonely1(rem) else Lonely2(rem))
  {
    hide SortedOn;
    rows := [];
    if wanted && group.count != 0 {
      rows := [if first then Only1(group.lines[0]) else Only2(group.lines[0])];
      assert rem == [group.lines[0]] + input.rest;
      ghost var done := rem[..1];
      var line, ok := input.GetLine();
      while ok
        invariant ok ==> rem == done + ([line] + input.rest)
        invariant !ok ==> rem == done
        invariant rows == if first then Lonely1(done) else Lonely2(done)
        decreases |input.rest|, ok
      {
        LonelyOneMore(done, line);
        rows := rows + [if first then Only1(line) else Only2(line)];
        ghost var rest := input.rest;
        done := done + [line];
        assert rem == done + rest;
        line, ok := input.GetLine();
      }
    }
  }

  lemma {:induction false} LonelyOneMore(lines: seq<Line>, line: Line)
    ensures Lonely1(lines + [line]) == Lonely1(lines) + [Only1(line)]
    ensures Lonely2(lines + [line]) == Lonely2(lines) + [Only2(line)]
    decreases |lines|
  {
    if lines != [] {
      LonelyOneMore(lines[1..], line);
      assert (lines + [line])[1..] == lines[1..] + [line];
    }
  }

  lemma NothingJoined(f: Fields, p: Printed, file1: seq<Line>, file2: seq<Line>)
    ensures Joined([], f, p, file1, file1, file2, file2)
  {
    assert [] + file1 == file1 && [] + file2 == file2;
    assert Parts([], f, p, file1, [], file1, file2, [], file2);
  }

  lemma NothingOrdered(f: Fields, file1: seq<Line>, file2: seq<Line>)
    ensures Ordered([], f, file1, file2)
  {
  }

  lemma Skip1(rows: seq<Row>, piece: seq<Row>, f: Fields, p: Printed, file1: seq<Line>, rem1: seq<Line>, file2: seq<Line>, rem2: seq<Line>)
    requires Joined(rows, f, p, file1, rem1, file2, rem2) && rem1 != [] && rem2 != [] && SortedOn(rem2, f.two)
    requires KeyOrder(rem1[0], rem2[0], f.one, f.two) < 0 && piece == When(p.lone1, [Only1(rem1[0])])
    ensures Joined(rows + piece, f, p, file1, rem1[1..], file2, rem2)
  {
    hide Joined, SortedOn;
    var g, r := rem1[..1], rem1[1..];
    assert g + r == rem1 && [] + rem2 == rem2;
    NoneFromAbove(rem1[0], f.one, rem2, f.two);
    JoinWithNothing1(f, p, g);
    assert Lonely1(g) == [Only1(rem1[0])];
    JoinNext(rows, piece, f, p, file1, g, r, file2, [], rem2);
  }

  lemma Skip2(rows: seq<Row>, piece: seq<Row>, f: Fields, p: Printed, file1: seq<Line>, rem1: seq<Line>, file2: seq<Line>, rem2: seq<Line>)
    requires Joined(rows, f, p, file1, rem1, file2, rem2) && rem1 != [] && rem2 != [] && SortedOn(rem1, f.one)
    requires KeyOrder(rem1[0], rem2[0], f.one, f.two) > 0 && piece == When(p.lone2, [Only2(rem2[0])])
    ensures Joined(rows + piece, f, p, file1, rem1, file2, rem2[1..])
  {
    hide Joined, SortedOn;
    var g, r := rem2[..1], rem2[1..];
    assert g + r == rem2 && [] + rem1 == rem1;
    TextOrderFlips(Key(rem1[0], f.one), Key(rem2[0], f.two), false);
    NoneFromAbove(rem2[0], f.two, rem1, f.one);
    JoinWithNothing2(f, p, g);
    assert Lonely2(g) == [Only2(rem2[0])];
    JoinNext(rows, piece, f, p, file1, [], rem1, file2, g, r);
  }

  lemma RestsJoined(rows: seq<Row>, f: Fields, p: Printed, file1: seq<Line>, rem1: seq<Line>, file2: seq<Line>, rem2: seq<Line>)
    requires Joined(rows, f, p, file1, rem1, file2, rem2) && (rem1 == [] || rem2 == [])
    ensures IsJoin(rows + When(p.lone1, Lonely1(rem1)) + When(p.lone2, Lonely2(rem2)), f, p, file1, file2)
  {
    hide IsJoin, Joined, Lonely1, Lonely2;
    var rest1, rest2 := When(p.lone1, Lonely1(rem1)), When(p.lone2, Lonely2(rem2));
    RestsJoin(f, p, rem1, rem2);
    AllRead(rows, rest1 + rest2, f, p, file1, rem1, file2, rem2);
    Regrouped(rows, rest1, rest2);
    AllJoined(rows + (rest1 + rest2), f, p, file1, file2);
  }

  lemma Regrouped(a: seq<Row>, b: seq<Row>, c: seq<Row>)
    ensures a + b + c == a + (b + c)
  {
  }

  lemma AllRead(rows: seq<Row>, piece: seq<Row>, f: Fields, p: Printed, file1: seq<Line>, rem1: seq<Line>, file2: seq<Line>, rem2: seq<Line>)
    requires Joined(rows, f, p, file1, rem1, file2, rem2) && IsJoin(piece, f, p, rem1, rem2)
    ensures Joined(rows + piece, f, p, file1, [], file2, [])
  {
    hide Joined, IsJoin;
    assert rem1 + [] == rem1 && rem2 + [] == rem2;
    JoinNext(rows, piece, f, p, file1, rem1, [], file2, rem2, []);
  }

  lemma RestsJoin(f: Fields, p: Printed, rem1: seq<Line>, rem2: seq<Line>)
    requires rem1 == [] || rem2 == []
    ensures IsJoin(When(p.lone1, Lonely1(rem1)) + When(p.lone2, Lonely2(rem2)), f, p, rem1, rem2)
  {
    hide IsJoin;
    var rest1, rest2 := When(p.lone1, Lonely1(rem1)), When(p.lone2, Lonely2(rem2));
    JoinWithNothing1(f, p, rem1);
    JoinWithNothing2(f, p, rem2);
    assert rem2 == [] ==> rest1 + rest2 == rest1;
    assert rem1 == [] ==> rest1 + rest2 == rest2;
  }

  lemma AllJoined(rows: seq<Row>, f: Fields, p: Printed, file1: seq<Line>, file2: seq<Line>)
    requires Joined(rows, f, p, file1, [], file2, [])
    ensures IsJoin(rows, f, p, file1, file2)
  {
    hide IsJoin;
    var done1, done2 :| Parts(rows, f, p, file1, done1, [], file2, done2, []);
    assert done1 + [] == done1 && done2 + [] == done2;
  }

  lemma Skip1Ordered(rows: seq<Row>, piece: seq<Row>, f: Fields, p: Printed, rem1: seq<Line>, rem2: seq<Line>)
    requires Ordered(rows, f, rem1, rem2) && rem1 != [] && rem2 != [] && SortedOn(rem1, f.one) && SortedOn(rem2, f.two)
    requires KeyOrder(rem1[0], rem2[0], f.one, f.two) < 0 && piece == When(p.lone1, [Only1(rem1[0])])
    ensures Ordered(rows + piece, f, rem1[1..], rem2)
  {
    var k := Key(rem1[0], f.one);
    HeadIsLeast(rem1, f.one);
    LessThanHead(k, rem2, f.two);
    hide Ordered, SortedOn, NotAfter, Key;
    assert NoneBefore(k, rem1[1..], f.one);
    OrderedMore(rows, piece, f, k, rem1, rem2, rem1[1..], rem2);
  }

  lemma Skip2Ordered(rows: seq<Row>, piece: seq<Row>, f: Fields, p: Printed, rem1: seq<Line>, rem2: seq<Line>)
    requires Ordered(rows, f, rem1, rem2) && rem1 != [] && rem2 != [] && SortedOn(rem1, f.one) && SortedOn(rem2, f.two)
    requires KeyOrder(rem1[0], rem2[0], f.one, f.two) > 0 && piece == When(p.lone2, [Only2(rem2[0])])
    ensures Ordered(rows + piece, f, rem1, rem2[1..])
  {
    var k := Key(rem2[0], f.two);
    TextOrderFlips(Key(rem1[0], f.one), k, false);
    HeadIsLeast(rem2, f.two);
    LessThanHead(k, rem1, f.one);
    hide Ordered, SortedOn, NotAfter, Key;
    assert NoneBefore(k, rem2[1..], f.two);
    OrderedMore(rows, piece, f, k, rem1, rem2, rem1, rem2[1..]);
  }

  lemma GroupsOrdered(rows: seq<Row>, piece: seq<Row>, f: Fields, g1: seq<Line>, r1: seq<Line>, g2: seq<Line>, r2: seq<Line>)
    requires Ordered(rows, f, g1 + r1, g2 + r2) && SortedOn(g1 + r1, f.one) && SortedOn(g2 + r2, f.two) && g1 != [] && g2 != []
    requires Key(g1[0], f.one) == Key(g2[0], f.two) && OfKey(piece, f, Key(g1[0], f.one))
    ensures Ordered(rows + piece, f, r1, r2)
  {
    var k, rem1, rem2 := Key(g1[0], f.one), g1 + r1, g2 + r2;
    assert rem1[0] == g1[0] && rem2[0] == g2[0];
    HeadIsLeast(rem1, f.one);
    HeadIsLeast(rem2, f.two);
    hide Ordered, SortedOn, NotAfter, Key;
    assert forall i :: 0 <= i < |r1| ==> rem1[|g1| + i] == r1[i];
    assert forall i :: 0 <= i < |r2| ==> rem2[|g2| + i] == r2[i];
    OrderedMore(rows, piece, f, k, rem1, rem2, r1, r2);
  }

  /** The rest of one file ends the rows in order. */
  lemma RestOrdered(rows: seq<Row>, rest: seq<Row>, f: Fields, rem: seq<Line>, field: nat)
    requires InKeyOrder(rows, f) && NoneAfter(rows, f, rem, field) && SortedOn(rem, field)
    requires |rest| <= |rem| && forall i :: 0 <= i < |rest| ==> RowKey(rest[i], f) == Key(rem[i], field)
    ensures InKeyOrder(rows + rest, f)
  {
    hide RowKey, Key;
    var all := rows + rest;
    forall i, j {:trigger all[i], all[j]} | 0 <= i < j < |all| ensures NotAfter(RowKey(all[i], f), RowKey(all[j], f)) {
      if i >= |rows| {
        assert KeyOrder(rem[i - |rows|], rem[j - |rows|], field, field) <= 0;
      }
    }
  }

  lemma RestsOrdered(rows: seq<Row>, f: Fields, p: Printed, rem1: seq<Line>, rem2: seq<Line>)
    requires Ordered(rows, f, rem1, rem2) && SortedOn(rem1, f.one) && SortedOn(rem2, f.two) && (rem1 == [] || rem2 == [])
    ensures InKeyOrder(rows + When(p.lone1, Lonely1(rem1)) + When(p.lone2, Lonely2(rem2)), f)
  {
    hide InKeyOrder, NoneAfter, SortedOn, Lonely1, Lonely2;
    var rest1, rest2 := When(p.lone1, Lonely1(rem1)), When(p.lone2, Lonely2(rem2));
    if rem2 == [] {
      RestOrdered(rows, rest1, f, rem1, f.one);
      assert rows + rest1 + rest2 == rows + rest1;
    } else {
      RestOrdered(rows, rest2, f, rem2, f.two);
      assert rows + rest1 + rest2 == rows + rest2;
    }
  }

  /** Takes the groups with the key that both files have next, and pairs them. */
  method JoinGroups(in1: Input, seq1: Group, in2: Input, seq2: Group, f: Fields, p: Printed, ghost rows: seq<Row>,
                    ghost file1: seq<Line>, ghost rem1: seq<Line>, ghost file2: seq<Line>, ghost rem2: seq<Line>)
    returns (piece: seq<Row>, ghost r1: seq<Line>, ghost r2: seq<Line>)
    requires in1 != in2 && seq1 != seq2
    requires Reading(in1, seq1, rem1, f.one) && Reading(in2, seq2, rem2, f.two) && seq1.count == 1 && seq2.count == 1
    requires Key(seq1.lines[0], f.one) == Key(seq2.lines[0], f.two)
    requires Joined(rows, f, p, file1, rem1, file2, rem2) && Ordered(rows, f, rem1, rem2)
    modifies in1, seq1, in2, seq2
    ensures Reading(in1, seq1, r1, f.one) && Reading(in2, seq2, r2, f.two)
    ensures |r1| < |rem1| && |r2| < |rem2|
    ensures Joined(rows + piece, f, p, file1, r1, file2, r2) && Ordered(rows + piece, f, r1, r2)
  {
    hide Joined, SortedOn, IsJoin, Key, Ordered;
    var head1, head2 := seq1.lines[0], seq2.lines[0];
    var g1, g2;
    g1, r1 := TakeGroup(in1, seq1, f, f.one, head2, f.two, rem1);
    g2, r2 := TakeGroup(in2, seq2, f, f.two, head1, f.one, rem2);
    piece := [];
    if p.pairs {
      piece := PrintPairs(g1, g2, f);
    }
    GroupsOrdered(rows, piece, f, g1, r1, g2, r2);
    GroupsJoin(piece, f, p, g1, g2);
    JoinNext(rows, piece, f, p, file1, g1, r1, file2, g2, r2);
  }

  /** For files sorted on their join fields the output has each pair of lines with equal
      keys once, by lines of the first file and then of the second, and each line that
      pairs with none once, in order, as far as they are wanted; and all of it is in the
      order of the keys. */
  method JoinFiles(in1: Input, in2: Input, f: Fields, p: Printed) returns (rows: seq<Row>)
    requires in1 != in2 && SortedOn(in1.rest, f.one) && SortedOn(in2.rest, f.two)
    modifies in1, in2
    ensures IsJoin(rows, f, p, old(in1.rest), old(in2.rest)) && NonePrecedes(rows, f)
  {
    hide IsJoin, NoMatch, Parts, SortedOn, KeyOrder, Matches, InKeyOrder, NoneAfter, NonePrecedes, Precedes, Key;
    ghost var file1, file2 := in1.rest, in2.rest;
    ghost var rem1, rem2 := file1, file2;
    var seq1 := new Group();
    var seq2 := new Group();
    var ok1 := seq1.GetSeq(in1);
    var ok2 := seq2.GetSeq(in2);
    assert seq1.lines[..seq1.count] + in1.rest == file1 && seq2.lines[..seq2.count] + in2.rest == file2;
    rows := [];
    NothingJoined(f, p, file1, file2);
    NothingOrdered(f, file1, file2);
    while seq1.count != 0 && seq2.count != 0
      invariant fresh(seq1) && fresh(seq2) && seq1 != seq2
      invariant Reading(in1, seq1, rem1, f.one) && Reading(in2, seq2, rem2, f.two)
      invariant Joined(rows, f, p, file1, rem1, file2, rem2) && Ordered(rows, f, rem1, rem2)
      decreases |rem1| + |rem2|
    {
      hide IsJoin, NoMatch, Parts, SortedOn, KeyOrder, Matches, InKeyOrder, NoneAfter, NonePrecedes, Precedes, Key;
      var diff := KeyCmp(seq1.lines[0], seq2.lines[0], f.one, f.two);
      if diff < 0 {
        var piece := if p.lone1 then [Only1(seq1.lines[0])] else [];
        Skip1Ordered(rows, piece, f, p, rem1, rem2);
        Skip1(rows, piece, f, p, file1, rem1, file2, rem2);
        Pass(in1, seq1, f.one, rem1);
        rem1 := rem1[1..];
        rows := rows + piece;
      } else if diff > 0 {
        var piece := if p.lone2 then [Only2(seq2.lines[0])] else [];
        Skip2Ordered(rows, piece, f, p, rem1, rem2);
        Skip2(rows, piece, f, p, file1, rem1, file2, rem2);
        Pass(in2, seq2, f.two, rem2);
        rem2 := rem2[1..];
        rows := rows + piece;
      } else {
        var piece;
        piece, rem1, rem2 := JoinGroups(in1, seq1, in2, seq2, f, p, rows, file1, rem1, file2, rem2);
        rows := rows + piece;
      }
    }
    var rest1 := PrintRest(in1, seq1, p.lone1, true, rem1, f.one);
    var rest2 := PrintRest(in2, seq2, p.lone2, false, rem2, f.two);
    RestsJoined(rows, f, p, file1, rem1, file2, rem2);
    RestsOrdered(rows, f, p, rem1, rem2);
    rows := rows + rest1 + rest2;
    InKeyOrderIs(rows, f);
  }
}
