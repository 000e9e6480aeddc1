/** The two ways in which gnu/src/tail.c finds the last lines: scanning a file backward by
    blocks, and keeping the last buffers of a pipe. */
module Tail {
  import opened Streams

  // ---------------------------------------------------------------- the last lines

  ghost predicate Cut(s: seq<Byte>, pre: seq<Byte>, out: seq<Byte>, n: nat) {
    && s == pre + out
    && (pre != [] && out != [] ==> pre[|pre| - 1] == NL)
    && LineCount(out) == if n < LineCount(s) then n else LineCount(s)
  }

  /** out is the end of s from the beginning of a line on, n lines or all. */
  ghost predicate LastLines(s: seq<Byte>, out: seq<Byte>, n: nat) {
    exists pre :: Cut(s, pre, out, n)
  }

  /** The lines of a text that ends a line, and then of what follows. */
  lemma LineCountAppend(a: seq<Byte>, b: seq<Byte>)
    requires b != [] || !Unfinished(a)
    ensures LineCount(a + b) == Newlines(a) + LineCount(b)
  {
    NewlinesAppend(a, b);
    if b == [] {
      assert a + b == a;
    }
  }

  lemma {:induction false} HasNewline(s: seq<Byte>, i: nat)
    requires i < |s| && s[i] == NL
    ensures Newlines(s) > 0
    decreases |s|
  {
    if i > 0 {
      HasNewline(s[1..], i - 1);
    }
  }

  lemma SomeLines(s: seq<Byte>)
    requires s != []
    ensures LineCount(s) > 0
  {
    if s[|s| - 1] == NL {
      HasNewline(s, |s| - 1);
    }
  }

  /** There is only one such end. */
  lemma LastLinesUnique(s: seq<Byte>, out1: seq<Byte>, out2: seq<Byte>, n: nat)
    requires LastLines(s, out1, n) && LastLines(s, out2, n)
    ensures out1 == out2
  {
    var pre1 :| Cut(s, pre1, out1, n);
    var pre2 :| Cut(s, pre2, out2, n);
    if |pre1| < |pre2| {
      SameCut(s, pre1, out1, pre2, out2, n);
    } else if |pre2| < |pre1| {
      SameCut(s, pre2, out2, pre1, out1, n);
    } else {
      assert out1 == s[|pre1|..] && out2 == s[|pre2|..];
    }
  }

  lemma SameCut(s: seq<Byte>, pre1: seq<Byte>, out1: seq<Byte>, pre2: seq<Byte>, out2: seq<Byte>, n: nat)
    requires Cut(s, pre1, out1, n) && Cut(s, pre2, out2, n)
    ensures |pre1| >= |pre2|
  {
    if |pre1| < |pre2| {
      var between := s[|pre1|..|pre2|];
      assert out1 == between + out2;
      SomeLines(out1);
      assert out2 != [];
      assert between[|between| - 1] == pre2[|pre2| - 1];
      LineCountAppend(between, out2);
      HasNewline(between, |between| - 1);
    }
  }

  /** The text of lines. */
  function Unlines(lines: seq<seq<Byte>>): (s: seq<Byte>)
    ensures s != [] ==> s[|s| - 1] == NL
  {
    if lines == [] then [] else lines[0] + [NL] + Unlines(lines[1..])
  }

  ghost predicate AreLines(lines: seq<seq<Byte>>) {
    forall k :: 0 <= k < |lines| ==> NL !in lines[k]
  }

  lemma {:induction false} NoNewlines(line: seq<Byte>)
    requires NL !in line
    ensures Newlines(line) == 0
    decreases |line|
  {
    if line != [] {
      NoNewlines(line[1..]);
    }
  }

  lemma {:induction false} LinesCounted(lines: seq<seq<Byte>>)
    requires AreLines(lines)
    ensures Newlines(Unlines(lines)) == |lines|
    decreases |lines|
  {
    if lines != [] {
      LinesCounted(lines[1..]);
      NoNewlines(lines[0]);
      NewlinesAppend(lines[0], [NL]);
      NewlinesAppend(lines[0] + [NL], Unlines(lines[1..]));
    }
  }

  /** The last lines of a text that is made of lines are the last of them; an unfinished line
      counts as one. */
  lemma LastLinesAre(front: seq<seq<Byte>>, back: seq<seq<Byte>>, part: seq<Byte>)
    requires AreLines(front) && AreLines(back) && NL !in part
    ensures LastLines(Unlines(front) + (Unlines(back) + part), Unlines(back) + part, |back| + if part != [] then 1 else 0)
  {
    hide Unlines, Newlines, Unfinished, LineCount, LastLines, AreLines;
    var pre, out := Unlines(front), Unlines(back) + part;
    LinesEnd(front, []);
    LinesEnd(back, part);
    assert pre + [] == pre;
    EndIs(pre, out);
  }

  lemma EndIs(pre: seq<Byte>, out: seq<Byte>)
    requires !Unfinished(pre)
    ensures LastLines(pre + out, out, LineCount(out))
  {
    hide Newlines, LineCount;
    LineCountAppend(pre, out);
    assert Cut(pre + out, pre, out, LineCount(out));
  }

  lemma LinesEnd(lines: seq<seq<Byte>>, part: seq<Byte>)
    requires AreLines(lines) && NL !in part
    ensures LineCount(Unlines(lines) + part) == |lines| + if part != [] then 1 else 0
    ensures Unfinished(Unlines(lines) + part) <==> part != []
  {
    hide Unlines, Newlines, AreLines;
    var s := Unlines(lines) + part;
    LinesCounted(lines);
    NoNewlines(part);
    NewlinesAppend(Unlines(lines), part);
    if part == [] {
      assert s == Unlines(lines);
    } else {
      assert s[|s| - 1] == part[|part| - 1];
      assert part[|part| - 1] in part;
    }
  }

  /** No lines. */
  lemma CutNothing(s: seq<Byte>)
    ensures LastLines(s, [], 0)
  {
    assert Cut(s, s, [], 0);
  }

  lemma CutGives(s: seq<Byte>, pre: seq<Byte>, out: seq<Byte>, n: nat)
    requires Cut(s, pre, out, n)
    ensures LastLines(s, out, n)
  {
  }

  // ---------------------------------------------------------------- from a file

  /** The newlines from i on. */
  function NewlinesFrom(s: seq<Byte>, i: nat): nat
    requires i <= |s|
    decreases |s| - i
  {
    if i == |s| then 0 else (if s[i] == NL then 1 else 0) + NewlinesFrom(s, i + 1)
  }

  lemma {:induction false} NewlinesFromIs(s: seq<Byte>, i: nat)
    requires i <= |s|
    ensures NewlinesFrom(s, i) == Newlines(s[i..])
    decreases |s| - i
  {
    if i < |s| {
      NewlinesFromIs(s, i + 1);
      assert s[i..][1..] == s[i + 1..];
    }
  }

  /** What is still to be counted before the text behind i may be printed. */
  ghost predicate Counted(s: seq<Byte>, n: nat, i: nat, number: int) {
    i <= |s| && number >= 0 && number + NewlinesFrom(s, i) + (if Unfinished(s) then 1 else 0) == n
  }

  /** A newline with nothing left to count stands before the last lines. */
  lemma FoundCut(s: seq<Byte>, n: nat, i: nat)
    requires i < |s| && s[i] == NL && Counted(s, n, i + 1, 0) && n > 0
    ensures i + 1 < |s| && LastLines(s, s[i + 1..], n)
  {
    NewlinesFromIs(s, i + 1);
    var pre, out := s[..i + 1], s[i + 1..];
    assert s == pre + out;
    if out != [] {
      LineCountAppend(pre, out);
      CutGives(s, pre, out, n);
    }
  }

  lemma NothingCounted(s: seq<Byte>, n: nat, number: int)
    requires s != [] && n > 0 && number == if s[|s| - 1] != NL then n - 1 else n
    ensures Counted(s, n, |s|, number)
  {
  }

  lemma WholeFile(s: seq<Byte>, n: nat, number: int)
    requires Counted(s, n, 0, number)
    ensures LastLines(s, [] + s[0..], n)
  {
    NewlinesFromIs(s, 0);
    assert s[0..] == s && s == [] + s;
    CutGives(s, [], s, n);
  }

  lemma RestOfBlock(s: seq<Byte>, n: nat, pos: nat, size: nat, i: nat, out: seq<Byte>)
    requires n > 0 && i < size && pos + size <= |s| && s[pos + i] == NL && Counted(s, n, pos + i + 1, 0)
    requires out == if i != size - 1 then s[pos + i + 1..pos + size] else []
    ensures LastLines(s, out + s[pos + size..], n)
  {
    FoundCut(s, n, pos + i);
    assert out + s[pos + size..] == s[pos + i + 1..];
  }

  /** Scans one block backward. */
  method ScanBlock(s: seq<Byte>, pos: nat, size: nat, n: nat, number0: int) returns (found: bool, i: int, number: int)
    requires pos + size <= |s| && Counted(s, n, pos + size, number0) && n > 0
    ensures found ==> 0 <= i < size && s[pos + i] == NL && Counted(s, n, pos + i + 1, 0)
    ensures !found ==> Counted(s, n, pos, number)
  {
    found, number := false, number0;
    i := size - 1;
    while i >= 0
      invariant -1 <= i < size && Counted(s, n, pos + i + 1, number)
    {
      if s[pos + i] == NL {
        number := number - 1;
        if number == -1 {
          found := true;
          return;
        }
      }
      i := i - 1;
    }
  }

  /** Writes what is left of the block that the last lines begin in, and leaves the rest of
      the file, from offset on, to dump_remainder. */
  method FileLines(s: seq<Byte>, n: nat, bufsize: nat) returns (out: seq<Byte>, offset: nat)
    requires s != [] && bufsize > 0
    ensures offset <= |s| && LastLines(s, out + s[offset..], n)
  {
    hide LastLines, Newlines;
    out := [];
    if n == 0 {
      CutNothing(s);
      assert [] + s[|s|..] == [];
      return [], |s|;
    }
    var size := |s| % bufsize;
    if size == 0 {
      size := bufsize;
    }
    BlockFits(|s|, bufsize);
    var pos := |s| - size;
    var number: int := n;
    if s[pos + size - 1] != NL {
      number := number - 1;
    }
    NothingCounted(s, n, number);
    hide Counted;
    while true
      invariant 0 <= pos && 0 < size <= bufsize && pos + size <= |s| && pos % bufsize == 0
      invariant Counted(s, n, pos + size, number)
      decreases pos
    {
      hide Counted, LastLines;
      var found, i;
      found, i, number := ScanBlock(s, pos, size, n, number);
      if found {
        if i != size - 1 {
          out := s[pos + i + 1..pos + size];
        }
        offset := pos + size;
        RestOfBlock(s, n, pos, size, i, out);
        return;
      }
      if pos == 0 {
        WholeFile(s, n, number);
        offset := 0;
        return;
      }
      BlockBefore(pos, bufsize);
      pos := pos - bufsize;
      size := bufsize;
    }
  }

  /** A file of any length; its end is looked for first. */
  method FromFile(s: seq<Byte>, n: nat, bufsize: nat) returns (out: seq<Byte>)
    requires bufsize > 0
    ensures LastLines(s, out, n)
  {
    out := [];
    var offset := |s|;
    if |s| != 0 {
      out, offset := FileLines(s, n, bufsize);
    } else {
      CutGives(s, [], [], n);
    }
    out := out + s[offset..];
  }

  // ---------------------------------------------------------------- from a pipe

  /** A buffer of the list, and how many newlines are in it. */
  datatype Buffer = Buffer(bytes: seq<Byte>, nlines: nat)

  function Bytes(bufs: seq<Buffer>): seq<Byte> {
    if bufs == [] then [] else bufs[0].bytes + Bytes(bufs[1..])
  }

  function Total(bufs: seq<Buffer>): nat {
    if bufs == [] then 0 else bufs[0].nlines + Total(bufs[1..])
  }

  ghost predicate Tallied(bufs: seq<Buffer>) {
    forall k :: 0 <= k < |bufs| ==> bufs[k].nlines == Newlines(bufs[k].bytes)
  }

  lemma {:induction false} BytesAppend(a: seq<Buffer>, b: Buffer)
    ensures Bytes(a + [b]) == Bytes(a) + b.bytes && Total(a + [b]) == Total(a) + b.nlines
    decreases |a|
  {
    if a == [] {
      assert a + [b] == [b];
    } else {
      BytesAppend(a[1..], b);
      assert (a + [b])[1..] == a[1..] + [b];
    }
  }

  lemma {:induction false} TotalIsNewlines(bufs: seq<Buffer>)
    requires Tallied(bufs)
    ensures Total(bufs) == Newlines(Bytes(bufs))
    decreases |bufs|
  {
    if bufs != [] {
      TotalIsNewlines(bufs[1..]);
      NewlinesAppend(bufs[0].bytes, Bytes(bufs[1..]));
    }
  }

  method CountNewlines(bytes: seq<Byte>) returns (n: nat)
    ensures n == Newlines(bytes)
  {
    n := 0;
    var i: nat := 0;
    while i < |bytes|
      invariant 0 <= i <= |bytes| && n + Newlines(bytes[i..]) == Newlines(bytes)
    {
      assert bytes[i..][1..] == bytes[i + 1..];
      if bytes[i] == NL {
        n := n + 1;
      }
      i := i + 1;
    }
  }

  /** The buffers hold the end of what is read; if something was given up, more newlines
      than are wanted remain. */
  ghost predicate Holding(read: seq<Byte>, bufs: seq<Buffer>, total: nat, n: nat) {
    && bufs != [] && Tallied(bufs) && total == Total(bufs)
    && exists gone :: Gone(read, gone, bufs, total, n)
  }

  ghost predicate Gone(read: seq<Byte>, gone: seq<Byte>, bufs: seq<Buffer>, total: nat, n: nat) {
    read == gone + Bytes(bufs) && (gone != [] ==> total > n)
  }

  lemma HoldingMore(read: seq<Byte>, bufs: seq<Buffer>, total: nat, n: nat, more: Buffer, bufs': seq<Buffer>)
    requires Holding(read, bufs, total, n) && more.nlines == Newlines(more.bytes)
    requires bufs' != [] && Tallied(bufs') && Bytes(bufs') == Bytes(bufs) + more.bytes && Total(bufs') == Total(bufs) + more.nlines
    ensures Holding(read + more.bytes, bufs', total + more.nlines, n)
  {
    var gone :| Gone(read, gone, bufs, total, n);
    assert Gone(read + more.bytes, gone, bufs', total + more.nlines, n);
  }

  /** New bytes are put behind those in the last buffer. */
  lemma Joined(read: seq<Byte>, bufs: seq<Buffer>, total: nat, n: nat, more: Buffer, joined: Buffer)
    requires Holding(read, bufs, total, n) && more.nlines == Newlines(more.bytes)
    requires joined == Buffer(bufs[|bufs| - 1].bytes + more.bytes, bufs[|bufs| - 1].nlines + more.nlines)
    ensures Holding(read + more.bytes, bufs[..|bufs| - 1] + [joined], total + more.nlines, n)
  {
    hide Newlines, Bytes, Total;
    var init, last := bufs[..|bufs| - 1], bufs[|bufs| - 1];
    assert bufs == init + [last];
    BytesAppend(init, last);
    BytesAppend(init, joined);
    NewlinesAppend(last.bytes, more.bytes);
    HoldingMore(read, bufs, total, n, more, init + [joined]);
  }

  lemma Linked(read: seq<Byte>, bufs: seq<Buffer>, total: nat, n: nat, more: Buffer)
    requires Holding(read, bufs, total, n) && more.nlines == Newlines(more.bytes)
    ensures Holding(read + more.bytes, bufs + [more], total + more.nlines, n)
  {
    hide Newlines, Bytes, Total;
    BytesAppend(bufs, more);
    HoldingMore(read, bufs, total, n, more, bufs + [more]);
  }

  lemma Freed(read: seq<Byte>, bufs: seq<Buffer>, total: nat, n: nat)
    requires Holding(read, bufs, total, n) && |bufs| > 1 && total - bufs[0].nlines > n
    ensures Holding(read, bufs[1..], total - bufs[0].nlines, n)
  {
    hide Newlines;
    var gone :| Gone(read, gone, bufs, total, n);
    assert (gone + bufs[0].bytes) + Bytes(bufs[1..]) == gone + Bytes(bufs);
    assert Gone(read, gone + bufs[0].bytes, bufs[1..], total - bufs[0].nlines, n);
  }

  // ---------------------------------------------------------------- printing the list

  /** As Holding, the last buffer counting an unfinished line. */
  ghost predicate HoldingLines(s: seq<Byte>, bufs: seq<Buffer>, total: nat, n: nat) {
    && bufs != [] && total == Total(bufs) == LineCount(Bytes(bufs))
    && (forall k :: 0 <= k < |bufs| - 1 ==> bufs[k].nlines == Newlines(bufs[k].bytes))
    && bufs[|bufs| - 1].bytes != [] && bufs[|bufs| - 1].nlines == LineCount(bufs[|bufs| - 1].bytes)
    && exists gone :: Gone(s, gone, bufs, total, n)
  }

  lemma {:induction false} LastByte(bufs: seq<Buffer>)
    requires bufs != [] && bufs[|bufs| - 1].bytes != []
    ensures Bytes(bufs) != [] && Unfinished(Bytes(bufs)) == Unfinished(bufs[|bufs| - 1].bytes)
  {
    var init, last := bufs[..|bufs| - 1], bufs[|bufs| - 1];
    assert bufs == init + [last];
    BytesAppend(init, last);
  }

  lemma CountLast(s: seq<Byte>, bufs: seq<Buffer>, total: nat, n: nat, last': Buffer)
    requires Holding(s, bufs, total, n) && bufs[|bufs| - 1].bytes != []
    requires last' == Buffer(bufs[|bufs| - 1].bytes, LineCount(bufs[|bufs| - 1].bytes))
    ensures HoldingLines(s, bufs[..|bufs| - 1] + [last'], total + (last'.nlines - bufs[|bufs| - 1].nlines), n)
  {
    hide Newlines, Bytes, Total;
    var init, last := bufs[..|bufs| - 1], bufs[|bufs| - 1];
    assert bufs == init + [last];
    BytesAppend(init, last);
    BytesAppend(init, last');
    TotalIsNewlines(bufs);
    LastByte(bufs);
    var gone :| Gone(s, gone, bufs, total, n);
    assert Gone(s, gone, init + [last'], total + (last'.nlines - last.nlines), n);
  }

  lemma SkipBuffer(s: seq<Byte>, bufs: seq<Buffer>, total: nat, n: nat)
    requires HoldingLines(s, bufs, total, n) && total - bufs[0].nlines > n
    ensures |bufs| > 1 && HoldingLines(s, bufs[1..], total - bufs[0].nlines, n)
  {
    hide Newlines;
    assert Total(bufs) == bufs[0].nlines + Total(bufs[1..]);
    if |bufs| > 1 {
      var gone :| Gone(s, gone, bufs, total, n);
      assert (gone + bufs[0].bytes) + Bytes(bufs[1..]) == gone + Bytes(bufs);
      assert Gone(s, gone + bufs[0].bytes, bufs[1..], total - bufs[0].nlines, n);
      LastByte(bufs[1..]);
      LineCountAppend(bufs[0].bytes, Bytes(bufs[1..]));
    }
  }

  /** Behind the k-th newline. */
  method SkipNewlines(b: seq<Byte>, k: nat) returns (i: nat)
    requires 0 < k <= Newlines(b)
    ensures 0 < i <= |b| && b[i - 1] == NL && Newlines(b[..i]) == k
  {
    i := 0;
    var left := k;
    assert b[0..] == b;
    while left != 0
      invariant i <= |b| && 0 <= left <= k && Newlines(b[..i]) == k - left && left <= Newlines(b[i..])
      invariant left < k ==> i > 0 && b[i - 1] == NL
      decreases left
    {
      i := SkipLine(b, i);
      left := left - 1;
    }
  }

  method SkipLine(b: seq<Byte>, from: nat) returns (i: nat)
    requires from <= |b| && Newlines(b[from..]) > 0
    ensures from < i <= |b| && b[i - 1] == NL
    ensures Newlines(b[..i]) == Newlines(b[..from]) + 1 && Newlines(b[i..]) == Newlines(b[from..]) - 1
  {
    i := from;
    while b[i] != NL
      invariant from <= i < |b| && Newlines(b[i..]) == Newlines(b[from..]) && Newlines(b[..i]) == Newlines(b[..from])
      decreases |b| - i
    {
      OneByte(b, i);
      i := i + 1;
    }
    OneByte(b, i);
    i := i + 1;
  }

  lemma OneByte(b: seq<Byte>, i: nat)
    requires i < |b|
    ensures Newlines(b[i..]) == (if b[i] == NL then 1 else 0) + Newlines(b[i + 1..])
    ensures Newlines(b[..i + 1]) == Newlines(b[..i]) + if b[i] == NL then 1 else 0
  {
    assert b[i..][1..] == b[i + 1..];
    NewlinesAppend(b[..i], [b[i]]);
    assert b[..i + 1] == b[..i] + [b[i]];
  }

  lemma PrintFrom(s: seq<Byte>, bufs: seq<Buffer>, total: nat, n: nat, i: nat)
    requires HoldingLines(s, bufs, total, n) && total > n && i <= |bufs[0].bytes|
    requires 0 < i && bufs[0].bytes[i - 1] == NL && Newlines(bufs[0].bytes[..i]) == total - n
    ensures LastLines(s, bufs[0].bytes[i..] + Bytes(bufs[1..]), n)
  {
    var gone :| Gone(s, gone, bufs, total, n);
    var head, out := bufs[0].bytes[..i], bufs[0].bytes[i..] + Bytes(bufs[1..]);
    assert Bytes(bufs) == head + out && s == (gone + head) + out;
    LineCountAppend(head, out);
    LastByte(bufs);
    LineCountAppend(gone, Bytes(bufs));
    CutGives(s, gone + head, out, n);
  }

  lemma PrintAll(s: seq<Byte>, bufs: seq<Buffer>, total: nat, n: nat)
    requires HoldingLines(s, bufs, total, n) && total <= n
    ensures LastLines(s, Bytes(bufs), n)
  {
    var gone :| Gone(s, gone, bufs, total, n);
    assert s == Bytes(bufs) == [] + Bytes(bufs);
    CutGives(s, [], Bytes(bufs), n);
  }

  /** Nothing has been read, whether that counts as a line or not. */
  ghost predicate HoldingNothing(s: seq<Byte>, bufs: seq<Buffer>, total: nat) {
    s == [] && |bufs| == 1 && bufs[0].bytes == [] && total == bufs[0].nlines <= 1
  }

  /** Skips the buffers that are not needed, and what is not needed of the first one. */
  method PrintList(bufs0: seq<Buffer>, total0: nat, n: nat, ghost s: seq<Byte>) returns (out: seq<Byte>)
    requires (HoldingLines(s, bufs0, total0, n) || HoldingNothing(s, bufs0, total0)) && n > 0
    ensures LastLines(s, out, n)
  {
    var bufs: seq<Buffer>, total: nat := bufs0, total0;
    while total as int - bufs[0].nlines > n
      invariant HoldingLines(s, bufs, total, n) || HoldingNothing(s, bufs, total)
      decreases |bufs|
    {
      SkipBuffer(s, bufs, total, n);
      total := total - bufs[0].nlines;
      bufs := bufs[1..];
    }
    var i := 0;
    if total > n {
      i := SkipNewlines(bufs[0].bytes, total - n);
      PrintFrom(s, bufs, total, n, i);
    } else if s == [] {
      NothingHeld(s, bufs, total, n);
    } else {
      PrintAll(s, bufs, total, n);
    }
    out := bufs[0].bytes[i..] + Bytes(bufs[1..]);
  }

  lemma NothingHeld(s: seq<Byte>, bufs: seq<Buffer>, total: nat, n: nat)
    requires s == [] && (HoldingLines(s, bufs, total, n) || HoldingNothing(s, bufs, total))
    ensures LastLines(s, bufs[0].bytes[0..] + Bytes(bufs[1..]), n)
  {
    if HoldingLines(s, bufs, total, n) {
      var gone :| Gone(s, gone, bufs, total, n);
      LastByte(bufs);
    }
    CutGives(s, [], [], n);
  }

  lemma StartHolding(n: nat)
    ensures Holding([], [Buffer([], 0)], 0, n)
  {
    assert Gone([], [], [Buffer([], 0)], 0, n);
  }

  /** Puts what was read into the last buffer if there is room, or else into a new one; the
      first buffer is then given up if the others have more lines than are wanted. */
  method AddBytes(bufs: seq<Buffer>, total: nat, bytes: seq<Byte>, n: nat, bufsize: nat, ghost read: seq<Byte>)
    returns (bufs': seq<Buffer>, total': nat)
    requires Holding(read, bufs, total, n) && bytes != []
    ensures Holding(read + bytes, bufs', total', n) && bufs'[|bufs'| - 1].bytes != []
  {
    var nlines := CountNewlines(bytes);
    var last, more := bufs[|bufs| - 1], Buffer(bytes, nlines);
    total' := total + nlines;
    if |bytes| + |last.bytes| < bufsize {
      var joined := Buffer(last.bytes + bytes, last.nlines + nlines);
      Joined(read, bufs, total, n, more, joined);
      bufs' := bufs[..|bufs| - 1] + [joined];
    } else {
      Linked(read, bufs, total, n, more);
      bufs' := bufs + [more];
      if total' as int - bufs'[0].nlines > n {
        Freed(read + bytes, bufs', total', n);
        total' := total' - bufs'[0].nlines;
        bufs' := bufs'[1..];
      }
    }
  }

  /** An unfinished last line counts.  If nothing has been read, the byte looked at is the
      one in front of the buffer. */
  method CountUnfinished(bufs: seq<Buffer>, total: nat, n: nat, front: Byte, ghost s: seq<Byte>) returns (bufs': seq<Buffer>, total': nat)
    requires bufs != [] && Holding(s, bufs, total, n)
    requires if s == [] then bufs == [Buffer([], 0)] else bufs[|bufs| - 1].bytes != []
    ensures if s == [] then HoldingNothing(s, bufs', total') else HoldingLines(s, bufs', total', n)
  {
    hide Newlines, HoldingLines, Bytes;
    var last := bufs[|bufs| - 1];
    var counted := last;
    total' := total;
    if (if |last.bytes| == 0 then front else last.bytes[|last.bytes| - 1]) != NL {
      counted := Buffer(last.bytes, last.nlines + 1);
      total' := total + 1;
    }
    if s != [] {
      CountLast(s, bufs, total, n, counted);
    } else {
      assert bufs[1..] == [] && total == Total([]) == 0;
    }
    bufs' := bufs[..|bufs| - 1] + [counted];
  }

  /** Keeps as many of the last buffers as may be needed. */
  method PipeLines(input: Stream, n: nat, bufsize: nat, front: Byte) returns (out: seq<Byte>)
    requires bufsize > 0
    modifies input
    ensures LastLines(old(input.rest), out, n)
  {
    ghost var s, read := input.rest, [];
    var bufs: seq<Buffer>, total: nat := [Buffer([], 0)], 0;
    StartHolding(n);
    while true
      invariant Holding(read, bufs, total, n) && s == read + input.rest
      invariant if read == [] then bufs == [Buffer([], 0)] else bufs[|bufs| - 1].bytes != []
      decreases |input.rest|
    {
      var bytes := input.Read(bufsize);
      if bytes == [] {
        break;
      }
      assert read + (bytes + input.rest) == (read + bytes) + input.rest;
      bufs, total := AddBytes(bufs, total, bytes, n, bufsize, read);
      read := read + bytes;
    }
    assert read == s;
    if n == 0 {
      CutNothing(s);
      return [];
    }
    bufs, total := CountUnfinished(bufs, total, n, front, s);
    out := PrintList(bufs, total, n, s);
  }

  /** Both ways give the same. */
  lemma SameTail(s: seq<Byte>, fromPipe: seq<Byte>, fromFile: seq<Byte>, n: nat)
    requires LastLines(s, fromPipe, n) && LastLines(s, fromFile, n)
    ensures fromPipe == fromFile
  {
    LastLinesUnique(s, fromPipe, fromFile, n);
  }
}
