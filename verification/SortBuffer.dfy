/** fillbuf and findlines of gnu/src/sort.c: a file is read through a growing buffer and
    cut into lines, the unfinished line at the end being kept for the next filling. */
module SortBuffer {
  import opened SortNumber

  const NEWLINE: bv8 := 10

  // ---------------------------------------------------------------- the lines of a text

  /** Where the line at i ends: at its newline, or at the end of the text. */
  function LineEnd(b: Text, i: nat): (e: nat)
    requires i <= |b|
    ensures i <= e <= |b|
    ensures forall k :: i <= k < e ==> b[k] != NEWLINE
    ensures e < |b| ==> b[e] == NEWLINE
    decreases |b| - i
  {
    if i == |b| || b[i] == NEWLINE then i else LineEnd(b, i + 1)
  }

  /** The lines from i on without their newlines; a last line need not have one. */
  function LinesFrom(b: Text, i: nat): seq<Text>
    decreases |b| - i
  {
    if i >= |b| then [] else [b[i..LineEnd(b, i)]] + LinesFrom(b, LineEnd(b, i) + 1)
  }

  function Lines(b: Text): seq<Text> {
    LinesFrom(b, 0)
  }

  function Unlines(lines: seq<Text>): Text {
    if lines == [] then [] else lines[0] + [NEWLINE] + Unlines(lines[1..])
  }

  lemma LineEndIs(b: Text, i: nat, e: nat)
    requires i <= e <= |b|
    requires forall k :: i <= k < e ==> b[k] != NEWLINE
    requires e < |b| ==> b[e] == NEWLINE
    ensures LineEnd(b, i) == e
  {
    var m := LineEnd(b, i);
    assert m < |b| ==> b[m] == NEWLINE;
    assert !(m < e) && !(e < m);
  }

  lemma LinesAt(b: Text, i: nat, e: nat)
    requires i < |b| && e == LineEnd(b, i)
    ensures LinesFrom(b, i) == [b[i..e]] + LinesFrom(b, e + 1)
  {
  }

  lemma NoLinesAt(b: Text, i: nat)
    requires i >= |b|
    ensures LinesFrom(b, i) == []
  {
  }

  lemma SliceBehind(a: Text, b: Text, i: nat, e: nat)
    requires i <= e <= |b|
    ensures (a + b)[|a| + i..|a| + e] == b[i..e]
  {
  }

  lemma SliceBefore(b: Text, c: Text, i: nat, e: nat)
    requires i <= e <= |b|
    ensures (b + c)[i..e] == b[i..e]
  {
  }

  /** The lines of a text behind a prefix. */
  lemma {:induction false} LinesBehind(a: Text, b: Text, i: nat)
    ensures LinesFrom(a + b, |a| + i) == LinesFrom(b, i)
    decreases |b| - i
  {
    hide LineEnd, LinesFrom;
    if i < |b| {
      var e := LineEnd(b, i);
      LineEndIs(a + b, |a| + i, |a| + e);
      LinesAt(b, i, e);
      LinesAt(a + b, |a| + i, |a| + e);
      SliceBehind(a, b, i, e);
      LinesBehind(a, b, e + 1);
      assert |a| + e + 1 == |a| + (e + 1);
    } else {
      NoLinesAt(b, i);
      NoLinesAt(a + b, |a| + i);
    }
  }

  /** A line up to its newline is the first, whatever follows. */
  lemma FirstLine(line: Text, rest: Text)
    requires NEWLINE !in line
    ensures Lines((line + [NEWLINE]) + rest) == [line] + Lines(rest)
  {
    var b := (line + [NEWLINE]) + rest;
    LineEndIs(b, 0, |line|);
    assert b[0..|line|] == line;
    LinesBehind(line + [NEWLINE], rest, 0);
  }

  /** Supplying the last newline does not change the lines. */
  lemma {:induction false} LastNewline(b: Text, i: nat)
    requires i < |b| && b[|b| - 1] != NEWLINE
    ensures LinesFrom(b + [NEWLINE], i) == LinesFrom(b, i)
    decreases |b| - i
  {
    hide LineEnd, LinesFrom;
    var e := LineEnd(b, i);
    LineEndIs(b + [NEWLINE], i, e);
    LinesAt(b, i, e);
    LinesAt(b + [NEWLINE], i, e);
    SliceBefore(b, [NEWLINE], i, e);
    if e < |b| {
      LastNewline(b, e + 1);
    } else {
      NoLinesAt(b, e + 1);
      NoLinesAt(b + [NEWLINE], e + 1);
    }
  }

  /** Lines written to a file are read back. */
  lemma {:induction false} ReadBack(lines: seq<Text>)
    requires forall k :: 0 <= k < |lines| ==> NEWLINE !in lines[k]
    ensures Lines(Unlines(lines)) == lines
    decreases |lines|
  {
    if lines != [] {
      ReadBack(lines[1..]);
      FirstLine(lines[0], Unlines(lines[1..]));
    }
  }

  lemma {:induction false} NoNewlines(b: Text, i: nat)
    ensures forall k :: 0 <= k < |LinesFrom(b, i)| ==> NEWLINE !in LinesFrom(b, i)[k]
    decreases |b| - i
  {
    if i < |b| {
      NoNewlines(b, LineEnd(b, i) + 1);
    }
  }

  lemma {:induction false} NoMoreLinesThanBytes(b: Text, i: nat)
    requires i <= |b| + 1
    ensures |LinesFrom(b, i)| <= if i <= |b| then |b| - i else 0
    decreases |b| - i
  {
    if i < |b| {
      NoMoreLinesThanBytes(b, LineEnd(b, i) + 1);
    }
  }

  // ---------------------------------------------------------------- the buffer

  /** An open file: what is left to be read, and whether a read has met the end. */
  class Input {
    var rest: Text
    var eof: bool

    constructor (content: Text)
      ensures rest == content && !eof
    {
      rest, eof := content, false;
    }

    ghost predicate Valid()
      reads this
    {
      eof ==> rest == []
    }

    /** Reads room bytes, or fewer when there are no more. */
    method Read(room: nat) returns (bytes: Text)
      requires Valid()
      modifies this
      ensures Valid() && old(rest) == bytes + rest && |bytes| <= room
      ensures eof <==> old(eof) || |bytes| < room
    {
      if |rest| < room {
        bytes, rest, eof := rest, [], true;
      } else {
        bytes, rest := rest[..room], rest[room..];
      }
    }
  }

  /** Whether reading the content for its first line into a buffer of this size, which is
      doubled as long as it holds no newline, meets the end of the file. */
  predicate MeetsEnd(content: Text, alloc: nat)
    requires alloc > 0
    decreases |content| - alloc
  {
    |content| < alloc || (NEWLINE !in content[..alloc] && MeetsEnd(content, 2 * alloc))
  }

  /** The first part of the content is read, and what MeetsEnd says is still open or found. */
  ghost predicate FirstRead(content: Text, size: nat, data: Text, alloc: nat, eof: bool) {
    && size > 0 && alloc > 0
    && (eof ==> MeetsEnd(content, size))
    && (!eof && data == [] ==> alloc == size)
    && (!eof && data != [] ==>
          && |data| == alloc <= |content| && data == content[..alloc]
          && MeetsEnd(content, size) == MeetsEnd(content, alloc))
  }

  lemma ReadMore(content: Text, size: nat, data: Text, alloc: nat, alloc': nat, bytes: Text, rest: Text)
    requires FirstRead(content, size, data, alloc, false) && content == data + (bytes + rest) && NEWLINE !in data
    requires alloc' == (if |data| == alloc then alloc * 2 else alloc) && |data| + |bytes| <= alloc'
    requires |data| + |bytes| < alloc' ==> rest == []
    ensures FirstRead(content, size, data + bytes, alloc', |data| + |bytes| < alloc')
  {
    assert content[..|data + bytes|] == data + bytes && content[..|data|] == data;
    if data != [] {
      assert MeetsEnd(content, alloc) == MeetsEnd(content, alloc');
    }
  }

  class Buffer {
    var data: Text
    var left: nat
    var alloc: nat

    ghost predicate Valid()
      reads this
    {
      alloc > 0 && left <= |data| <= alloc
    }

    constructor (size: nat)
      requires size > 0
      ensures Valid() && data == [] && left == 0 && alloc == size
    {
      data, left, alloc := [], 0, size;
    }

    /** The unfinished line. */
    function Left(): Text
      requires Valid()
      reads this
    {
      data[|data| - left..]
    }

    method Grow()
      requires Valid()
      modifies this`alloc
      ensures Valid() && alloc == if |data| == old(alloc) then old(alloc) * 2 else old(alloc)
    {
      if |data| == alloc {
        alloc := alloc * 2;
      }
    }

    /** Reads as much as there is room for, in a larger buffer if this one is full. */
    method ReadPart(fp: Input, ghost content: Text, ghost size: nat, ghost first: bool)
      requires Valid() && fp.Valid() && left == 0 && !fp.eof && NEWLINE !in data
      requires first ==> content == data + fp.rest && FirstRead(content, size, data, alloc, false)
      modifies this`data, this`alloc, fp
      ensures Valid() && fp.Valid() && data + fp.rest == old(data + fp.rest)
      ensures |fp.rest| < old(|fp.rest|) || (|fp.rest| == old(|fp.rest|) && fp.eof)
      ensures first ==> FirstRead(content, size, data, alloc, fp.eof)
      ensures old(data == [] && fp.rest == []) ==> data == [] && alloc == old(alloc)
    {
      hide MeetsEnd, FirstRead;
      ghost var before := alloc;
      Grow();
      var bytes := fp.Read(alloc - |data|);
      if first {
        ReadMore(content, size, data, before, alloc, bytes, fp.rest);
      }
      assert (data + bytes) + fp.rest == data + (bytes + fp.rest);
      data := data + bytes;
    }

    /** Reads until there is a newline in the buffer or no more in the file. */
    method ReadOn(fp: Input)
      requires Valid() && fp.Valid() && left == 0
      modifies this, fp
      ensures Valid() && fp.Valid() && left == 0
      ensures old(fp.eof) ==> fp.eof
      ensures data + fp.rest == old(data + fp.rest)
      ensures fp.eof || NEWLINE in data
      ensures old(data == [] && !fp.eof) ==> (fp.eof <==> MeetsEnd(old(fp.rest), old(alloc)))
      ensures old(data + fp.rest) == [] ==> alloc == old(alloc)
    {
      ghost var content, size, first := fp.rest, alloc, data == [] && !fp.eof;
      while !fp.eof && (data == [] || NEWLINE !in data)
        invariant Valid() && fp.Valid() && data + fp.rest == old(data + fp.rest) && left == 0
        invariant old(fp.eof) ==> fp.eof
        invariant first ==> content == data + fp.rest && FirstRead(content, size, data, alloc, fp.eof)
        invariant content == [] && old(data) == [] ==> data == [] && alloc == size
        decreases |fp.rest|, !fp.eof
      {
        hide MeetsEnd, FirstRead;
        ReadPart(fp, content, size, first);
      }
    }

    /** Supplies a newline at the end of a file that does not end in one. */
    method Terminate(eof: bool)
      requires Valid() && left == 0 && (eof || NEWLINE in data)
      modifies this
      ensures Valid() && |data| <= old(|data|) + 1
      ensures data == if eof then Terminated(old(data)) else old(data)
      ensures data != [] ==> NEWLINE in data
      ensures data == [] ==> alloc == old(alloc)
    {
      if eof && data != [] && data[|data| - 1] != NEWLINE {
        Grow();
        data := data + [NEWLINE];
      }
      assert data != [] && data[|data| - 1] == NEWLINE ==> NEWLINE in data;
    }

    method Fill(fp: Input) returns (used: nat)
      requires Valid() && fp.Valid()
      modifies this, fp
      ensures Valid() && fp.Valid() && used == |data|
      ensures old(fp.eof) ==> fp.eof
      ensures Lines(data + fp.rest) == Lines(old(Left() + fp.rest))
      ensures data == [] <==> old(Left() + fp.rest) == []
      ensures data == [] ==> fp.rest == []
      ensures data != [] ==> NEWLINE in data
      ensures fp.eof ==> data == Terminated(data) && fp.rest == []
      ensures |data| + |fp.rest| <= old(left + |fp.rest|) + 1
      ensures old(left == 0 && !fp.eof) ==> (fp.eof <==> MeetsEnd(old(fp.rest), old(alloc)))
      ensures old(left == 0 && fp.rest == []) ==> alloc == old(alloc)
    {
      data := data[|data| - left..];
      left := 0;
      ReadOn(fp);
      ghost var read := data;
      Terminate(fp.eof);
      if fp.eof {
        TerminatedLines(read);
        assert read + fp.rest == read && data + fp.rest == data;
      }
      used := |data|;
    }

    /** The finished lines in the buffer, limit of them at most. */
    method FindLines(limit: nat, ghost after: Text) returns (lines: seq<Text>)
      requires Valid()
      modifies this`left
      ensures Valid()
      ensures Lines(data + after) == lines + Lines(Left() + after)
      ensures |lines| <= |data| && |lines| <= limit
      ensures |lines| < limit ==> NEWLINE !in Left()
      ensures limit > 0 && NEWLINE in data ==> lines != []
    {
      hide LinesFrom, Lines;
      var beg := 0;
      lines := [];
      var ptr := IndexOf(data, 0);
      StartCut(data, after, ptr);
      while beg < |data| && ptr < |data| && |lines| < limit
        invariant Cut(data, after, lines, beg, ptr) && |lines| <= limit
        decreases |data| - beg
      {
        hide Cut, LinesFrom, Lines, Buffer.Valid;
        var next := IndexOf(data, ptr + 1);
        NextCut(data, after, lines, beg, ptr, next);
        lines := lines + [data[beg..ptr]];
        beg, ptr := ptr + 1, next;
      }
      left := |data| - beg;
      CutDone(data, after, lines, beg, ptr);
    }
  }

  /** Fills the buffer and finds the lines in it; no lines means the end of the file. */
  method NextTable(buf: Buffer, fp: Input, limit: nat) returns (lines: seq<Text>)
    requires buf.Valid() && fp.Valid() && limit > 0
    modifies buf, fp
    ensures buf.Valid() && fp.Valid()
    ensures old(Lines(buf.Left() + fp.rest)) == lines + Lines(buf.Left() + fp.rest)
    ensures lines == [] ==> buf.left == 0 && Lines(buf.Left() + fp.rest) == []
    ensures fp.eof && |lines| < limit ==> buf.left == 0 && Lines(buf.Left() + fp.rest) == []
    ensures |lines| <= limit && (lines == [] <==> old(buf.Left() + fp.rest) == [])
    ensures old(fp.eof) ==> fp.eof
    ensures old(buf.left == 0 && !fp.eof) ==> (fp.eof <==> MeetsEnd(old(fp.rest), old(buf.alloc)))
    ensures old(buf.left == 0 && fp.rest == []) ==> buf.alloc == old(buf.alloc)
  {
    var used := buf.Fill(fp);
    lines := buf.FindLines(limit, fp.rest);
    if fp.eof && buf.left > 0 {
      EndsInNewline(buf.data, buf.left);
    }
  }

  lemma EndsInNewline(data: Text, left: nat)
    requires data == Terminated(data) && 0 < left <= |data|
    ensures NEWLINE in data[|data| - left..]
  {
    assert data[|data| - left..][left - 1] == data[|data| - 1];
  }

  function Terminated(b: Text): Text {
    if b != [] && b[|b| - 1] != NEWLINE then b + [NEWLINE] else b
  }

  lemma TerminatedLines(b: Text)
    ensures Lines(Terminated(b)) == Lines(b) && Terminated(Terminated(b)) == Terminated(b)
  {
    if b != [] && b[|b| - 1] != NEWLINE {
      LastNewline(b, 0);
    }
  }

  /** Lines are cut off up to beg; the next newline in the buffer, if any, is at ptr. */
  ghost predicate Cut(data: Text, after: Text, lines: seq<Text>, beg: nat, ptr: nat) {
    && beg <= ptr <= |data| && |lines| <= beg
    && (ptr < |data| ==> data[ptr] == NEWLINE)
    && (forall k :: beg <= k < ptr ==> data[k] != NEWLINE)
    && Lines(data + after) == lines + LinesFrom(data + after, beg)
    && (beg > 0 ==> lines != [])
  }

  lemma StartCut(data: Text, after: Text, ptr: nat)
    requires ptr <= |data| && (ptr < |data| ==> data[ptr] == NEWLINE) && forall k :: 0 <= k < ptr ==> data[k] != NEWLINE
    ensures Cut(data, after, [], 0, ptr)
  {
  }

  lemma NextCut(data: Text, after: Text, lines: seq<Text>, beg: nat, ptr: nat, next: nat)
    requires Cut(data, after, lines, beg, ptr) && ptr < next <= |data|
    requires (forall k :: ptr < k < next ==> data[k] != NEWLINE) && (next < |data| ==> data[next] == NEWLINE)
    ensures Cut(data, after, lines + [data[beg..ptr]], ptr + 1, next)
  {
    var b := data + after;
    LineEndIs(b, beg, ptr);
    assert b[beg..ptr] == data[beg..ptr];
  }

  lemma CutDone(data: Text, after: Text, lines: seq<Text>, beg: nat, ptr: nat)
    requires Cut(data, after, lines, beg, ptr)
    ensures Lines(data + after) == lines + Lines(data[beg..] + after)
    ensures ptr == |data| ==> NEWLINE !in data[beg..]
  {
    LinesBehind(data[..beg], data[beg..] + after, 0);
    assert data[..beg] + (data[beg..] + after) == data + after;
  }

  /** The next newline from a position on, or the end. */
  method IndexOf(data: Text, from: nat) returns (ptr: nat)
    requires from <= |data|
    ensures from <= ptr <= |data| && (forall k :: from <= k < ptr ==> data[k] != NEWLINE)
    ensures ptr < |data| ==> data[ptr] == NEWLINE
  {
    ptr := from;
    while ptr < |data| && data[ptr] != NEWLINE
      invariant from <= ptr <= |data| && (forall k :: from <= k < ptr ==> data[k] != NEWLINE)
    {
      ptr := ptr + 1;
    }
  }
}
