/** The three ways in which gnu/src/split.c cuts its input into files. */
module Split {
  import opened Concatenation
  import opened Streams
  import opened SplitNames

  // ---------------------------------------------------------------- reading and writing

  /** Reads as much as is asked for, unless the input ends. */
  method StdRead(input: Stream, nchars: nat) returns (bytes: seq<Byte>)
    modifies input
    ensures old(input.rest) == bytes + input.rest && |bytes| <= nchars
    ensures |bytes| < nchars ==> input.rest == []
  {
    bytes := [];
    while |bytes| < nchars
      invariant old(input.rest) == bytes + input.rest && |bytes| <= nchars
      decreases |input.rest|, nchars - |bytes|
    {
      var more := input.Read(nchars - |bytes|);
      if more == [] {
        break;
      }
      assert bytes + (more + input.rest) == (bytes + more) + input.rest;
      bytes := bytes + more;
    }
  }

  ghost predicate Increasing(names: seq<Suffix>) {
    forall i, j :: 0 <= i < j < |names| ==> Less(names[i], names[j])
  }

  /** So all names are different, and none can come before an earlier one. */
  lemma NamesDistinct(names: seq<Suffix>, i: nat, j: nat)
    requires Increasing(names) && i < j < |names|
    ensures names[i] != names[j] && !Less(names[j], names[i])
  {
    assert Less(names[i], names[j]);
    if Less(names[j], names[i]) {
      LessTransitive(names[i], names[j], names[i]);
    }
    NotLessItself(names[i]);
  }

  lemma NotLessItself(a: Suffix)
    ensures !Less(a, a)
  {
  }

  /** A name greater than the last is greater than all. */
  lemma OneMoreName(names: seq<Suffix>, name: Suffix)
    requires Increasing(names) && (names != [] ==> Less(names[|names| - 1], name))
    ensures Increasing(names + [name])
  {
    hide Less;
    forall i | 0 <= i < |names| ensures Less(names[i], name) {
      if i < |names| - 1 {
        LessTransitive(names[i], names[|names| - 1], name);
      }
    }
  }

  class Output {
    const namer: Namer
    var files: seq<seq<Byte>>
    var names: seq<Suffix>

    ghost predicate Valid()
      reads this, namer
    {
      && |names| == |files| && Increasing(names)
      && (names == [] ==> namer.Fresh())
      && (names != [] ==> namer.Valid() && namer.suffix == names[|names| - 1])
    }

    constructor ()
      ensures Valid() && files == [] && fresh(namer)
    {
      namer := new Namer();
      files, names := [], [];
    }

    /** Writes to the file in use, or to a new one under the next name. */
    method CWrite(newFile: bool, bytes: seq<Byte>)
      requires Valid() && (newFile || files != [])
      modifies this, namer
      ensures Valid() && files == Written(old(files), newFile, bytes)
    {
      if newFile {
        namer.NextFileName();
        OneMoreName(names, namer.suffix);
        names := names + [namer.suffix];
        files := files + [bytes];
      } else {
        files := files[..|files| - 1] + [files[|files| - 1] + bytes];
      }
    }
  }

  function Written(files: seq<seq<Byte>>, newFile: bool, bytes: seq<Byte>): (r: seq<seq<Byte>>)
    requires newFile || files != []
    ensures |r| == |files| + if newFile then 1 else 0
  {
    if newFile then files + [bytes] else files[..|files| - 1] + [files[|files| - 1] + bytes]
  }

  /** Whatever file they go to, the bytes are the next of all. */
  lemma WrittenConcat(files: seq<seq<Byte>>, newFile: bool, bytes: seq<Byte>)
    requires newFile || files != []
    ensures Concat(Written(files, newFile, bytes)) == Concat(files) + bytes
  {
    if newFile {
      ConcatLast(files, bytes);
    } else {
      var init, last := files[..|files| - 1], files[|files| - 1];
      assert files == init + [last];
      ConcatLast(init, last);
      ConcatLast(init, last + bytes);
    }
  }

  // ---------------------------------------------------------------- bytes

  /** Pieces of n bytes; the last one may have fewer but not none. */
  ghost predicate InBytes(s: seq<Byte>, files: seq<seq<Byte>>, n: nat) {
    && Concat(files) == s
    && (forall k :: 0 <= k < |files| - 1 ==> |files[k]| == n)
    && (files != [] ==> 0 < |files[|files| - 1]| <= n)
  }

  /** Room for toWrite bytes is left in the last piece, or it is full. */
  ghost predicate ByBytes(s: seq<Byte>, files: seq<seq<Byte>>, n: nat, newFile: bool, toWrite: nat) {
    && InBytes(s, files, n) && toWrite > 0
    && if newFile then toWrite == n && (files != [] ==> |files[|files| - 1]| == n)
       else files != [] && |files[|files| - 1]| + toWrite == n
  }

  lemma WriteBytes(s: seq<Byte>, files: seq<seq<Byte>>, n: nat, newFile: bool, toWrite: nat, bytes: seq<Byte>)
    requires ByBytes(s, files, n, newFile, toWrite) && 0 < |bytes| <= toWrite
    ensures newFile || files != []
    ensures |bytes| < toWrite ==> ByBytes(s + bytes, Written(files, newFile, bytes), n, false, toWrite - |bytes|)
    ensures |bytes| == toWrite ==> ByBytes(s + bytes, Written(files, newFile, bytes), n, true, n)
  {
    WrittenConcat(files, newFile, bytes);
  }

  /** Writes one buffer, going on with the piece that is not full. */
  method WriteBuffer(out: Output, buf: seq<Byte>, n: nat, newFile0: bool, toWrite0: nat, ghost done: seq<Byte>)
    returns (newFile: bool, toWrite: nat)
    requires out.Valid() && ByBytes(done, out.files, n, newFile0, toWrite0)
    modifies out, out.namer
    ensures out.Valid() && ByBytes(done + buf, out.files, n, newFile, toWrite)
  {
    hide ByBytes, Output.Valid, Written;
    newFile, toWrite := newFile0, toWrite0;
    var bp: nat := 0;
    assert done + buf[..0] == done;
    while true
      invariant bp <= |buf| && out.Valid() && ByBytes(done + buf[..bp], out.files, n, newFile, toWrite)
      decreases |buf| - bp
    {
      hide ByBytes, Output.Valid, Written;
      var toRead := |buf| - bp;
      if toRead < toWrite {
        if toRead != 0 {
          WriteBytes(done + buf[..bp], out.files, n, newFile, toWrite, buf[bp..]);
          out.CWrite(newFile, buf[bp..]);
          Onward(done, buf, bp, |buf|);
          newFile, toWrite := false, toWrite - toRead;
        } else {
          assert buf[..bp] == buf;
        }
        break;
      }
      PositiveRoom(done + buf[..bp], out.files, n, newFile, toWrite);
      WriteBytes(done + buf[..bp], out.files, n, newFile, toWrite, buf[bp..bp + toWrite]);
      out.CWrite(newFile, buf[bp..bp + toWrite]);
      Onward(done, buf, bp, bp + toWrite);
      bp := bp + toWrite;
      newFile, toWrite := true, n;
    }
  }

  lemma PositiveRoom(s: seq<Byte>, files: seq<seq<Byte>>, n: nat, newFile: bool, toWrite: nat)
    requires ByBytes(s, files, n, newFile, toWrite)
    ensures toWrite > 0
  {
  }

  lemma Onward(done: seq<Byte>, buf: seq<Byte>, i: nat, j: nat)
    requires i <= j <= |buf|
    ensures (done + buf[..i]) + buf[i..j] == done + buf[..j]
    ensures j == |buf| ==> buf[i..j] == buf[i..] && buf[..j] == buf
  {
  }

  lemma NothingInBytes(n: nat)
    requires n > 0
    ensures ByBytes([], [], n, true, n)
  {
  }

  /** The pieces together are the input, and all but the last have nchars bytes. */
  method BytesSplit(input: Stream, nchars: nat, bufsize: nat) returns (out: Output)
    requires nchars > 0 && bufsize > 0
    modifies input
    ensures out.Valid() && InBytes(old(input.rest), out.files, nchars)
  {
    out := new Output();
    ghost var s, done: seq<Byte> := input.rest, [];
    var newFile, toWrite := true, nchars;
    NothingInBytes(nchars);
    var more := true;
    while more
      invariant out.Valid() && fresh(out) && fresh(out.namer) && s == done + input.rest
      invariant ByBytes(done, out.files, nchars, newFile, toWrite)
      invariant !more ==> input.rest == []
      decreases |input.rest|, more
    {
      hide ByBytes, Output.Valid;
      var buf := StdRead(input, bufsize);
      newFile, toWrite := WriteBuffer(out, buf, nchars, newFile, toWrite, done);
      assert done + (buf + input.rest) == (done + buf) + input.rest;
      done := done + buf;
      more := |buf| == bufsize;
    }
    assert done == s;
  }

  // ---------------------------------------------------------------- lines

  predicate Complete(file: seq<Byte>, n: nat) {
    file != [] && Newlines(file) == n && !Unfinished(file)
  }

  /** Pieces of n lines; the last one may have fewer, or an unfinished line, but not none. */
  ghost predicate InLines(s: seq<Byte>, files: seq<seq<Byte>>, n: nat) {
    && Concat(files) == s
    && (forall k :: 0 <= k < |files| - 1 ==> Complete(files[k], n))
    && (files != [] ==> 0 < LineCount(files[|files| - 1]) <= n)
  }

  /** The last piece has so many newlines, or is complete and a new one is to be begun. */
  ghost predicate ByLines(s: seq<Byte>, files: seq<seq<Byte>>, n: nat, newFile: bool, count: nat) {
    && Concat(files) == s && count < n
    && (forall k :: 0 <= k < |files| - 1 ==> Complete(files[k], n))
    && if newFile then count == 0 && (files != [] ==> Complete(files[|files| - 1], n))
       else files != [] && files[|files| - 1] != [] && Newlines(files[|files| - 1]) == count
  }

  lemma WriteLines(s: seq<Byte>, files: seq<seq<Byte>>, n: nat, newFile: bool, count: nat, bytes: seq<Byte>)
    requires ByLines(s, files, n, newFile, count) && bytes != []
    ensures newFile || files != []
    ensures count + Newlines(bytes) == n && !Unfinished(bytes) ==> ByLines(s + bytes, Written(files, newFile, bytes), n, true, 0)
    ensures count + Newlines(bytes) < n ==> ByLines(s + bytes, Written(files, newFile, bytes), n, false, count + Newlines(bytes))
  {
    hide Newlines, Concat;
    WrittenConcat(files, newFile, bytes);
    if !newFile {
      NewlinesAppend(files[|files| - 1], bytes);
    }
  }

  lemma LinesDone(s: seq<Byte>, files: seq<seq<Byte>>, n: nat, newFile: bool, count: nat)
    requires ByLines(s, files, n, newFile, count)
    ensures InLines(s, files, n)
  {
    if files != [] {
      var last := files[|files| - 1];
      if Newlines(last) == 0 {
        NoNewlineAtEnd(last);
      }
    }
  }

  lemma {:induction false} NoNewlineAtEnd(s: seq<Byte>)
    requires s != [] && Newlines(s) == 0
    ensures Unfinished(s)
    decreases |s|
  {
    if |s| > 1 {
      NoNewlineAtEnd(s[1..]);
    }
  }

  /** Behind the next newline, or one behind the end. */
  method NextLine(buf: seq<Byte>, from: nat) returns (bp: nat)
    requires from <= |buf|
    ensures from < bp <= |buf| + 1
    ensures bp <= |buf| ==> Newlines(buf[from..bp]) == 1 && buf[bp - 1] == NL
    ensures bp > |buf| ==> Newlines(buf[from..]) == 0
  {
    bp := from;
    while bp < |buf| && buf[bp] != NL
      invariant from <= bp <= |buf| && Newlines(buf[from..bp]) == 0
    {
      OneByteMore(buf, from, bp);
      bp := bp + 1;
    }
    if bp < |buf| {
      OneByteMore(buf, from, bp);
    } else {
      assert buf[from..bp] == buf[from..];
    }
    bp := bp + 1;
  }

  lemma OneByteMore(buf: seq<Byte>, from: nat, to: nat)
    requires from <= to < |buf|
    ensures Newlines(buf[from..to + 1]) == Newlines(buf[from..to]) + if buf[to] == NL then 1 else 0
  {
    NewlinesAppend(buf[from..to], [buf[to]]);
    assert buf[from..to + 1] == buf[from..to] + [buf[to]];
  }

  lemma LinesOnward(buf: seq<Byte>, i: nat, j: nat, k: nat)
    requires i <= j <= k <= |buf|
    ensures Newlines(buf[i..k]) == Newlines(buf[i..j]) + Newlines(buf[j..k])
    ensures k == |buf| ==> buf[i..k] == buf[i..] && buf[j..k] == buf[j..]
  {
    NewlinesAppend(buf[i..j], buf[j..k]);
    assert buf[i..k] == buf[i..j] + buf[j..k];
  }

  /** Writes one buffer; count is the lines of the last piece with those found since. */
  method WriteLinesOf(out: Output, buf: seq<Byte>, n: nat, newFile0: bool, count0: nat, ghost done: seq<Byte>)
    returns (newFile: bool, count: nat)
    requires out.Valid() && ByLines(done, out.files, n, newFile0, count0) && count0 < n
    modifies out, out.namer
    ensures out.Valid() && ByLines(done + buf, out.files, n, newFile, count) && count < n
  {
    newFile, count := newFile0, count0;
    var bp: nat, bpOut: nat := 0, 0;
    ghost var base: nat := count0;
    assert done + buf[..0] == done && buf[0..0] == [];
    while true
      invariant bpOut <= bp <= |buf| && out.Valid() && ByLines(done + buf[..bpOut], out.files, n, newFile, base)
      invariant count == base + Newlines(buf[bpOut..bp]) && count < n
      decreases |buf| - bp
    {
      hide ByLines, Output.Valid, Written, Newlines;
      var next := NextLine(buf, bp);
      if next > |buf| {
        LinesOnward(buf, bpOut, bp, |buf|);
        if |buf| != bpOut {
          WriteStretch(out, buf, bpOut, |buf|, n, newFile, base, done);
          newFile := false;
        } else {
          assert buf[..bpOut] == buf;
        }
        break;
      }
      LinesOnward(buf, bpOut, bp, next);
      bp := next;
      count := count + 1;
      if count >= n {
        WriteStretch(out, buf, bpOut, bp, n, newFile, base, done);
        bpOut := bp;
        newFile, count, base := true, 0, 0;
        NoLinesYet(buf, bp);
      }
    }
  }

  method WriteStretch(out: Output, buf: seq<Byte>, from: nat, to: nat, n: nat, newFile: bool, ghost base: nat, ghost done: seq<Byte>)
    requires from < to <= |buf| && out.Valid() && ByLines(done + buf[..from], out.files, n, newFile, base)
    modifies out, out.namer
    ensures out.Valid() && (to == |buf| ==> done + buf[..to] == done + buf)
    ensures base + Newlines(buf[from..to]) == n && buf[to - 1] == NL ==> ByLines(done + buf[..to], out.files, n, true, 0)
    ensures base + Newlines(buf[from..to]) < n ==> ByLines(done + buf[..to], out.files, n, false, base + Newlines(buf[from..to]))
  {
    hide ByLines, Output.Valid, Written, Newlines;
    WriteLines(done + buf[..from], out.files, n, newFile, base, buf[from..to]);
    Onward(done, buf, from, to);
    out.CWrite(newFile, buf[from..to]);
  }

  lemma NoLinesYet(buf: seq<Byte>, bp: nat)
    requires bp <= |buf|
    ensures Newlines(buf[bp..bp]) == 0
  {
  }

  /** The pieces together are the input, and all but the last have nlines lines. */
  method LinesSplit(input: Stream, nlines: nat, bufsize: nat) returns (out: Output)
    requires nlines > 0 && bufsize > 0
    modifies input
    ensures out.Valid() && InLines(old(input.rest), out.files, nlines)
  {
    out := new Output();
    ghost var s, done: seq<Byte> := input.rest, [];
    var newFile, n: nat := true, 0;
    assert ByLines(done, out.files, nlines, newFile, n);
    var more := true;
    while more
      invariant out.Valid() && fresh(out) && fresh(out.namer) && s == done + input.rest
      invariant ByLines(done, out.files, nlines, newFile, n) && n < nlines
      invariant !more ==> input.rest == []
      decreases |input.rest|, more
    {
      hide ByLines, Output.Valid;
      var buf := StdRead(input, bufsize);
      newFile, n := WriteLinesOf(out, buf, nlines, newFile, n, done);
      assert done + (buf + input.rest) == (done + buf) + input.rest;
      done := done + buf;
      more := |buf| == bufsize;
    }
    assert done == s;
    LinesDone(done, out.files, nlines, newFile, n);
  }

  // ---------------------------------------------------------------- whole lines of bytes

  /** Behind the last newline among the first n bytes, or all of them if there is none. */
  ghost predicate CutAt(s: seq<Byte>, n: nat, k: nat) {
    && 0 < k <= n <= |s|
    && (k < n ==> s[k - 1] == NL)
    && (s[k - 1] == NL ==> forall i :: k <= i < n ==> s[i] != NL)
    && (s[k - 1] != NL ==> k == n && forall i :: 0 <= i < n ==> s[i] != NL)
  }

  /** As large pieces as possible; the last is what is left, which may be nothing. */
  ghost predicate InLineBytes(s: seq<Byte>, files: seq<seq<Byte>>, n: nat)
    decreases |files|
  {
    if |s| < n then files == [s]
    else files != [] && CutAt(s, n, |files[0]|) && files[0] <= s && InLineBytes(s[|files[0]|..], files[1..], n)
  }

  lemma {:induction false} LineBytesConserve(s: seq<Byte>, files: seq<seq<Byte>>, n: nat)
    requires InLineBytes(s, files, n)
    ensures Concat(files) == s && forall k :: 0 <= k < |files| ==> |files[k]| <= n
    ensures forall k :: 0 <= k < |files| - 1 ==> |files[k]| == n || !Unfinished(files[k])
    decreases |files|
  {
    if |s| >= n {
      LineBytesConserve(s[|files[0]|..], files[1..], n);
      assert s == files[0] + s[|files[0]|..];
    } else {
      ConcatLast([], s);
      assert [] + [s] == files;
    }
  }

  /** The pieces so far are cut off s, and rest is what is left of it. */
  ghost predicate CutOff(s: seq<Byte>, files: seq<seq<Byte>>, rest: seq<Byte>, n: nat)
    decreases |files|
  {
    if files == [] then s == rest
    else |s| >= n && CutAt(s, n, |files[0]|) && files[0] <= s && CutOff(s[|files[0]|..], files[1..], rest, n)
  }

  lemma {:induction false} CutOffMore(s: seq<Byte>, files: seq<seq<Byte>>, rest: seq<Byte>, n: nat, k: nat)
    requires CutOff(s, files, rest, n) && |rest| >= n && CutAt(rest, n, k)
    ensures CutOff(s, files + [rest[..k]], rest[k..], n)
    decreases |files|
  {
    var r := files + [rest[..k]];
    if files == [] {
      assert r[1..] == [];
    } else {
      CutOffMore(s[|files[0]|..], files[1..], rest, n, k);
      assert r[1..] == files[1..] + [rest[..k]];
    }
  }

  lemma {:induction false} CutOffLast(s: seq<Byte>, files: seq<seq<Byte>>, rest: seq<Byte>, n: nat)
    requires CutOff(s, files, rest, n) && |rest| < n
    ensures InLineBytes(s, files + [rest], n)
    decreases |files|
  {
    if files != [] {
      CutOffLast(s[|files[0]|..], files[1..], rest, n);
      assert (files + [rest])[1..] == files[1..] + [rest];
    }
  }

  /** Where to cut a buffer: behind its last newline when it is full and has one. */
  method FindCut(buf: seq<Byte>, nchars: nat) returns (bp: nat)
    requires |buf| <= nchars && nchars > 0
    ensures |buf| < nchars ==> bp == |buf|
    ensures |buf| == nchars ==> CutAt(buf, nchars, bp)
  {
    bp := |buf|;
    if |buf| == nchars {
      while bp > 0 && buf[bp - 1] != NL
        invariant 0 <= bp <= |buf|
        invariant forall i :: bp <= i < |buf| ==> buf[i] != NL
      {
        bp := bp - 1;
      }
    }
    if bp == 0 {
      bp := |buf|;
    }
  }

  /** The pieces are as large as possible and end in a newline where they can; when the
      input is used up exactly, an empty last piece follows. */
  method LineBytesSplit(input: Stream, nchars: nat) returns (out: Output)
    requires nchars > 0
    modifies input
    ensures out.Valid() && InLineBytes(old(input.rest), out.files, nchars)
  {
    out := new Output();
    ghost var s := input.rest;
    var buf: seq<Byte>, eof := [], false;
    assert buf + input.rest == s;
    while !eof
      invariant out.Valid() && fresh(out) && fresh(out.namer)
      invariant !eof ==> CutOff(s, out.files, buf + input.rest, nchars) && |buf| < nchars
      invariant eof ==> InLineBytes(s, out.files, nchars)
      decreases !eof, |buf| + |input.rest|
    {
      hide Output.Valid, CutOff, InLineBytes, CutAt;
      ghost var rest := buf + input.rest;
      var more := StdRead(input, nchars - |buf|);
      assert buf + (more + input.rest) == (buf + more) + input.rest;
      buf := buf + more;
      if |buf| != nchars {
        eof := true;
      }
      var bp := FindCut(buf, nchars);
      if eof {
        assert rest == buf && buf[..bp] == buf;
        CutOffLast(s, out.files, rest, nchars);
      } else {
        CutInRest(buf, input.rest, nchars, bp);
        CutOffMore(s, out.files, rest, nchars, bp);
      }
      out.CWrite(true, buf[..bp]);
      buf := buf[bp..];
    }
  }

  lemma CutInRest(buf: seq<Byte>, rest: seq<Byte>, n: nat, bp: nat)
    requires |buf| == n && CutAt(buf, n, bp)
    ensures 0 < bp <= n && CutAt(buf + rest, n, bp)
    ensures (buf + rest)[..bp] == buf[..bp] && (buf + rest)[bp..] == buf[bp..] + rest
  {
  }

  // ---------------------------------------------------------------- each way gives one result

  /** The first of the pieces, and those behind it. */
  lemma FirstPiece<T>(s: seq<T>, parts: seq<seq<T>>)
    requires Concat(parts) == s && parts != []
    ensures |parts[0]| <= |s| && s[..|parts[0]|] == parts[0] && s[|parts[0]|..] == Concat(parts[1..])
  {
  }

  lemma SomePieces(s: seq<Byte>, files: seq<seq<Byte>>, n: nat)
    requires n > 0 && InBytes(s, files, n)
    ensures s == [] <==> files == []
    ensures files != [] ==> |files[0]| == (if |s| < n then |s| else n) && InBytes(s[|files[0]|..], files[1..], n)
    ensures files != [] ==> |files[0]| <= |s| && files[0] == s[..|files[0]|]
  {
    if files != [] {
      FirstPiece(s, files);
      if |files| == 1 {
        assert files[1..] == [];
      } else {
        assert files[1..][|files| - 2] == files[|files| - 1];
        FirstPiece(s[|files[0]|..], files[1..]);
        assert |files[0]| == n;
      }
    }
  }

  /** There is only one way to cut a text into such pieces of bytes. */
  lemma {:induction false} BytesUnique(s: seq<Byte>, files1: seq<seq<Byte>>, files2: seq<seq<Byte>>, n: nat)
    requires n > 0 && InBytes(s, files1, n) && InBytes(s, files2, n)
    ensures files1 == files2
    decreases |files1|
  {
    hide InBytes;
    SomePieces(s, files1, n);
    SomePieces(s, files2, n);
    if files1 != [] {
      BytesUnique(s[|files1[0]|..], files1[1..], files2[1..], n);
      assert files1 == [files1[0]] + files1[1..] && files2 == [files2[0]] + files2[1..];
    }
  }

  lemma LinesBehind(s: seq<Byte>, files: seq<seq<Byte>>, n: nat)
    requires InLines(s, files, n)
    ensures s == [] <==> files == []
    ensures files != [] ==> |files[0]| <= |s| && files[0] == s[..|files[0]|] && InLines(s[|files[0]|..], files[1..], n)
    ensures |files| > 1 ==> Complete(files[0], n) && s[|files[0]|..] != []
    ensures |files| == 1 ==> files[0] == s && 0 < LineCount(s) <= n
  {
    if files != [] {
      FirstPiece(s, files);
      if |files| == 1 {
        assert files[1..] == [] && Concat(files[1..]) == [];
      } else {
        assert files[1..][|files| - 2] == files[|files| - 1];
        LastPieceSome(files[1..]);
      }
    }
  }

  lemma {:induction false} LastPieceSome(files: seq<seq<Byte>>)
    requires files != [] && LineCount(files[|files| - 1]) > 0
    ensures Concat(files) != []
    decreases |files|
  {
    if |files| > 1 {
      assert files[1..][|files| - 2] == files[|files| - 1];
      LastPieceSome(files[1..]);
    }
  }

  /** More of a text has no fewer newlines, and more if it ends in one. */
  lemma NewlinesWithin(s: seq<Byte>, i: nat, j: nat)
    requires i <= j <= |s|
    ensures Newlines(s[..i]) <= Newlines(s[..j])
    ensures i < j && s[j - 1] == NL ==> Newlines(s[..i]) < Newlines(s[..j])
    ensures i < j == |s| && Unfinished(s) ==> LineCount(s) > Newlines(s[..i])
  {
    assert s[..j] == s[..i] + s[i..j];
    NewlinesAppend(s[..i], s[i..j]);
    if i < j && s[j - 1] == NL {
      assert s[i..j] == s[i..j - 1] + [NL];
      NewlinesAppend(s[i..j - 1], [NL]);
    }
    assert s[..|s|] == s;
  }

  /** There is only one way to cut a text into such pieces of lines. */
  lemma {:induction false} LinesUnique(s: seq<Byte>, files1: seq<seq<Byte>>, files2: seq<seq<Byte>>, n: nat)
    requires InLines(s, files1, n) && InLines(s, files2, n)
    ensures files1 == files2
    decreases |files1|
  {
    hide InLines, Newlines;
    LinesBehind(s, files1, n);
    LinesBehind(s, files2, n);
    if files1 != [] {
      var i, j := |files1[0]|, |files2[0]|;
      if i < j {
        SameFirst(s, files1, files2, n);
      } else if j < i {
        SameFirst(s, files2, files1, n);
      } else {
        LinesUnique(s[i..], files1[1..], files2[1..], n);
        assert files1 == [files1[0]] + files1[1..] && files2 == [files2[0]] + files2[1..];
      }
    }
  }

  lemma SameFirst(s: seq<Byte>, files1: seq<seq<Byte>>, files2: seq<seq<Byte>>, n: nat)
    requires InLines(s, files1, n) && InLines(s, files2, n) && files1 != [] && files2 != []
    ensures |files1[0]| >= |files2[0]|
  {
    hide InLines, Newlines;
    LinesBehind(s, files1, n);
    LinesBehind(s, files2, n);
    var i, j := |files1[0]|, |files2[0]|;
    assert files1[0] == s[..i] && files2[0] == s[..j] && s[..|s|] == s;
    if i < j {
      NewlinesWithin(s, i, j);
    }
  }

  lemma CutUnique(s: seq<Byte>, n: nat, k: nat, l: nat)
    requires CutAt(s, n, k) && CutAt(s, n, l)
    ensures k == l
  {
    var x, y := s[k - 1], s[l - 1];
  }

  /** There is only one way to cut a text into pieces of whole lines of so many bytes. */
  lemma {:induction false} LineBytesUnique(s: seq<Byte>, files1: seq<seq<Byte>>, files2: seq<seq<Byte>>, n: nat)
    requires InLineBytes(s, files1, n) && InLineBytes(s, files2, n)
    ensures files1 == files2
    decreases |files1|
  {
    hide CutAt;
    if |s| >= n {
      CutUnique(s, n, |files1[0]|, |files2[0]|);
      assert files1[0] == s[..|files1[0]|] && files2[0] == s[..|files2[0]|];
      LineBytesUnique(s[|files1[0]|..], files1[1..], files2[1..], n);
      assert files1 == [files1[0]] + files1[1..] && files2 == [files2[0]] + files2[1..];
    }
  }
}
