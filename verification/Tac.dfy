/** tac of gnu/src/tac.c with a separator of one byte: the records of a file, last first,
    while the file is read backward through a buffer that grows with the records. */
module Tac {
  import opened Streams

  // ---------------------------------------------------------------- reversed records

  /** Where the first record ends when the separator ends records. */
  function EndOfRecord(s: seq<Byte>, sep: Byte): (e: nat)
    requires s != []
    ensures 0 < e <= |s|
    ensures forall k :: 0 <= k < e - 1 ==> s[k] != sep
    ensures e < |s| ==> s[e - 1] == sep
  {
    if s[0] == sep || |s| == 1 then 1 else 1 + EndOfRecord(s[1..], sep)
  }

  /** Where it ends when the separator begins the next one. */
  function StartOfNext(s: seq<Byte>, sep: Byte): (e: nat)
    requires s != []
    ensures 0 < e <= |s|
    ensures forall k :: 0 < k < e ==> s[k] != sep
    ensures e < |s| ==> s[e] == sep
  {
    if |s| == 1 || s[1] == sep then 1 else 1 + StartOfNext(s[1..], sep)
  }

  function FirstRecord(s: seq<Byte>, sep: Byte, ends: bool): (e: nat)
    requires s != []
    ensures 0 < e <= |s|
  {
    if ends then EndOfRecord(s, sep) else StartOfNext(s, sep)
  }

  /** The records, each with its separator, in reverse order. */
  function Reversed(s: seq<Byte>, sep: Byte, ends: bool): (r: seq<Byte>)
    ensures |r| == |s|
  {
    if s == [] then [] else
      var e := FirstRecord(s, sep, ends);
      Reversed(s[e..], sep, ends) + s[..e]
  }

  lemma FirstRecordIs(s: seq<Byte>, sep: Byte, ends: bool, e: nat)
    requires 0 < e <= |s|
    requires ends ==> (forall k :: 0 <= k < e - 1 ==> s[k] != sep) && (e < |s| ==> s[e - 1] == sep)
    requires !ends ==> (forall k :: 0 < k < e ==> s[k] != sep) && (e < |s| ==> s[e] == sep)
    ensures FirstRecord(s, sep, ends) == e
  {
    var m := FirstRecord(s, sep, ends);
    assert !(m < e) && !(e < m);
  }

  /** A record and what follows it. */
  lemma ReversedRecord(record: seq<Byte>, rest: seq<Byte>, sep: Byte)
    requires record != [] && (forall k :: 0 <= k < |record| - 1 ==> record[k] != sep)
    requires rest != [] ==> record[|record| - 1] == sep
    ensures Reversed(record + rest, sep, true) == Reversed(rest, sep, true) + record
  {
    hide EndOfRecord, StartOfNext;
    var s, e := record + rest, |record|;
    FirstRecordIs(s, sep, true, e);
    assert s[..e] == record && s[e..] == rest;
  }

  lemma SplitAt(s: seq<Byte>, e: nat)
    requires e <= |s|
    ensures s[..e] + s[e..] == s
    ensures e == |s| ==> s + [] == s
  {
  }

  lemma Regroup(a: seq<Byte>, b: seq<Byte>, c: seq<Byte>)
    ensures (a + b) + c == a + (b + c)
  {
  }

  /** What ends in a separator can be reversed by itself. */
  lemma {:induction false} ReversedAppend(a: seq<Byte>, b: seq<Byte>, sep: Byte)
    requires a != [] ==> a[|a| - 1] == sep
    ensures Reversed(a + b, sep, true) == Reversed(b, sep, true) + Reversed(a, sep, true)
    decreases |a|
  {
    hide EndOfRecord, StartOfNext;
    if a == [] {
      assert a + b == b;
    } else {
      hide Reversed;
      var e := EndOfRecord(a, sep);
      var record, rest := a[..e], a[e..];
      ReversedAppend(rest, b, sep);
      ReversedRecord(record, rest + b, sep);
      ReversedRecord(record, rest, sep);
      SplitAt(a, e);
      Regroup(record, rest, b);
      Regroup(Reversed(b, sep, true), Reversed(rest, sep, true), record);
    }
  }

  lemma {:induction false} ReversedEnds(s: seq<Byte>, sep: Byte)
    requires s != [] && s[|s| - 1] == sep
    ensures Reversed(s, sep, true)[|s| - 1] == sep
    decreases |s|
  {
    var e := EndOfRecord(s, sep);
    assert s[..e][e - 1] == sep;
  }

  /** On a text that ends in the separator, reversing twice gives the text back. */
  lemma {:induction false} ReversedTwice(s: seq<Byte>, sep: Byte)
    requires s != [] ==> s[|s| - 1] == sep
    ensures Reversed(Reversed(s, sep, true), sep, true) == s
    decreases |s|
  {
    if s != [] {
      hide Reversed, EndOfRecord;
      var e := EndOfRecord(s, sep);
      var record, rest := s[..e], s[e..];
      SplitAt(s, e);
      ReversedTwice(rest, sep);
      ReversedRecord(record, rest, sep);
      if rest != [] {
        ReversedEnds(rest, sep);
      }
      ReversedAppend(Reversed(rest, sep, true), record, sep);
      ReversedSingle(record, sep);
    }
  }

  lemma ReversedSingle(record: seq<Byte>, sep: Byte)
    requires record != [] && (forall k :: 0 <= k < |record| - 1 ==> record[k] != sep)
    ensures Reversed(record, sep, true) == record
  {
    SplitAt(record, |record|);
    ReversedRecord(record, [], sep);
  }

  // ---------------------------------------------------------------- a list of records

  function Together(records: seq<seq<Byte>>): seq<Byte> {
    if records == [] then [] else records[0] + Together(records[1..])
  }

  function Backwards(records: seq<seq<Byte>>): seq<Byte> {
    if records == [] then [] else Backwards(records[1..]) + records[0]
  }

  /** Separators stand at the ends of the records, or at their beginnings, and nowhere else;
      only what is last, or first, in the file may be without. */
  ghost predicate AreRecords(records: seq<seq<Byte>>, sep: Byte, ends: bool) {
    forall k :: 0 <= k < |records| ==>
      && records[k] != []
      && (if ends then (k < |records| - 1 ==> records[k][|records[k]| - 1] == sep) && NoneIn(records[k], 0, |records[k]| - 1, sep)
          else (k > 0 ==> records[k][0] == sep) && NoneIn(records[k], 1, |records[k]|, sep))
  }

  predicate NoneIn(s: seq<Byte>, from: nat, to: int, sep: Byte)
    requires to <= |s|
  {
    forall k :: from <= k < to ==> s[k] != sep
  }

  /** Reversing a text of records gives the last record first. */
  lemma {:induction false} ReversedRecords(records: seq<seq<Byte>>, sep: Byte, ends: bool)
    requires AreRecords(records, sep, ends)
    ensures Reversed(Together(records), sep, ends) == Backwards(records)
    decreases |records|
  {
    hide FirstRecord;
    if records != [] {
      var s, e, tail := Together(records), |records[0]|, records[1..];
      assert s[..e] == records[0] && s[e..] == Together(tail);
      assert records[0] != [] && forall k :: 0 <= k < e ==> s[k] == records[0][k];
      if tail != [] {
        assert tail[0] == records[1] && tail[0] != [];
        assert Together(tail)[0] == tail[0][0] && s[e] == Together(tail)[0];
      }
      FirstRecordIs(s, sep, ends, e);
      ReversedRecords(tail, sep, ends);
    }
  }

  // ---------------------------------------------------------------- positions in the file

  /** From p on everything is output; p is where a record begins. */
  ghost predicate Printed(file: seq<Byte>, p: nat, out: seq<Byte>, sep: Byte, ends: bool) {
    && p <= |file| && out == Reversed(file[p..], sep, ends)
    && (p < |file| ==> if ends then p > 0 && file[p - 1] == sep else file[p] == sep)
  }

  /** There is no separator from m on to the record's end at p, but for the one that ends it. */
  ghost predicate Searched(file: seq<Byte>, m: nat, p: nat, sep: Byte, ends: bool) {
    m <= p <= |file| && forall k :: m <= k < (if ends then p - 1 else p) ==> file[k] != sep
  }

  /** The record from b to p is output. */
  lemma PrintRecord(file: seq<Byte>, b: nat, p: nat, out: seq<Byte>, sep: Byte, ends: bool)
    requires Printed(file, p, out, sep, ends) && b < p
    requires ends ==> Searched(file, b, p, sep, true)
    requires !ends ==> Searched(file, b + 1, p, sep, false)
    ensures out + file[b..p] == Reversed(file[b..], sep, ends)
  {
    var s, e := file[b..], p - b;
    FirstRecordIs(s, sep, ends, e);
    assert s[..e] == file[b..p] && s[e..] == file[p..];
  }

  // ---------------------------------------------------------------- the buffer

  /** The buffer: place 0 holds the separator as a sentinel, and the data begin at place 1. */
  class Window {
    var buffer: array<Byte>
    var readSize: nat
    var filePos: nat
    var pastEnd: nat
    const file: seq<Byte>
    const sep: Byte

    ghost predicate Valid()
      reads this, buffer
    {
      && buffer.Length > 0 && buffer[0] == sep
      && pastEnd < buffer.Length && filePos + pastEnd <= |file|
      && (filePos > 0 ==> readSize > 0 && buffer.Length == 1 + 2 * readSize)
      && (forall k :: 1 <= k <= pastEnd ==> buffer[k] == file[filePos + (k - 1)])
    }

    /** Reads the last block, leaving a multiple of the read size. */
    constructor (content: seq<Byte>, size: nat, separator: Byte)
      requires content != [] && size > 0
      ensures Valid() && fresh(buffer) && file == content && sep == separator
      ensures filePos + pastEnd == |file| && pastEnd > 0
    {
      file, sep := content, separator;
      var block := |content| % size;
      if block == 0 {
        block := size;
      }
      BlockFits(|content|, size);
      readSize := size;
      filePos := |content| - block;
      pastEnd := block;
      buffer := new Byte[1 + 2 * size](_ => separator);
      new;
      ReadBlock(content, block);
    }

    method ReadBlock(content: seq<Byte>, n: nat)
      requires n < buffer.Length && filePos + n <= |content|
      modifies buffer
      ensures forall k :: 1 <= k <= n ==> buffer[k] == content[filePos + (k - 1)]
      ensures forall k :: n < k < buffer.Length ==> buffer[k] == old(buffer[k])
      ensures buffer[0] == old(buffer[0])
    {
      var k := 0;
      while k < n
        invariant 0 <= k <= n
        invariant forall i :: 1 <= i <= k ==> buffer[i] == content[filePos + (i - 1)]
        invariant forall i :: n < i < buffer.Length ==> buffer[i] == old(buffer[i])
        invariant buffer[0] == old(buffer[0])
      {
        buffer[1 + k] := content[filePos + k];
        k := k + 1;
      }
    }

    /** Backward from a place to the next separator, or to the sentinel. */
    method SearchBack(from: nat) returns (m: int)
      requires Valid() && from <= pastEnd
      ensures -1 <= m < from && (m >= 0 ==> file[filePos + m] == sep)
      ensures forall k :: filePos + m < k < filePos + from ==> file[k] != sep
    {
      m := from - 1;
      while buffer[1 + m] != sep
        invariant -1 <= m < from
        invariant forall k :: filePos + m < k < filePos + from ==> file[k] != sep
        decreases m
      {
        m := m - 1;
      }
    }

    /** Enlarges the buffer so that a block fits before a record longer than one. */
    method Enlarge()
      requires Valid() && filePos > 0
      modifies `buffer, `readSize
      ensures Valid() && (buffer == old(buffer) || fresh(buffer))
      ensures pastEnd <= readSize && readSize >= old(readSize)
    {
      if pastEnd > readSize {
        readSize := readSize * 2;
        buffer := Reallocated(buffer, 1 + 2 * readSize);
      }
    }

    /** Moves the data n places to the right. */
    method ShiftRight(n: nat)
      requires Valid() && pastEnd + n < buffer.Length
      modifies buffer
      ensures forall k :: n < k <= pastEnd + n ==> buffer[k] == old(buffer[k - n])
      ensures buffer[0] == old(buffer[0])
    {
      var k := pastEnd;
      while k > 0
        invariant 0 <= k <= pastEnd
        invariant forall i :: k + n < i <= pastEnd + n ==> buffer[i] == old(buffer[i - n])
        invariant forall i :: 0 <= i <= k ==> buffer[i] == old(buffer[i])
      {
        buffer[k + n] := buffer[k];
        k := k - 1;
      }
    }

    /** Reads the block before the data; these stay in the window, from start on. */
    method Refill() returns (start: nat)
      requires Valid() && filePos > 0
      modifies this, buffer
      ensures Valid() && (buffer == old(buffer) || fresh(buffer))
      ensures filePos < old(filePos) && filePos + pastEnd == old(filePos + pastEnd) && start == old(filePos) - filePos
    {
      Enlarge();
      start := readSize;
      var next := 0;
      if filePos >= readSize {
        next := filePos - readSize;
      } else {
        start := filePos;
      }
      ShiftRight(start);
      ReadBefore(start, next);
      if next == 0 {
        readSize := start;
      }
    }

    /** The data from a place on. */
    method Data(from: nat) returns (bytes: seq<Byte>)
      requires Valid() && from <= pastEnd
      ensures bytes == file[filePos + from..filePos + pastEnd]
    {
      bytes := buffer[1 + from..1 + pastEnd];
    }

    method GiveUp(from: nat)
      requires Valid() && from <= pastEnd
      modifies `pastEnd
      ensures Valid() && pastEnd == from
    {
      pastEnd := from;
    }

    method ReadBefore(n: nat, next: nat)
      requires filePos == next + n && pastEnd + n < buffer.Length && filePos + pastEnd <= |file| && buffer[0] == sep
      requires forall k :: n < k <= pastEnd + n ==> buffer[k] == file[filePos + (k - 1 - n)]
      modifies this`filePos, this`pastEnd, buffer
      ensures filePos == next && pastEnd == old(pastEnd) + n && buffer[0] == sep
      ensures forall k :: 1 <= k <= pastEnd ==> buffer[k] == file[filePos + (k - 1)]
    {
      filePos := next;
      ReadBlock(file, n);
      pastEnd := pastEnd + n;
    }
  }

  method Reallocated(buffer: array<Byte>, length: nat) returns (newBuffer: array<Byte>)
    requires length >= buffer.Length
    ensures fresh(newBuffer) && newBuffer.Length == length
    ensures forall i :: 0 <= i < buffer.Length ==> newBuffer[i] == buffer[i]
  {
    newBuffer := new Byte[length](_ => 0);
    var k := 0;
    while k < buffer.Length
      invariant 0 <= k <= buffer.Length
      invariant forall i :: 0 <= i < k ==> newBuffer[i] == buffer[i]
    {
      newBuffer[k] := buffer[k];
      k := k + 1;
    }
  }

  // ---------------------------------------------------------------- the loop

  /** How far the loop has come: the record before p is searched back to m. */
  ghost predicate Progress(file: seq<Byte>, m: nat, p: nat, out: seq<Byte>, sep: Byte, ends: bool, firstTime: bool) {
    && Printed(file, p, out, sep, ends) && Searched(file, m, p, sep, ends)
    && (ends ==> p > 0 && (m == p ==> firstTime))
    && (firstTime ==> out == [] && p == |file|)
  }

  lemma StartProgress(file: seq<Byte>, sep: Byte, ends: bool)
    requires file != []
    ensures Progress(file, |file|, |file|, [], sep, ends, true)
  {
    assert file[|file|..] == [];
  }

  /** A separator found at k ends the record before it or begins the one behind it. */
  lemma FoundSeparator(file: seq<Byte>, k: nat, m: nat, p: nat, p': nat, out: seq<Byte>, out': seq<Byte>,
                       sep: Byte, ends: bool, firstTime: bool)
    requires Progress(file, m, p, out, sep, ends, firstTime) && k < m && file[k] == sep
    requires forall i :: k < i < m ==> file[i] != sep
    requires p' == (if ends then k + 1 else k) && p' <= p
    requires out' == if !ends || !firstTime || p' != p then out + file[p'..p] else out
    ensures Progress(file, k, p', out', sep, ends, false)
  {
    hide Reversed;
    if p' < p {
      PrintRecord(file, p', p, out, sep, ends);
    }
  }

  lemma NoSeparator(file: seq<Byte>, from: nat, m: nat, p: nat, out: seq<Byte>, sep: Byte, ends: bool, firstTime: bool)
    requires Progress(file, m, p, out, sep, ends, firstTime) && from <= m && (ends ==> from < p)
    requires forall i :: from <= i < m ==> file[i] != sep
    ensures Progress(file, from, p, out, sep, ends, firstTime)
  {
  }

  lemma LastRecord(file: seq<Byte>, p: nat, out: seq<Byte>, sep: Byte, ends: bool, firstTime: bool)
    requires Progress(file, 0, p, out, sep, ends, firstTime)
    ensures out + file[0..p] == Reversed(file, sep, ends)
  {
    assert file[0..] == file;
    if p > 0 {
      PrintRecord(file, 0, p, out, sep, ends);
    }
  }

  /** Outputs the record behind a separator found at m, or from it on; an end of the file
      right behind the separator is no record. */
  method OutputRecord(w: Window, m: nat, matchStart: nat, out0: seq<Byte>, ends: bool, firstTime: bool) returns (out: seq<Byte>)
    requires w.Valid() && m < matchStart <= w.pastEnd && w.file[w.filePos + m] == w.sep
    requires forall k :: w.filePos + m < k < w.filePos + matchStart ==> w.file[k] != w.sep
    requires Progress(w.file, w.filePos + matchStart, w.filePos + w.pastEnd, out0, w.sep, ends, firstTime)
    modifies w`pastEnd
    ensures w.Valid() && m <= w.pastEnd && (ends ==> w.pastEnd > 0)
    ensures Progress(w.file, w.filePos + m, w.filePos + w.pastEnd, out, w.sep, ends, false)
  {
    hide Progress, Reversed;
    out := out0;
    var pastEnd: nat := if ends then m + 1 else m;
    if !ends || !firstTime || pastEnd != w.pastEnd {
      var record := w.Data(pastEnd);
      out := out + record;
    }
    FoundSeparator(w.file, w.filePos + m, w.filePos + matchStart, w.filePos + w.pastEnd, w.filePos + pastEnd, out0, out,
                   w.sep, ends, firstTime);
    w.GiveUp(pastEnd);
  }

  /** Outputs the record at the beginning of the file. */
  method OutputLast(w: Window, out0: seq<Byte>, ends: bool, firstTime: bool) returns (out: seq<Byte>)
    requires w.Valid() && w.filePos == 0 && Progress(w.file, 0, w.pastEnd, out0, w.sep, ends, firstTime)
    ensures out == Reversed(w.file, w.sep, ends)
  {
    hide Progress, Reversed;
    var record := w.Data(0);
    LastRecord(w.file, w.pastEnd, out0, w.sep, ends, firstTime);
    out := out0 + record;
  }

  /** Outputs the records of the file in reverse order, however long they are. */
  method TacFile(file: seq<Byte>, size: nat, sep: Byte, ends: bool) returns (out: seq<Byte>)
    requires size > 0
    ensures out == Reversed(file, sep, ends)
  {
    out := [];
    if |file| < 1 {
      return;
    }
    var w := new Window(file, size, sep);
    StartProgress(file, sep, ends);
    out := TacWindow(w, ends);
  }

  method TacWindow(w: Window, ends: bool) returns (out: seq<Byte>)
    requires w.Valid() && w.pastEnd > 0
    requires Progress(w.file, w.filePos + w.pastEnd, w.filePos + w.pastEnd, [], w.sep, ends, true)
    modifies w, w.buffer
    ensures out == Reversed(w.file, w.sep, ends)
  {
    hide Progress, Reversed, Window.Valid;
    out := [];
    var matchStart: nat, firstTime := w.pastEnd, true;
    while true
      invariant w.Valid() && (w.buffer == old(w.buffer) || fresh(w.buffer)) && matchStart <= w.pastEnd
      invariant Progress(w.file, w.filePos + matchStart, w.filePos + w.pastEnd, out, w.sep, ends, firstTime)
      invariant ends ==> w.pastEnd > 0
      decreases w.filePos, matchStart
    {
      hide Progress, Reversed, Window.Valid;
      var m := w.SearchBack(matchStart);
      if m < 0 {
        NoSeparator(w.file, w.filePos, w.filePos + matchStart, w.filePos + w.pastEnd, out, w.sep, ends, firstTime);
        if w.filePos == 0 {
          out := OutputLast(w, out, ends, firstTime);
          return;
        }
        matchStart := w.Refill();
      } else {
        out := OutputRecord(w, m, matchStart, out, ends, firstTime);
        firstTime := false;
        matchStart := m;
      }
    }
  }
}
