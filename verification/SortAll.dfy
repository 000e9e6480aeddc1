/** sort of gnu/src/sort.c: files are read a buffer at a time, each buffer of lines is
    sorted and written to a temporary file, and the temporary files are merged. */
module SortAll {
  import opened Concatenation
  import opened SortOrder
  import opened SortLines
  import opened SortNumber
  import opened SortBuffer
  import opened SortMerge
  import opened SortPasses
  import opened SortText

  /** The lines of all files. */
  function AllLines(files: seq<Text>): seq<Text> {
    if files == [] then [] else Lines(files[0]) + AllLines(files[1..])
  }

  function Reversed<T>(s: seq<T>): (r: seq<T>)
    ensures |r| == |s|
    ensures forall k :: 0 <= k < |s| ==> r[k] == s[|s| - 1 - k]
  {
    if s == [] then [] else Reversed(s[1..]) + [s[0]]
  }

  /** out consists of stretches of s of limit lines, each sorted by itself. */
  ghost predicate InRuns(s: seq<Text>, out: seq<Text>, limit: nat, cmp: Comparator<Text>)
    requires limit > 0
    decreases |s|
  {
    && |s| == |out|
    && if |s| <= limit then StableSort(s, out, cmp)
       else StableSort(s[..limit], out[..limit], cmp) && InRuns(s[limit..], out[limit..], limit, cmp)
  }

  /** No line belongs before one that stands in an earlier stretch of limit lines. */
  ghost predicate StretchesInOrder(s: seq<Text>, limit: nat, cmp: Comparator<Text>)
    requires limit > 0
    decreases |s|
  {
    |s| <= limit || (NoneBehind(s[..limit], s[limit..], cmp) && StretchesInOrder(s[limit..], limit, cmp))
  }

  /** One more run behind full ones. */
  lemma {:induction false} OneMoreRun(s: seq<Text>, out: seq<Text>, table: seq<Text>, run: seq<Text>, limit: nat, cmp: Comparator<Text>)
    requires TotalPreorder(cmp) && limit > 0 && FullRuns(|s|, limit) && |table| <= limit
    requires InRuns(s, out, limit, cmp) && StableSort(table, run, cmp)
    ensures InRuns(s + table, out + run, limit, cmp)
    decreases |s|
  {
    SameSize(table, run, cmp);
    if s == [] {
      assert s + table == table && out + run == run;
    } else {
      if |s| == limit {
        assert s[..limit] == s && out[..limit] == out;
        if table == [] {
          assert s + table == s && out + run == out;
        } else {
          assert (s + table)[..limit] == s && (s + table)[limit..] == table;
          assert (out + run)[..limit] == out && (out + run)[limit..] == run;
        }
      } else {
        OneMoreRun(s[limit..], out[limit..], table, run, limit, cmp);
        assert (s + table)[..limit] == s[..limit] && (s + table)[limit..] == s[limit..] + table;
        assert (out + run)[..limit] == out[..limit] && (out + run)[limit..] == out[limit..] + run;
      }
    }
  }

  lemma SameSize(s: seq<Text>, out: seq<Text>, cmp: Comparator<Text>)
    requires TotalPreorder(cmp) && SameEverywhere(s, out, cmp)
    ensures |s| == |out|
  {
    StableSortPermutes(s, out, cmp);
    assert |multiset(s)| == |s| && |multiset(out)| == |out|;
  }

  /** So many lines make up full runs. */
  predicate FullRuns(n: nat, limit: nat)
    requires limit > 0
  {
    n == 0 || (n >= limit && FullRuns(n - limit, limit))
  }

  lemma {:induction false} OneMoreFull(n: nat, limit: nat)
    requires limit > 0 && FullRuns(n, limit)
    ensures FullRuns(n + limit, limit)
    decreases n
  {
    if n > 0 {
      OneMoreFull(n - limit, limit);
    }
  }

  lemma {:induction false} RunsKeepLines(s: seq<Text>, out: seq<Text>, limit: nat, cmp: Comparator<Text>)
    requires TotalPreorder(cmp) && limit > 0 && InRuns(s, out, limit, cmp)
    ensures SameEverywhere(s, out, cmp)
    decreases |s|
  {
    if |s| > limit {
      RunsKeepLines(s[limit..], out[limit..], limit, cmp);
      SameConcat(s[..limit], out[..limit], s[limit..], out[limit..], cmp);
      assert s[..limit] + s[limit..] == s && out[..limit] + out[limit..] == out;
    }
  }

  lemma SameMembers(s: seq<Text>, out: seq<Text>, cmp: Comparator<Text>)
    requires TotalPreorder(cmp) && SameEverywhere(s, out, cmp)
    ensures forall x :: x in s <==> x in out
  {
    StableSortPermutes(s, out, cmp);
    forall x ensures x in s <==> x in out {
      assert (x in s <==> x in multiset(s)) && (x in out <==> x in multiset(out));
    }
  }

  /** No line of a belongs behind one of b. */
  ghost predicate NoneBehind(a: seq<Text>, b: seq<Text>, cmp: Comparator<Text>) {
    forall x, y :: x in a && y in b ==> cmp(x, y) <= 0
  }

  lemma SortedConcat(a: seq<Text>, b: seq<Text>, cmp: Comparator<Text>)
    requires Sorted(a, cmp)
    ensures Sorted(a + b, cmp) <==> NoneBehind(a, b, cmp) && Sorted(b, cmp)
  {
    var out := a + b;
    if Sorted(out, cmp) {
      forall x, y | x in a && y in b ensures cmp(x, y) <= 0 {
        var i :| 0 <= i < |a| && a[i] == x;
        var j :| 0 <= j < |b| && b[j] == y;
        assert out[i] == x && out[|a| + j] == y;
      }
      forall i, j | 0 <= i < j < |b| ensures cmp(b[i], b[j]) <= 0 {
        assert b[i] == out[|a| + i] && b[j] == out[|a| + j];
      }
    }
  }

  /** A sorted run in front of others. */
  lemma SortedParts(s1: seq<Text>, s2: seq<Text>, o1: seq<Text>, o2: seq<Text>, cmp: Comparator<Text>)
    requires TotalPreorder(cmp) && StableSort(s1, o1, cmp) && SameEverywhere(s2, o2, cmp)
    ensures Sorted(o1 + o2, cmp) <==> NoneBehind(s1, s2, cmp) && Sorted(o2, cmp)
  {
    hide SameEverywhere, Sorted, TotalPreorder;
    SameMembers(s1, o1, cmp);
    SameMembers(s2, o2, cmp);
    SortedConcat(o1, o2, cmp);
  }

  /** Lines sorted run by run are sorted exactly when the stretches were in order. */
  lemma {:induction false} RunsAreSorted(s: seq<Text>, out: seq<Text>, limit: nat, cmp: Comparator<Text>)
    requires TotalPreorder(cmp) && limit > 0 && InRuns(s, out, limit, cmp)
    ensures StableSort(s, out, cmp) <==> StretchesInOrder(s, limit, cmp)
    decreases |s|
  {
    hide Sorted, SameEverywhere, NoneBehind;
    RunsKeepLines(s, out, limit, cmp);
    if |s| > limit {
      var s1, s2, o1, o2 := s[..limit], s[limit..], out[..limit], out[limit..];
      RunsKeepLines(s2, o2, limit, cmp);
      RunsAreSorted(s2, o2, limit, cmp);
      SortedParts(s1, s2, o1, o2, cmp);
      assert out == o1 + o2;
    }
  }

  /** Whether all lines are in the last file, whose end is met when its first line is read:
      then no run goes to a temporary file. */
  predicate Straight(files: seq<Text>, size: nat)
    requires size > 0
  {
    && files != [] && files[|files| - 1] != [] && MeetsEnd(files[|files| - 1], size)
    && forall i :: 0 <= i < |files| - 1 ==> files[i] == []
  }

  /** What has been done with the lines read so far: sorted pieces of them are in the
      temporary files, listed newest first, or have gone straight out, one after the other. */
  ghost predicate Runs(done: seq<Text>, o: Output, limit: nat, cmp: Comparator<Text>)
    requires limit > 0
  {
    && (o.out == [] ==> AllSorted(o.temps, cmp) && SameEverywhere(done, Concat(Reversed(o.temps)), cmp))
    && (o.out != [] ==> o.temps == [] && InRuns(done, o.out, limit, cmp))
  }

  lemma RunToTemp(done: seq<Text>, temps: seq<seq<Text>>, table: seq<Text>, run: seq<Text>, limit: nat, cmp: Comparator<Text>)
    requires limit > 0 && Runs(done, Output(temps, []), limit, cmp) && StableSort(table, run, cmp)
    ensures Runs(done + table, Output([run] + temps, []), limit, cmp)
  {
    assert Reversed([run] + temps) == Reversed(temps) + [run];
    ConcatAppend(Reversed(temps), [run]);
    assert Concat([run]) == run;
    SameConcat(done, Concat(Reversed(temps)), table, run, cmp);
  }

  lemma RunStraightOut(done: seq<Text>, out: seq<Text>, table: seq<Text>, run: seq<Text>, limit: nat, cmp: Comparator<Text>)
    requires TotalPreorder(cmp) && limit > 0 && Runs(done, Output([], out), limit, cmp) && StableSort(table, run, cmp)
    requires table != [] && |table| <= limit && (out != [] ==> FullRuns(|done|, limit))
    ensures run != [] && Runs(done + table, Output([], out + run), limit, cmp)
  {
    SameSize(table, run, cmp);
    if out == [] {
      assert Concat(Reversed<seq<Text>>([])) == [];
      SameSize(done, [], cmp);
      assert done + table == table && out + run == run;
    } else {
      OneMoreRun(done, out, table, run, limit, cmp);
    }
  }

  /** Sorts the table in place, as sortlines does, with scratch space of its size. */
  method SortTable(table: seq<Text>, cmp: Comparator<Text>) returns (run: seq<Text>)
    requires TotalPreorder(cmp)
    ensures StableSort(table, run, cmp)
  {
    var lines, tmp := new Text[|table|], new Text[|table|];
    var i := 0;
    while i < |table|
      invariant 0 <= i <= |table| && lines[..i] == table[..i]
    {
      lines[i] := table[i];
      i := i + 1;
    }
    assert lines[0..0 + |table|] == table;
    SortLines.SortLines(lines, 0, |table|, tmp, cmp);
    run := lines[0..|table|];
  }

  /** What sort has written so far: the temporary files, and the output. */
  datatype Output = Output(temps: seq<seq<Text>>, out: seq<Text>)

  /** One sorted table goes to a new temporary file, or straight out if it ends the last
      file and nothing is in temporary files. */
  method WriteRun(table: seq<Text>, ends: bool, o: Output, ghost done: seq<Text>, limit: nat, cmp: Comparator<Text>) returns (o': Output)
    requires TotalPreorder(cmp) && limit > 0 && Runs(done, o, limit, cmp) && table != [] && |table| <= limit
    requires o.out != [] ==> ends && FullRuns(|done|, limit)
    ensures Runs(done + table, o', limit, cmp)
    ensures o'.out != [] <==> ends && o.temps == []
    ensures o'.temps == [] <==> ends && o.temps == []
  {
    var run := SortTable(table, cmp);
    if ends && o.temps == [] {
      o' := o.(out := o.out + run);
      RunStraightOut(done, o.out, table, run, limit, cmp);
    } else {
      o' := o.(temps := [run] + o.temps);
      RunToTemp(done, o.temps, table, run, limit, cmp);
    }
  }

  /** Reads, sorts and writes one file. */
  method SortFile(buf: Buffer, content: Text, last: bool, limit: nat, o: Output, ghost done: seq<Text>, cmp: Comparator<Text>)
    returns (o': Output)
    requires TotalPreorder(cmp) && limit > 0 && buf.Valid() && buf.left == 0
    requires Runs(done, o, limit, cmp) && o.out == []
    modifies buf
    ensures buf.Valid() && buf.left == 0
    ensures Runs(done + Lines(content), o', limit, cmp)
    ensures content == [] ==> o' == o && buf.alloc == old(buf.alloc)
    ensures o'.out != [] <==> last && o.temps == [] && content != [] && MeetsEnd(content, old(buf.alloc))
    ensures o'.temps == [] <==> o.temps == [] && (content == [] || o'.out != [])
  {
    hide Runs, MeetsEnd;
    var fp := new Input(content);
    assert buf.Left() + fp.rest == content;
    var table := NextTable(buf, fp, limit);
    if table == [] {
      assert done + Lines(content) == done;
      return o;
    }
    if last && o.temps == [] {
      NothingDone(done, o, limit, cmp);
    }
    o' := SortTables(buf, fp, table, last, limit, o, done, cmp);
  }

  /** The first table and all others of a file. */
  method SortTables(buf: Buffer, fp: Input, table0: seq<Text>, last: bool, limit: nat, o: Output, ghost done: seq<Text>, cmp: Comparator<Text>)
    returns (o': Output)
    requires TotalPreorder(cmp) && limit > 0 && buf.Valid() && fp.Valid()
    requires Runs(done, o, limit, cmp) && o.out == [] && (last && o.temps == [] ==> done == [])
    requires table0 != [] && |table0| <= limit
    requires fp.eof && |table0| < limit ==> buf.left == 0 && Lines(buf.Left() + fp.rest) == []
    modifies buf, fp
    ensures buf.Valid() && buf.left == 0
    ensures Runs(done + old(table0 + Lines(buf.Left() + fp.rest)), o', limit, cmp)
    ensures o'.out != [] <==> last && o.temps == [] && old(fp.eof)
    ensures o'.temps == [] <==> o'.out != []
  {
    hide Runs, MeetsEnd, Lines, FullRuns, Buffer.Valid;
    var table, early := table0, fp.eof;
    o' := WriteRun(table, early && last, o, done, limit, cmp);
    ghost var got, pending := done + table, Lines(buf.Left() + fp.rest);
    assert done + (table + pending) == got + pending;
    FirstRunFull(|done|, |table|, limit);
    table := NextTable(buf, fp, limit);
    while table != []
      invariant buf.Valid() && fp.Valid()
      invariant pending == table + Lines(buf.Left() + fp.rest)
      invariant done + old(table0 + Lines(buf.Left() + fp.rest)) == got + pending
      invariant |table| <= limit && (early ==> fp.eof)
      invariant table == [] || (fp.eof && |table| < limit) ==> buf.left == 0 && pending == table
      invariant Runs(got, o', limit, cmp)
      invariant o'.out != [] <==> last && o.temps == [] && early
      invariant o'.temps == [] <==> o'.out != []
      invariant o'.out != [] && table != [] ==> FullRuns(|got|, limit)
      decreases |pending|
    {
      hide Runs, MeetsEnd, Lines, FullRuns, Buffer.Valid;
      o' := WriteRun(table, fp.eof && last, o', got, limit, cmp);
      assert got + (table + Lines(buf.Left() + fp.rest)) == (got + table) + Lines(buf.Left() + fp.rest);
      if |table| == limit && FullRuns(|got|, limit) {
        OneMoreFull(|got|, limit);
      }
      got := got + table;
      pending := Lines(buf.Left() + fp.rest);
      table := NextTable(buf, fp, limit);
    }
    assert got + [] == got;
  }

  lemma FirstRunFull(n: nat, m: nat, limit: nat)
    requires limit > 0
    ensures n == 0 && m == limit ==> FullRuns(n + m, limit)
  {
  }

  lemma NothingDone(done: seq<Text>, o: Output, limit: nat, cmp: Comparator<Text>)
    requires TotalPreorder(cmp) && limit > 0 && Runs(done, o, limit, cmp) && o.out == [] && o.temps == []
    ensures done == []
  {
    assert Concat(Reversed<seq<Text>>([])) == [];
    SameSize(done, [], cmp);
  }

  method MergeTemps(temps: seq<seq<Text>>, cmp: Comparator<Text>) returns (out: seq<Text>)
    requires TotalPreorder(cmp) && AllSorted(temps, cmp)
    ensures StableSort(Concat(Reversed(temps)), out, cmp)
  {
    var n := |temps|;
    var tempfiles := new seq<Text>[n];
    var i, node := n, 0;
    while i > 0
      invariant 0 <= i <= n && node == n - i
      invariant forall k :: i <= k < n ==> tempfiles[k] == temps[n - 1 - k]
    {
      i := i - 1;
      tempfiles[i] := temps[node];
      node := node + 1;
    }
    assert tempfiles[..n] == Reversed(temps);
    out := SortPasses.Merge(tempfiles, n, cmp);
  }

  /** Sorts any number of files; when no run goes to a temporary file, the runs are output
      one after the other, and only one of more than limit lines is not sorted as a whole. */
  method Sort(files: seq<Text>, size: nat, limit: nat, cmp: Comparator<Text>) returns (out: seq<Text>)
    requires TotalPreorder(cmp) && size > 0 && limit > 0
    ensures StableSort(AllLines(files), out, cmp)
       <==> !Straight(files, size) || StretchesInOrder(AllLines(files), limit, cmp)
    ensures Straight(files, size) ==> InRuns(AllLines(files), out, limit, cmp)
  {
    var buf := new Buffer(size);
    var o := Output([], []);
    var i := 0;
    ghost var done: seq<Text> := [];
    hide Runs, MeetsEnd, InRuns, StretchesInOrder, StableSort, TotalPreorder, Lines;
    while i < |files|
      invariant 0 <= i <= |files| && buf.Valid() && buf.left == 0 && fresh(buf)
      invariant Runs(done, o, limit, cmp) && AllLines(files) == done + AllLines(files[i..])
      invariant i < |files| ==> (o.temps == [] <==> forall k :: 0 <= k < i ==> files[k] == [])
      invariant i < |files| ==> o.out == [] && (o.temps == [] ==> buf.alloc == size)
      invariant i == |files| ==> (o.out != [] <==> Straight(files, size))
    {
      hide Runs, MeetsEnd, InRuns, StretchesInOrder, StableSort, TotalPreorder, Lines;
      o := SortFile(buf, files[i], i == |files| - 1, limit, o, done, cmp);
      done := done + Lines(files[i]);
      assert files[i..][1..] == files[i + 1..];
      i := i + 1;
    }
    assert done == AllLines(files);
    out := Finish(o, done, limit, cmp);
    if o.out != [] {
      RunsAreSorted(done, out, limit, cmp);
    }
  }

  method Finish(o: Output, ghost done: seq<Text>, limit: nat, cmp: Comparator<Text>) returns (out: seq<Text>)
    requires TotalPreorder(cmp) && limit > 0 && Runs(done, o, limit, cmp)
    ensures if o.out == [] then StableSort(done, out, cmp) else out == o.out && InRuns(done, out, limit, cmp)
  {
    out := o.out;
    if o.temps != [] {
      var merged := MergeTemps(o.temps, cmp);
      SameTransitive(done, Concat(Reversed(o.temps)), merged, cmp);
      assert [] + merged == merged;
      out := out + merged;
    }
  }

  /** A file of the lines "b" and "a" that is read at once is not sorted when only one line
      is sorted at a time. */
  lemma ShortLinesDefeatSorting(cmp: Comparator<Text>, out: seq<Text>)
    requires IsTextOrder(cmp, false, false) && InRuns(AllLines([[98, 10, 97, 10]]), out, 1, cmp)
    ensures Straight([[98, 10, 97, 10]], 100)
    ensures out == [[98], [97]] && !StableSort(AllLines([[98, 10, 97, 10]]), out, cmp)
  {
    TwoLines();
    var b: Text, a: Text := [98], [97];
    CommonIs(b, a, 0);
    assert cmp(b, a) == TextOrder(b, a, false) > 0;
    TextOrderIsTotal(cmp, false, false);
    TwoRuns(b, a, out, cmp);
  }

  lemma TwoRuns(b: Text, a: Text, out: seq<Text>, cmp: Comparator<Text>)
    requires TotalPreorder(cmp) && cmp(b, a) > 0 && InRuns([b, a], out, 1, cmp)
    ensures out == [b, a] && !StableSort([b, a], out, cmp)
  {
    hide TotalPreorder, SameEverywhere;
    assert [b, a][..1] == [b] && [b, a][1..] == [a];
    OneLineRun(b, out[..1], cmp);
    OneLineRun(a, out[1..], cmp);
    assert out[0] == b && out[1] == a;
  }

  lemma TwoLines()
    ensures AllLines([[98, 10, 97, 10]]) == [[98], [97]]
  {
    var file: Text := [98, 10, 97, 10];
    LinesAt(file, 0, 1);
    LinesAt(file, 2, 3);
    NoLinesAt(file, 4);
    assert file[0..1] == [98] && file[2..3] == [97];
  }

  lemma OneLineRun(line: Text, out: seq<Text>, cmp: Comparator<Text>)
    requires TotalPreorder(cmp) && StableSort([line], out, cmp)
    ensures out == [line]
  {
    StableSortPermutes([line], out, cmp);
    SameSize([line], out, cmp);
    assert out[0] in multiset(out);
  }
}
