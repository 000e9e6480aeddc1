/** mergefps and merge of gnu/src/sort.c: merging any number of sorted files, NMERGE at a
    time, in as many passes as it takes. */
module SortPasses {
  import opened Concatenation
  import opened SortOrder
  import opened SortMerge
  import opened SortMergeFiles

  // ---------------------------------------------------------------- one merge

  lemma {:induction false} ConcatNextSize<T>(rests: seq<seq<T>>, m: nat)
    requires m < |rests| && rests[m] != []
    ensures |Concat(Next(rests, m))| == |Concat(rests)| - 1
    decreases m
  {
    if m == 0 {
      assert Next(rests, m)[1..] == rests[1..];
    } else {
      ConcatNextSize(rests[1..], m - 1);
      ConcatNext(rests, m);
    }
  }

  /** Taking the line that the permutation puts first is right. */
  lemma TakeFirstListed<T(!new)>(all: seq<T>, out: seq<T>, rests: seq<seq<T>>, ord: seq<nat>, cmp: Comparator<T>)
    requires TotalPreorder(cmp) && Open(rests, cmp) && Progress(all, out, rests, cmp) && rests != []
    requires Queue(Tops(rests), ord, cmp)
    ensures Open(AfterTaking(rests, ord[0]), cmp)
    ensures Progress(all, out + [rests[ord[0]][0]], AfterTaking(rests, ord[0]), cmp)
    ensures |Concat(AfterTaking(rests, ord[0]))| < |Concat(rests)|
  {
    var m := ord[0];
    forall i | 0 <= i < |rests| && i != m ensures Ahead(Tops(rests), m, i, cmp) {
      FirstIsLeast(Tops(rests), ord, i, cmp);
    }
    TakeLeast(all, out, rests, m, cmp);
    ConcatNextSize(rests, m);
    SortedTail(rests[m], cmp);
    if Next(rests, m)[m] == [] {
      ConcatWithout(Next(rests, m), m);
      UnderWithout(out + [rests[m][0]], Next(rests, m), m, cmp);
    }
  }

  lemma UnderWithout<T(!new)>(out: seq<T>, rests: seq<seq<T>>, m: nat, cmp: Comparator<T>)
    requires Under(out, rests, cmp) && m < |rests|
    ensures Under(out, Without(rests, m), cmp)
  {
    forall i, k {:trigger AllAbove(out[i], Without(rests, m)[k], cmp)} | 0 <= i < |out| && 0 <= k < |rests| - 1
      ensures AllAbove(out[i], Without(rests, m)[k], cmp)
    {
      assert AllAbove(out[i], rests[if k < m then k else k + 1], cmp);
    }
  }

  lemma StartProgress<T(!new)>(all: seq<T>, rests: seq<seq<T>>, cmp: Comparator<T>)
    requires Concat(rests) == all
    ensures Progress(all, [], rests, cmp)
  {
    assert [] + Concat(rests) == all;
  }

  /** Merges up to NMERGE sorted files, however their lines come in pieces. */
  method MergeFiles<T(!new)>(files: seq<File<T>>, cmp: Comparator<T>) returns (out: seq<T>)
    requires TotalPreorder(cmp) && |files| <= NMERGE
    requires forall k :: 0 <= k < |files| ==> Pieces(files[k])
    requires forall s :: s in Texts(files) ==> Sorted(s, cmp)
    ensures StableSort(Concat(Texts(files)), out, cmp)
  {
    var merger := new Merger(files);
    merger.SetUp(cmp);
    ghost var all := Concat(Texts(files));
    out := [];
    StartProgress(all, merger.Rest(), cmp);
    while merger.nfps > 0
      invariant merger.Valid() && merger.Ordered(cmp) && Open(merger.Rest(), cmp)
      invariant fresh(merger) && fresh(merger.fps) && fresh(merger.lines) && fresh(merger.cur) && fresh(merger.ord)
      invariant Progress(all, out, merger.Rest(), cmp)
      decreases |Concat(merger.Rest())|
    {
      TakeFirstListed(all, out, merger.Rest(), merger.ord[..merger.nfps], cmp);
      var line := merger.Advance(cmp);
      out := out + [line];
    }
    NothingLeft(all, out, cmp);
  }

  // ---------------------------------------------------------------- several passes

  /** Opens a file of the given lines; they may come in any pieces. */
  method OpenFile<T>(content: seq<T>) returns (file: File<T>)
    ensures Pieces(file) && Concat(file) == content
  {
    file := [];
    var todo := content;
    while todo != []
      invariant Pieces(file) && Concat(file) + todo == content
      decreases |todo|
    {
      var n: int := *;
      if n < 1 || n > |todo| {
        n := 1;
      }
      ConcatAppend(file, [todo[..n]]);
      assert Concat([todo[..n]]) == todo[..n];
      file := file + [todo[..n]];
      todo := todo[n..];
    }
  }

  ghost predicate AllSorted<T(!new)>(files: seq<seq<T>>, cmp: Comparator<T>) {
    forall k :: 0 <= k < |files| ==> Sorted(files[k], cmp)
  }

  lemma SameTransitive<T(!new)>(a: seq<T>, b: seq<T>, c: seq<T>, cmp: Comparator<T>)
    requires SameEverywhere(a, b, cmp) && SameEverywhere(b, c, cmp)
    ensures SameEverywhere(a, c, cmp)
  {
    forall x ensures Same(c, x, cmp) == Same(a, x, cmp) {
      assert Same(b, x, cmp) == Same(a, x, cmp);
    }
  }

  lemma SameConcat<T(!new)>(a: seq<T>, a': seq<T>, b: seq<T>, b': seq<T>, cmp: Comparator<T>)
    requires SameEverywhere(a, a', cmp) && SameEverywhere(b, b', cmp)
    ensures SameEverywhere(a + b, a' + b', cmp)
  {
    forall x ensures Same(a' + b', x, cmp) == Same(a + b, x, cmp) {
      SameAppend(a, b, x, cmp);
      SameAppend(a', b', x, cmp);
      assert Same(a', x, cmp) == Same(a, x, cmp) && Same(b', x, cmp) == Same(b, x, cmp);
    }
  }

  /** Merges the n files from first on. */
  method MergeGroup<T(!new)>(files: array<seq<T>>, first: nat, n: nat, cmp: Comparator<T>) returns (out: seq<T>)
    requires TotalPreorder(cmp) && n <= NMERGE && first + n <= files.Length
    requires AllSorted(files[first..first + n], cmp)
    ensures StableSort(Concat(files[first..first + n]), out, cmp)
  {
    var fps: seq<File<T>> := [];
    var j := 0;
    while j < n
      invariant 0 <= j <= n && |fps| == j
      invariant forall k :: 0 <= k < j ==> Pieces(fps[k])
      invariant Texts(fps) == files[first..first + j]
    {
      var file := OpenFile(files[first + j]);
      assert files[first..first + j + 1] == files[first..first + j] + [files[first + j]];
      fps := fps + [file];
      j := j + 1;
    }
    out := MergeFiles(fps, cmp);
  }

  /** One pass: what is merged so far, then what is still to be merged, is all there was. */
  ghost predicate InPass<T(!new)>(was: seq<seq<T>>, merged: seq<seq<T>>, rest: seq<seq<T>>, cmp: Comparator<T>) {
    && AllSorted(merged, cmp) && AllSorted(rest, cmp)
    && SameEverywhere(Concat(was), Concat(merged) + Concat(rest), cmp)
  }

  lemma GroupMerged<T(!new)>(was: seq<seq<T>>, merged: seq<seq<T>>, rest: seq<seq<T>>, n: nat, out: seq<T>, cmp: Comparator<T>)
    requires InPass(was, merged, rest, cmp) && n <= |rest| && StableSort(Concat(rest[..n]), out, cmp)
    ensures InPass(was, merged + [out], rest[n..], cmp)
  {
    var a, b, c := Concat(merged), Concat(rest[..n]), Concat(rest[n..]);
    assert rest == rest[..n] + rest[n..];
    ConcatAppend(rest[..n], rest[n..]);
    ConcatAppend(merged, [out]);
    assert Concat([out]) == out;
    SameConcat(a, a, b, out, cmp);
    SameConcat(a + b, a + out, c, c, cmp);
    assert a + (b + c) == (a + b) + c;
    SameTransitive(Concat(was), (a + b) + c, (a + out) + c, cmp);
  }

  /** Merges the files in groups of NMERGE and a last one of what remains; the results
      take the first places. */
  method Pass<T(!new)>(files: array<seq<T>>, nfiles: nat, cmp: Comparator<T>) returns (t: nat)
    requires TotalPreorder(cmp) && NMERGE < nfiles <= files.Length && AllSorted(files[..nfiles], cmp)
    modifies files
    ensures t == nfiles / NMERGE + 1 && t < nfiles
    ensures AllSorted(files[..t], cmp)
    ensures SameEverywhere(Concat(old(files[..nfiles])), Concat(files[..t]), cmp)
  {
    hide InPass, AllSorted, TotalPreorder, SameEverywhere, Concat;
    ghost var was := files[..nfiles];
    StartPass(was, cmp);
    t := 0;
    var i, first := 0, 0;
    while i < nfiles / NMERGE
      invariant 0 <= i <= nfiles / NMERGE && t == i && first == i * NMERGE <= nfiles
      invariant InPass(was, files[..t], files[first..nfiles], cmp)
    {
      hide InPass, AllSorted, TotalPreorder, SameEverywhere, Concat;
      MergeInto(files, first, NMERGE, t, nfiles, was, cmp);
      t := t + 1;
      i := i + 1;
      first := first + NMERGE;
    }
    MergeInto(files, first, nfiles % NMERGE, t, nfiles, was, cmp);
    t := t + 1;
    EndPass(was, files[..t], files[first + nfiles % NMERGE..nfiles], cmp);
  }

  lemma StartPass<T(!new)>(was: seq<seq<T>>, cmp: Comparator<T>)
    requires AllSorted(was, cmp)
    ensures InPass(was, [], was, cmp)
  {
    assert Concat<T>([]) + Concat(was) == Concat(was);
  }

  lemma EndPass<T(!new)>(was: seq<seq<T>>, merged: seq<seq<T>>, rest: seq<seq<T>>, cmp: Comparator<T>)
    requires InPass(was, merged, rest, cmp) && rest == []
    ensures SameEverywhere(Concat(was), Concat(merged), cmp) && AllSorted(merged, cmp)
  {
    assert Concat(merged) + Concat(rest) == Concat(merged);
  }

  method MergeInto<T(!new)>(files: array<seq<T>>, first: nat, n: nat, t: nat, nfiles: nat,
                            ghost was: seq<seq<T>>, cmp: Comparator<T>)
    requires TotalPreorder(cmp) && n <= NMERGE && t <= first && first + n <= nfiles <= files.Length
    requires t < first + n
    requires InPass(was, files[..t], files[first..nfiles], cmp)
    modifies files
    ensures InPass(was, files[..t + 1], files[first + n..nfiles], cmp)
  {
    ghost var rest := files[first..nfiles];
    assert files[first..first + n] == rest[..n];
    var temp := MergeGroup(files, first, n, cmp);
    GroupMerged(was, files[..t], rest, n, temp, cmp);
    files[t] := temp;
    assert files[..t + 1] == old(files[..t]) + [temp];
    assert files[first + n..nfiles] == rest[n..];
  }

  method Merge<T(!new)>(files: array<seq<T>>, n: nat, cmp: Comparator<T>) returns (out: seq<T>)
    requires TotalPreorder(cmp) && n <= files.Length && AllSorted(files[..n], cmp)
    modifies files
    ensures StableSort(old(Concat(files[..n])), out, cmp)
  {
    var nfiles := n;
    ghost var all := Concat(files[..n]);
    while nfiles > NMERGE
      invariant 0 <= nfiles <= files.Length && AllSorted(files[..nfiles], cmp)
      invariant SameEverywhere(all, Concat(files[..nfiles]), cmp)
      decreases nfiles
    {
      ghost var was := Concat(files[..nfiles]);
      nfiles := Pass(files, nfiles, cmp);
      SameTransitive(all, was, Concat(files[..nfiles]), cmp);
    }
    assert files[0..0 + nfiles] == files[..nfiles];
    out := MergeGroup(files, 0, nfiles, cmp);
    SameTransitive(all, Concat(files[..nfiles]), out, cmp);
  }
}
