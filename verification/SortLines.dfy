/** sortlines of gnu/src/sort.c: recursive merge sort of a stretch of an array, with
    one scratch array shared by all levels of the recursion. */
module SortLines {
  import opened SortOrder

  /** The stable merge: of lines that compare equal, those of the first list come first. */
  function Merge<T>(a: seq<T>, b: seq<T>, cmp: Comparator<T>): seq<T>
    decreases |a| + |b|
  {
    if a == [] then b
    else if b == [] then a
    else if cmp(a[0], b[0]) <= 0 then [a[0]] + Merge(a[1..], b, cmp)
    else [b[0]] + Merge(a, b[1..], cmp)
  }

  lemma {:induction false} MergeSize<T>(a: seq<T>, b: seq<T>, cmp: Comparator<T>)
    ensures |Merge(a, b, cmp)| == |a| + |b|
    decreases |a| + |b|
  {
    if a != [] && b != [] {
      if cmp(a[0], b[0]) <= 0 {
        MergeSize(a[1..], b, cmp);
      } else {
        MergeSize(a, b[1..], cmp);
      }
    }
  }

  lemma {:induction false} MergeAbove<T(!new)>(x: T, a: seq<T>, b: seq<T>, cmp: Comparator<T>)
    requires AllAbove(x, a, cmp) && AllAbove(x, b, cmp)
    ensures AllAbove(x, Merge(a, b, cmp), cmp)
    decreases |a| + |b|
  {
    if a != [] && b != [] {
      if cmp(a[0], b[0]) <= 0 {
        MergeAbove(x, a[1..], b, cmp);
      } else {
        MergeAbove(x, a, b[1..], cmp);
      }
    }
  }

  lemma {:induction false} MergeSorts<T(!new)>(a: seq<T>, b: seq<T>, cmp: Comparator<T>)
    requires TotalPreorder(cmp) && Sorted(a, cmp) && Sorted(b, cmp)
    ensures Sorted(Merge(a, b, cmp), cmp)
    decreases |a| + |b|
  {
    if a != [] && b != [] {
      if cmp(a[0], b[0]) <= 0 {
        MergeSorts(a[1..], b, cmp);
        HeadBelow(a[0], b, cmp);
        MergeAbove(a[0], a[1..], b, cmp);
      } else {
        MergeSorts(a, b[1..], cmp);
        HeadBelow(b[0], a, cmp);
        MergeAbove(b[0], a, b[1..], cmp);
      }
    }
  }

  /** Merging keeps the order of lines that compare equal. */
  lemma {:induction false} MergeSame<T(!new)>(a: seq<T>, b: seq<T>, x: T, cmp: Comparator<T>)
    requires TotalPreorder(cmp) && Sorted(a, cmp)
    ensures Same(Merge(a, b, cmp), x, cmp) == Same(a, x, cmp) + Same(b, x, cmp)
    decreases |a| + |b|
  {
    hide Same, Merge, Sorted;
    if a == [] || b == [] {
      MergeOfOne(a, b, cmp);
      SameAppend(a, b, x, cmp);
    } else {
      MergeStep(a, b, a[1..], b[1..], cmp);
      if cmp(a[0], b[0]) <= 0 {
        SortedTail(a, cmp);
        MergeSame(a[1..], b, x, cmp);
        SameOfFirst(a, b, Merge(a[1..], b, cmp), x, cmp);
      } else {
        MergeSame(a, b[1..], x, cmp);
        assert cmp(b[0], a[0]) < 0;
        SameOrNot(a, b[0], x, cmp);
        SameOfSecond(a, b, Merge(a, b[1..], cmp), x, cmp);
      }
    }
  }

  lemma SameOfFirst<T>(a: seq<T>, b: seq<T>, rest: seq<T>, x: T, cmp: Comparator<T>)
    requires a != [] && Same(rest, x, cmp) == Same(a[1..], x, cmp) + Same(b, x, cmp)
    ensures Same([a[0]] + rest, x, cmp) == Same(a, x, cmp) + Same(b, x, cmp)
  {
    hide Same;
    SameAppend([a[0]], rest, x, cmp);
    SameAppend([a[0]], a[1..], x, cmp);
    assert [a[0]] + a[1..] == a;
  }

  lemma SameOfSecond<T>(a: seq<T>, b: seq<T>, rest: seq<T>, x: T, cmp: Comparator<T>)
    requires b != [] && Same(rest, x, cmp) == Same(a, x, cmp) + Same(b[1..], x, cmp)
    requires Same([b[0]], x, cmp) == [] || Same(a, x, cmp) == []
    ensures Same([b[0]] + rest, x, cmp) == Same(a, x, cmp) + Same(b, x, cmp)
  {
    hide Same;
    SameAppend([b[0]], rest, x, cmp);
    SameAppend([b[0]], b[1..], x, cmp);
    assert [b[0]] + b[1..] == b;
  }

  lemma MergeIsStable<T(!new)>(s: seq<T>, t: seq<T>, a: seq<T>, b: seq<T>, cmp: Comparator<T>)
    requires TotalPreorder(cmp) && StableSort(s, a, cmp) && StableSort(t, b, cmp)
    ensures StableSort(s + t, Merge(a, b, cmp), cmp)
  {
    MergeSorts(a, b, cmp);
    forall x ensures Same(Merge(a, b, cmp), x, cmp) == Same(s + t, x, cmp) {
      MergeSame(a, b, x, cmp);
      SameAppend(s, t, x, cmp);
    }
  }

  /** What sorting two neighbouring stretches one after the other leaves where. */
  lemma Stretches<T>(s0: seq<T>, s1: seq<T>, s2: seq<T>, lo: nat, mid: nat, hi: nat)
    requires lo <= mid <= hi <= |s0| == |s1| == |s2|
    requires s1[..lo] == s0[..lo] && s1[mid..] == s0[mid..]
    requires s2[..mid] == s1[..mid] && s2[hi..] == s1[hi..]
    ensures s0[lo..hi] == s0[lo..mid] + s0[mid..hi]
    ensures s1[mid..hi] == s0[mid..hi] && s2[lo..mid] == s1[lo..mid]
    ensures s2[..lo] == s0[..lo] && s2[hi..] == s0[hi..]
  {
    assert s1[mid..hi] == s1[mid..][..hi - mid];
    assert s0[mid..hi] == s0[mid..][..hi - mid];
    assert s2[lo..mid] == s2[..mid][lo..] && s1[lo..mid] == s1[..mid][lo..];
    assert s2[..lo] == s2[..mid][..lo] && s1[..lo] == s1[..mid][..lo];
    assert s1[hi..] == s1[mid..][hi - mid..] && s0[hi..] == s0[mid..][hi - mid..];
  }

  /** Sorts lines[lo .. lo + n]; the scratch array is used from its start. */
  method SortLines<T(!new)>(lines: array<T>, lo: nat, n: nat, temp: array<T>, cmp: Comparator<T>)
    requires TotalPreorder(cmp) && lines != temp
    requires lo + n <= lines.Length && n <= temp.Length
    modifies lines, temp
    ensures StableSort(old(lines[lo..lo + n]), lines[lo..lo + n], cmp)
    ensures lines[..lo] == old(lines[..lo]) && lines[lo + n..] == old(lines[lo + n..])
    decreases n + 1, 4
  {
    if n == 2 {
      SortPair(lines, lo, temp, cmp);
      return;
    }
    hide StableSort, Merge;
    var nlo := n / 2;
    var nhi := n - nlo;
    assert lines[lo..lo + n] == lines[lo..lo + nlo] + lines[lo + nlo..lo + n];
    SortHalves(lines, lo, nlo, nhi, temp, cmp);
    MergeIsStable(old(lines[lo..lo + nlo]), old(lines[lo + nlo..lo + n]),
                  lines[lo..lo + nlo], lines[lo + nlo..lo + n], cmp);
    MergeHalves(lines, lo, nlo, n, temp, cmp);
  }

  method SortHalves<T(!new)>(lines: array<T>, lo: nat, nlo: nat, nhi: nat, temp: array<T>, cmp: Comparator<T>)
    requires TotalPreorder(cmp) && lines != temp
    requires nlo <= nhi <= nlo + 1 && lo + nlo + nhi <= lines.Length && nhi <= temp.Length
    modifies lines, temp
    ensures StableSort(old(lines[lo..lo + nlo]), lines[lo..lo + nlo], cmp)
    ensures StableSort(old(lines[lo + nlo..lo + nlo + nhi]), lines[lo + nlo..lo + nlo + nhi], cmp)
    ensures lines[..lo] == old(lines[..lo]) && lines[lo + nlo + nhi..] == old(lines[lo + nlo + nhi..])
    decreases nlo + nhi + 1, 3
  {
    hide StableSort;
    ghost var s0, mid, hi := lines[..], lo + nlo, lo + nlo + nhi;
    SortStretch(lines, lo, nlo, temp, cmp);
    ghost var s1 := lines[..];
    SortStretch(lines, lo + nlo, nhi, temp, cmp);
    ghost var s2 := lines[..];
    Stretches(s0, s1, s2, lo, mid, hi);
  }

  /** Nothing is done to fewer than two lines. */
  method SortStretch<T(!new)>(lines: array<T>, lo: nat, n: nat, temp: array<T>, cmp: Comparator<T>)
    requires TotalPreorder(cmp) && lines != temp
    requires lo + n <= lines.Length && n <= temp.Length
    modifies lines, temp
    ensures StableSort(old(lines[lo..lo + n]), lines[lo..lo + n], cmp)
    ensures lines[..lo] == old(lines[..lo]) && lines[lo + n..] == old(lines[lo + n..])
    decreases if n > 1 then n + 1 else 0, 5
  {
    if n > 1 {
      SortLines(lines, lo, n, temp, cmp);
    }
  }

  method SortPair<T(!new)>(lines: array<T>, lo: nat, temp: array<T>, cmp: Comparator<T>)
    requires TotalPreorder(cmp) && lines != temp && lo + 2 <= lines.Length && 1 <= temp.Length
    modifies lines, temp
    ensures StableSort(old(lines[lo..lo + 2]), lines[lo..lo + 2], cmp)
    ensures lines[..lo] == old(lines[..lo]) && lines[lo + 2..] == old(lines[lo + 2..])
  {
    ghost var x, y := lines[lo], lines[lo + 1];
    assert lines[lo..lo + 2] == [x, y];
    if cmp(lines[lo], lines[lo + 1]) > 0 {
      temp[0] := lines[lo];
      lines[lo] := lines[lo + 1];
      lines[lo + 1] := temp[0];
      assert lines[lo..lo + 2] == [y, x];
      SwappedPair(x, y, cmp);
    }
  }

  lemma SwappedPair<T(!new)>(x: T, y: T, cmp: Comparator<T>)
    requires TotalPreorder(cmp) && cmp(x, y) > 0
    ensures StableSort([x, y], [y, x], cmp)
  {
    assert Merge([x], [y], cmp) == [y, x];
    MergeIsStable([x], [y], [x], [y], cmp);
    assert [x] + [y] == [x, y];
  }

  /** Merges the sorted stretches of nlo and n - nlo lines that start at lo. */
  method MergeHalves<T(!new)>(lines: array<T>, lo: nat, nlo: nat, n: nat, temp: array<T>, cmp: Comparator<T>)
    requires lines != temp && nlo <= n && lo + n <= lines.Length && n <= temp.Length
    modifies lines, temp
    ensures lines[lo..lo + n] == Merge(old(lines[lo..lo + nlo]), old(lines[lo + nlo..lo + n]), cmp)
    ensures lines[..lo] == old(lines[..lo]) && lines[lo + n..] == old(lines[lo + n..])
  {
    ghost var a, b := lines[lo..lo + nlo], lines[lo + nlo..lo + n];
    var t := MergeOut(lines, lo, nlo, n, temp, cmp);
    CopyBack(lines, lo, temp, t);
    ghost var rest := old(lines[lo + t..lo + n]);
    assert lines[lo + t..lo + n] == rest by {
      assert lines[lo + t..lo + n] == lines[lo + t..][..n - t];
    }
    assert lines[lo..lo + n] == lines[lo..lo + t] + lines[lo + t..lo + n];
    assert lines[lo + n..] == lines[lo + t..][n - t..];
  }

  /** Merges into the scratch array until the first stretch is used up; what is then
      left of the second is already in its place. */
  method MergeOut<T(!new)>(lines: array<T>, lo: nat, nlo: nat, n: nat, temp: array<T>, cmp: Comparator<T>) returns (t: nat)
    requires lines != temp && nlo <= n && lo + n <= lines.Length && n <= temp.Length
    modifies temp
    ensures t <= n
    ensures temp[..t] + lines[lo + t..lo + n] == Merge(lines[lo..lo + nlo], lines[lo + nlo..lo + n], cmp)
  {
    hide Merge;
    var i, j := MergeBoth(lines, lo, lo + nlo, lo + n, temp, cmp);
    MergeOfOne(lines[i..lo + nlo], lines[j..lo + n], cmp);
    t := (i - lo) + (j - (lo + nlo));
    t := CopyRest(lines, i, lo + nlo, temp, t, lines[j..lo + n]);
    assert j == lo + t;
  }

  /** Merges until one of the stretches is used up. */
  method MergeBoth<T(!new)>(lines: array<T>, lo: nat, mid: nat, hi: nat, temp: array<T>, cmp: Comparator<T>) returns (i: nat, j: nat)
    requires lines != temp && lo <= mid <= hi <= lines.Length && hi - lo <= temp.Length
    modifies temp
    ensures lo <= i <= mid <= j <= hi && (i == mid || j == hi)
    ensures temp[..(i - lo) + (j - mid)] + Merge(lines[i..mid], lines[j..hi], cmp) == Merge(lines[lo..mid], lines[mid..hi], cmp)
  {
    ghost var whole := Merge(lines[lo..mid], lines[mid..hi], cmp);
    var t: nat := 0;
    i, j := lo, mid;
    assert temp[..0] + whole == whole;
    while i < mid && j < hi
      invariant lo <= i <= mid <= j <= hi && t == (i - lo) + (j - mid)
      invariant temp[..t] + Merge(lines[i..mid], lines[j..hi], cmp) == whole
    {
      hide Merge;
      i, j := MergeOne(lines, i, mid, j, hi, temp, t, cmp);
      t := t + 1;
    }
  }

  /** The lesser of two lines goes to the scratch array. */
  method MergeOne<T(!new)>(lines: array<T>, i0: nat, mid: nat, j0: nat, hi: nat, temp: array<T>, t: nat, cmp: Comparator<T>)
    returns (i: nat, j: nat)
    requires lines != temp && i0 < mid <= j0 < hi <= lines.Length && t < temp.Length
    modifies temp
    ensures i0 <= i <= mid && j0 <= j <= hi && i + j == i0 + j0 + 1
    ensures temp[..t + 1] + Merge(lines[i..mid], lines[j..hi], cmp) == old(temp[..t]) + Merge(lines[i0..mid], lines[j0..hi], cmp)
  {
    hide Merge;
    i, j := i0, j0;
    MergeStep(lines[i..mid], lines[j..hi], lines[i + 1..mid], lines[j + 1..hi], cmp);
    if cmp(lines[i], lines[j]) <= 0 {
      Put(temp, t, lines[i], Merge(lines[i + 1..mid], lines[j..hi], cmp));
      i := i + 1;
    } else {
      Put(temp, t, lines[j], Merge(lines[i..mid], lines[j + 1..hi], cmp));
      j := j + 1;
    }
  }

  lemma MergeStep<T>(a: seq<T>, b: seq<T>, a': seq<T>, b': seq<T>, cmp: Comparator<T>)
    requires a != [] && b != [] && a' == a[1..] && b' == b[1..]
    ensures cmp(a[0], b[0]) <= 0 ==> Merge(a, b, cmp) == [a[0]] + Merge(a', b, cmp)
    ensures cmp(a[0], b[0]) > 0 ==> Merge(a, b, cmp) == [b[0]] + Merge(a, b', cmp)
  {
  }

  lemma MergeOfOne<T>(a: seq<T>, b: seq<T>, cmp: Comparator<T>)
    requires a == [] || b == []
    ensures Merge(a, b, cmp) == a + b
  {
    assert a == [] ==> a + b == b;
    assert b == [] ==> a + b == a;
  }

  /** One line goes to place t; what is to follow is the tail. */
  method Put<T(!new)>(temp: array<T>, t: nat, x: T, ghost tail: seq<T>)
    requires t < temp.Length
    modifies temp
    ensures temp[..t] == old(temp[..t]) && temp[t] == x
    ensures temp[..t + 1] + tail == old(temp[..t]) + ([x] + tail)
  {
    temp[t] := x;
    assert temp[..t + 1] == old(temp[..t]) + [x];
  }

  /** The rest of the first stretch goes to the scratch array. */
  method CopyRest<T(!new)>(lines: array<T>, from: nat, mid: nat, temp: array<T>, t0: nat, ghost tail: seq<T>) returns (t: nat)
    requires lines != temp && from <= mid <= lines.Length && t0 + (mid - from) <= temp.Length
    modifies temp
    ensures t == t0 + (mid - from)
    ensures temp[..t] + tail == old(temp[..t0]) + (lines[from..mid] + tail)
  {
    var i := from;
    t := t0;
    while i < mid
      invariant from <= i <= mid && t == t0 + (i - from)
      invariant temp[..t] == old(temp[..t0]) + lines[from..i]
    {
      Put(temp, t, lines[i], []);
      assert lines[from..i + 1] == lines[from..i] + [lines[i]];
      i := i + 1;
      t := t + 1;
    }
  }

  method CopyBack<T(!new)>(lines: array<T>, lo: nat, temp: array<T>, t: nat)
    requires lines != temp && lo + t <= lines.Length && t <= temp.Length
    modifies lines
    ensures lines[lo..lo + t] == temp[..t]
    ensures lines[..lo] == old(lines[..lo]) && lines[lo + t..] == old(lines[lo + t..])
  {
    var k := 0;
    while k < t
      invariant 0 <= k <= t
      invariant lines[lo..lo + k] == temp[..k]
      invariant lines[..lo] == old(lines[..lo]) && lines[lo + t..] == old(lines[lo + t..])
    {
      lines[lo + k] := temp[k];
      k := k + 1;
    }
  }
}
