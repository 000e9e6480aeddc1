/** mergefps of gnu/src/sort.c: a merge of up to NMERGE sorted files, each read into its
    table of lines a piece at a time; a permutation keeps the files in the order of their
    next lines. */
module SortMerge {
  import opened Concatenation
  import opened SortOrder

  const NMERGE := 16

  lemma {:induction false} ConcatAbove<T(!new)>(x: T, parts: seq<seq<T>>, cmp: Comparator<T>)
    requires forall i :: 0 <= i < |parts| ==> AllAbove(x, parts[i], cmp)
    ensures AllAbove(x, Concat(parts), cmp)
    decreases |parts|
  {
    if parts != [] {
      assert AllAbove(x, parts[0], cmp);
      ConcatAbove(x, parts[1..], cmp);
    }
  }

  // ---------------------------------------------------------------- the order of the files

  /** File i goes before file j: by their next lines, and of equal lines by number. */
  predicate Ahead<T>(heads: seq<T>, i: nat, j: nat, cmp: Comparator<T>)
    requires i < |heads| && j < |heads|
  {
    cmp(heads[i], heads[j]) < 0 || (cmp(heads[i], heads[j]) == 0 && i < j)
  }

  lemma AheadTransitive<T(!new)>(heads: seq<T>, i: nat, j: nat, k: nat, cmp: Comparator<T>)
    requires TotalPreorder(cmp) && i < |heads| && j < |heads| && k < |heads|
    requires Ahead(heads, i, j, cmp) && Ahead(heads, j, k, cmp)
    ensures Ahead(heads, i, k, cmp)
  {
    Transitive(cmp, heads[i], heads[j], heads[k]);
  }

  lemma AheadTotal<T(!new)>(heads: seq<T>, i: nat, j: nat, cmp: Comparator<T>)
    requires TotalPreorder(cmp) && i < |heads| && j < |heads|
    ensures Ahead(heads, i, j, cmp) <==> i != j && !Ahead(heads, j, i, cmp)
  {
    assert cmp(heads[i], heads[j]) < 0 <==> cmp(heads[j], heads[i]) > 0;
    assert cmp(heads[j], heads[i]) < 0 <==> cmp(heads[i], heads[j]) > 0;
    assert cmp(heads[i], heads[i]) == 0;
  }

  predicate Indices(ord: seq<nat>, n: nat) {
    && |ord| == n
    && (forall p :: 0 <= p < n ==> ord[p] < n)
  }

  /** ord is a permutation of the file numbers. */
  predicate Permutation(ord: seq<nat>, n: nat) {
    && Indices(ord, n)
    && (forall i :: 0 <= i < n ==> i in ord)
    && (forall p, q :: 0 <= p < q < n ==> ord[p] != ord[q])
  }

  /** ord lists the files in their order. */
  predicate Queue<T>(heads: seq<T>, ord: seq<nat>, cmp: Comparator<T>) {
    && Permutation(ord, |heads|)
    && (forall p, q :: 0 <= p < q < |ord| ==> Ahead(heads, ord[p], ord[q], cmp))
  }

  /** The first file listed is ahead of every other. */
  lemma FirstIsLeast<T(!new)>(heads: seq<T>, ord: seq<nat>, i: nat, cmp: Comparator<T>)
    requires Queue(heads, ord, cmp) && i < |heads| && i != ord[0]
    ensures Ahead(heads, ord[0], i, cmp)
  {
    assert i in ord;
    var p :| 0 <= p < |ord| && ord[p] == i;
  }

  /** The first number moves to place i - 1. */
  function Rotated(ord: seq<nat>, i: nat): (r: seq<nat>)
    requires 1 <= i <= |ord|
    ensures |r| == |ord|
    ensures forall p :: 0 <= p < i - 1 ==> r[p] == ord[p + 1]
    ensures r[i - 1] == ord[0]
    ensures forall p :: i <= p < |r| ==> r[p] == ord[p]
  {
    ord[1..i] + [ord[0]] + ord[i..]
  }

  lemma RotatedPermutation(ord: seq<nat>, i: nat, n: nat)
    requires Permutation(ord, n) && 1 <= i <= n
    ensures Permutation(Rotated(ord, i), n)
  {
    var r := Rotated(ord, i);
    forall k | 0 <= k < n ensures k in r {
      assert k in ord;
      var p :| 0 <= p < n && ord[p] == k;
      assert r[if p == 0 then i - 1 else if p < i then p - 1 else p] == k;
    }
  }

  /** i is where the file listed first belongs among the others. */
  ghost predicate Place<T>(heads: seq<T>, ord: seq<nat>, i: nat, cmp: Comparator<T>) {
    && Indices(ord, |heads|) && 1 <= i <= |ord|
    && (forall p :: 1 <= p < i ==> !Ahead(heads, ord[0], ord[p], cmp))
    && (i < |ord| ==> Ahead(heads, ord[0], ord[i], cmp))
  }

  /** After the first file has gone on to its next line, moving it to its place among the
      others restores the order. */
  lemma RotatedQueue<T(!new)>(heads: seq<T>, ord: seq<nat>, line: T, i: nat, cmp: Comparator<T>)
    requires TotalPreorder(cmp) && Queue(heads, ord, cmp) && ord != []
    requires Place(heads[ord[0] := line], ord, i, cmp)
    ensures Queue(heads[ord[0] := line], Rotated(ord, i), cmp)
  {
    var heads', r := heads[ord[0] := line], Rotated(ord, i);
    RotatedPermutation(ord, i, |heads|);
    forall p, q | 0 <= p < q < |r| ensures Ahead(heads', r[p], r[q], cmp) {
      if p == i - 1 {
        if q > i {
          assert Ahead(heads, ord[i], ord[q], cmp);
          AheadTransitive(heads', ord[0], ord[i], ord[q], cmp);
        }
      } else if q == i - 1 {
        AheadTotal(heads', ord[p + 1], ord[0], cmp);
      } else {
        var p', q' := if p < i then p + 1 else p, if q < i then q + 1 else q;
        assert Ahead(heads, ord[p'], ord[q'], cmp);
      }
    }
  }

  function Down(k: nat, m: nat): nat {
    if k > m then k - 1 else k
  }

  function Without<T>(s: seq<T>, m: nat): (r: seq<T>)
    requires m < |s|
    ensures |r| == |s| - 1
    ensures forall k :: 0 <= k < |r| ==> r[k] == if k < m then s[k] else s[k + 1]
  {
    s[..m] + s[m + 1..]
  }

  /** The first file is dropped and those with higher numbers are renumbered. */
  function Dropped(ord: seq<nat>): (r: seq<nat>)
    requires ord != []
    ensures |r| == |ord| - 1
    ensures forall p :: 0 <= p < |r| ==> r[p] == Down(ord[p + 1], ord[0])
  {
    seq(|ord| - 1, p requires 0 <= p < |ord| - 1 => Down(ord[p + 1], ord[0]))
  }

  lemma DroppedPermutation(ord: seq<nat>, n: nat)
    requires Permutation(ord, n) && n > 0
    ensures Permutation(Dropped(ord), n - 1)
  {
    var r, m := Dropped(ord), ord[0];
    forall p | 0 <= p < n - 1 ensures r[p] < n - 1 {
      assert ord[p + 1] != m && ord[p + 1] < n && m < n;
    }
    forall p, q | 0 <= p < q < n - 1 ensures r[p] != r[q] {
      assert ord[p + 1] != ord[q + 1] && ord[0] != ord[p + 1] && ord[0] != ord[q + 1];
    }
    forall k | 0 <= k < n - 1 ensures k in r {
      var up := if k < m then k else k + 1;
      assert up in ord;
      var p :| 0 <= p < n && ord[p] == up;
      assert r[p - 1] == k;
    }
  }

  /** Dropping an exhausted file keeps the order of the others. */
  lemma DroppedQueue<T(!new)>(heads: seq<T>, ord: seq<nat>, cmp: Comparator<T>)
    requires Queue(heads, ord, cmp) && ord != []
    ensures Queue(Without(heads, ord[0]), Dropped(ord), cmp)
  {
    var heads', r := Without(heads, ord[0]), Dropped(ord);
    DroppedPermutation(ord, |heads|);
    forall p, q | 0 <= p < q < |r| ensures Ahead(heads', r[p], r[q], cmp) {
      assert Ahead(heads, ord[p + 1], ord[q + 1], cmp);
      assert ord[p + 1] != ord[0] && ord[q + 1] != ord[0];
    }
  }

  // ---------------------------------------------------------------- what is output so far

  /** The files' rests are sorted and not exhausted. */
  ghost predicate Open<T(!new)>(rests: seq<seq<T>>, cmp: Comparator<T>) {
    forall k :: 0 <= k < |rests| ==> rests[k] != [] && Sorted(rests[k], cmp)
  }

  /** Nothing in the output belongs behind a line still to come. */
  ghost predicate Under<T(!new)>(out: seq<T>, rests: seq<seq<T>>, cmp: Comparator<T>) {
    forall i, k :: 0 <= i < |out| && 0 <= k < |rests| ==> AllAbove(out[i], rests[k], cmp)
  }

  /** The output is sorted, and with the rests it is all there was, equal lines in order. */
  ghost predicate Progress<T(!new)>(all: seq<T>, out: seq<T>, rests: seq<seq<T>>, cmp: Comparator<T>) {
    && Sorted(out, cmp)
    && Under(out, rests, cmp)
    && SameEverywhere(all, out + Concat(rests), cmp)
  }

  function Tops<T>(rests: seq<seq<T>>): seq<T>
    requires forall k :: 0 <= k < |rests| ==> rests[k] != []
  {
    seq(|rests|, k requires 0 <= k < |rests| => rests[k][0])
  }

  function Next<T>(rests: seq<seq<T>>, m: nat): (r: seq<seq<T>>)
    requires m < |rests| && rests[m] != []
  {
    rests[m := rests[m][1..]]
  }

  /** If the files before m have strictly greater lines, the first line of m is the first
      of all those equal to it. */
  lemma {:induction false} TakeSame<T(!new)>(rests: seq<seq<T>>, m: nat, x: T, cmp: Comparator<T>)
    requires TotalPreorder(cmp) && Open(rests, cmp) && m < |rests|
    requires forall i :: 0 <= i < m ==> cmp(rests[m][0], rests[i][0]) < 0
    ensures Same(Concat(rests), x, cmp) == Same([rests[m][0]], x, cmp) + Same(Concat(Next(rests, m)), x, cmp)
    decreases m
  {
    if m == 0 {
      TakeFirst(rests, x, cmp);
    } else {
      var tail := rests[1..];
      TakeSame(tail, m - 1, x, cmp);
      SameOrNot(rests[0], rests[m][0], x, cmp);
      ConcatNext(rests, m);
      TakeBehind(rests[0], Concat(tail), rests[m][0], Concat(Next(tail, m - 1)), x, cmp);
    }
  }

  lemma ConcatNext<T>(rests: seq<seq<T>>, m: nat)
    requires 0 < m < |rests| && rests[m] != []
    ensures Concat(Next(rests, m)) == rests[0] + Concat(Next(rests[1..], m - 1))
  {
    assert Next(rests, m)[1..] == Next(rests[1..], m - 1);
  }

  lemma TakeBehind<T>(first: seq<T>, from: seq<T>, line: T, to: seq<T>, x: T, cmp: Comparator<T>)
    requires Same(from, x, cmp) == Same([line], x, cmp) + Same(to, x, cmp)
    requires Same([line], x, cmp) == [] || Same(first, x, cmp) == []
    ensures Same(first + from, x, cmp) == Same([line], x, cmp) + Same(first + to, x, cmp)
  {
    SameAppend(first, from, x, cmp);
    SameAppend(first, to, x, cmp);
  }

  lemma TakeFirst<T(!new)>(rests: seq<seq<T>>, x: T, cmp: Comparator<T>)
    requires rests != [] && rests[0] != []
    ensures Same(Concat(rests), x, cmp) == Same([rests[0][0]], x, cmp) + Same(Concat(Next(rests, 0)), x, cmp)
  {
    var next := Next(rests, 0);
    assert next[1..] == rests[1..];
    assert Concat(rests) == [rests[0][0]] + Concat(next);
    SameAppend([rests[0][0]], Concat(next), x, cmp);
  }

  lemma TakeLeast<T(!new)>(all: seq<T>, out: seq<T>, rests: seq<seq<T>>, m: nat, cmp: Comparator<T>)
    requires TotalPreorder(cmp) && Open(rests, cmp) && Progress(all, out, rests, cmp) && m < |rests|
    requires forall i :: 0 <= i < |rests| && i != m ==> Ahead(Tops(rests), m, i, cmp)
    ensures Progress(all, out + [rests[m][0]], Next(rests, m), cmp)
  {
    var line, next := rests[m][0], Next(rests, m);
    assert Sorted(out + [line], cmp) by {
      forall i | 0 <= i < |out| ensures cmp(out[i], line) <= 0 {
        assert AllAbove(out[i], rests[m], cmp);
      }
    }
    assert Under(out + [line], next, cmp) by {
      forall k | 0 <= k < |next| ensures AllAbove(line, next[k], cmp) {
        assert k != m ==> Ahead(Tops(rests), m, k, cmp);
        assert cmp(line, rests[k][0]) <= 0;
        HeadBelow(line, rests[k], cmp);
      }
      forall i, k {:trigger AllAbove(out[i], next[k], cmp)} | 0 <= i < |out| && 0 <= k < |next| ensures AllAbove(out[i], next[k], cmp) {
        assert AllAbove(out[i], rests[k], cmp);
      }
    }
    TakeKeeps(all, out, rests, m, cmp);
  }

  lemma TakeKeeps<T(!new)>(all: seq<T>, out: seq<T>, rests: seq<seq<T>>, m: nat, cmp: Comparator<T>)
    requires TotalPreorder(cmp) && Open(rests, cmp) && m < |rests|
    requires SameEverywhere(all, out + Concat(rests), cmp)
    requires forall i :: 0 <= i < |rests| && i != m ==> Ahead(Tops(rests), m, i, cmp)
    ensures SameEverywhere(all, (out + [rests[m][0]]) + Concat(Next(rests, m)), cmp)
  {
    var line, next := rests[m][0], Next(rests, m);
    forall i | 0 <= i < m ensures cmp(line, rests[i][0]) < 0 {
      assert Ahead(Tops(rests), m, i, cmp);
    }
    forall x ensures Same((out + [line]) + Concat(next), x, cmp) == Same(all, x, cmp) {
      TakeSame(rests, m, x, cmp);
      assert Same(out + Concat(rests), x, cmp) == Same(all, x, cmp);
      SameMoved(out, line, Concat(rests), Concat(next), x, cmp);
    }
  }

  lemma SameMoved<T>(out: seq<T>, line: T, from: seq<T>, to: seq<T>, x: T, cmp: Comparator<T>)
    requires Same(from, x, cmp) == Same([line], x, cmp) + Same(to, x, cmp)
    ensures Same((out + [line]) + to, x, cmp) == Same(out + from, x, cmp)
  {
    hide Same;
    SameAppend(out, from, x, cmp);
    SameAppend(out + [line], to, x, cmp);
    SameAppend(out, [line], x, cmp);
  }

  /** A file without further lines may be left out. */
  lemma {:induction false} ConcatWithout<T>(rests: seq<seq<T>>, m: nat)
    requires m < |rests| && rests[m] == []
    ensures Concat(Without(rests, m)) == Concat(rests)
    decreases m
  {
    if m == 0 {
      assert Without(rests, m) == rests[1..];
    } else {
      ConcatWithout(rests[1..], m - 1);
      assert Without(rests, m) == [rests[0]] + Without(rests[1..], m - 1);
    }
  }

  lemma NothingLeft<T(!new)>(all: seq<T>, out: seq<T>, cmp: Comparator<T>)
    requires Progress(all, out, [], cmp)
    ensures StableSort(all, out, cmp)
  {
    assert out + Concat<T>([]) == out;
  }

  // ---------------------------------------------------------------- the first order of the files

  /** How many of the files listed in ord have a lesser line than x. */
  function Lesser<T>(heads: seq<T>, x: T, ord: seq<nat>, cmp: Comparator<T>): nat
    requires forall p :: 0 <= p < |ord| ==> ord[p] < |heads|
  {
    if ord == [] then 0
    else (if cmp(x, heads[ord[0]]) > 0 then 1 else 0) + Lesser(heads, x, ord[1..], cmp)
  }

  function Inversions<T>(heads: seq<T>, ord: seq<nat>, cmp: Comparator<T>): nat
    requires forall p :: 0 <= p < |ord| ==> ord[p] < |heads|
  {
    if ord == [] then 0
    else Lesser(heads, heads[ord[0]], ord[1..], cmp) + Inversions(heads, ord[1..], cmp)
  }

  function Swapped(ord: seq<nat>, i: nat): (r: seq<nat>)
    requires 1 <= i < |ord|
  {
    ord[i - 1 := ord[i]][i := ord[i - 1]]
  }

  lemma {:induction false} SwappedLesser<T>(heads: seq<T>, x: T, ord: seq<nat>, i: nat, cmp: Comparator<T>)
    requires forall p :: 0 <= p < |ord| ==> ord[p] < |heads|
    requires 1 <= i < |ord|
    ensures Lesser(heads, x, Swapped(ord, i), cmp) == Lesser(heads, x, ord, cmp)
    decreases i
  {
    var r := Swapped(ord, i);
    if i == 1 {
      assert r[1..][1..] == ord[1..][1..];
    } else {
      SwappedLesser(heads, x, ord[1..], i - 1, cmp);
      assert r[1..] == Swapped(ord[1..], i - 1);
    }
  }

  /** Exchanging neighbours in the wrong order takes one inversion away. */
  lemma {:induction false} SwappedInversions<T(!new)>(heads: seq<T>, ord: seq<nat>, i: nat, cmp: Comparator<T>)
    requires TotalPreorder(cmp)
    requires forall p :: 0 <= p < |ord| ==> ord[p] < |heads|
    requires 1 <= i < |ord| && cmp(heads[ord[i - 1]], heads[ord[i]]) > 0
    ensures Inversions(heads, Swapped(ord, i), cmp) < Inversions(heads, ord, cmp)
    decreases i
  {
    var r := Swapped(ord, i);
    if i == 1 {
      assert r[1..][1..] == ord[1..][1..];
      assert cmp(heads[ord[1]], heads[ord[0]]) < 0;
    } else {
      SwappedInversions(heads, ord[1..], i - 1, cmp);
      SwappedLesser(heads, heads[ord[0]], ord[1..], i - 1, cmp);
      assert r[1..] == Swapped(ord[1..], i - 1);
    }
  }

  /** Files listed against their numbers have strictly increasing lines. */
  ghost predicate Steady<T>(heads: seq<T>, ord: seq<nat>, cmp: Comparator<T>) {
    && Permutation(ord, |heads|)
    && (forall p, q :: 0 <= p < q < |ord| && ord[p] > ord[q] ==> cmp(heads[ord[p]], heads[ord[q]]) < 0)
  }

  lemma SwappedSteady<T(!new)>(heads: seq<T>, ord: seq<nat>, i: nat, cmp: Comparator<T>)
    requires TotalPreorder(cmp) && Steady(heads, ord, cmp)
    requires 1 <= i < |ord| && cmp(heads[ord[i - 1]], heads[ord[i]]) > 0
    ensures Steady(heads, Swapped(ord, i), cmp)
  {
    var r := Swapped(ord, i);
    forall k | 0 <= k < |heads| ensures k in r {
      assert k in ord;
      var p :| 0 <= p < |ord| && ord[p] == k;
      assert r[if p == i then i - 1 else if p == i - 1 then i else p] == k;
    }
    assert cmp(heads[ord[i]], heads[ord[i - 1]]) < 0;
  }

  /** Neighbours in order mean that all are. */
  lemma {:induction false} NeighboursInOrder<T(!new)>(heads: seq<T>, ord: seq<nat>, p: nat, q: nat, cmp: Comparator<T>)
    requires TotalPreorder(cmp) && Indices(ord, |heads|) && p <= q < |ord|
    requires forall k :: 1 <= k < |ord| ==> cmp(heads[ord[k - 1]], heads[ord[k]]) <= 0
    ensures cmp(heads[ord[p]], heads[ord[q]]) <= 0
    decreases q - p
  {
    if p < q {
      NeighboursInOrder(heads, ord, p, q - 1, cmp);
      Transitive(cmp, heads[ord[p]], heads[ord[q - 1]], heads[ord[q]]);
    } else {
      assert cmp(heads[ord[p]], heads[ord[p]]) == 0;
    }
  }

  lemma SteadyQueue<T(!new)>(heads: seq<T>, ord: seq<nat>, cmp: Comparator<T>)
    requires TotalPreorder(cmp) && Steady(heads, ord, cmp)
    requires forall k :: 1 <= k < |ord| ==> cmp(heads[ord[k - 1]], heads[ord[k]]) <= 0
    ensures Queue(heads, ord, cmp)
  {
    forall p, q | 0 <= p < q < |ord| ensures Ahead(heads, ord[p], ord[q], cmp) {
      NeighboursInOrder(heads, ord, p, q, cmp);
      assert ord[p] != ord[q];
    }
  }
}
