/** Comparison functions, and what a stable sort of a list of lines is. */
module SortOrder {

  /** Negative, zero or positive as the first line comes before, with or after the second. */
  type Comparator<!T> = (T, T) -> int

  ghost predicate TotalPreorder<T(!new)>(cmp: Comparator<T>) {
    && (forall x :: cmp(x, x) == 0)
    && (forall x, y :: cmp(x, y) < 0 <==> cmp(y, x) > 0)
    && (forall x, y, z :: cmp(x, y) <= 0 && cmp(y, z) <= 0 ==> cmp(x, z) <= 0)
  }

  lemma Transitive<T(!new)>(cmp: Comparator<T>, x: T, y: T, z: T)
    requires TotalPreorder(cmp) && cmp(x, y) <= 0 && cmp(y, z) <= 0
    ensures cmp(x, z) <= 0
    ensures cmp(x, y) < 0 || cmp(y, z) < 0 ==> cmp(x, z) < 0
  {
    if cmp(x, z) == 0 {
      assert !(cmp(x, z) < 0) && !(cmp(z, x) > 0);
      assert !(cmp(z, x) < 0) ==> cmp(z, x) == 0;
      assert cmp(z, x) <= 0;
      assert cmp(y, x) <= 0 && cmp(z, y) <= 0;
    }
  }

  ghost predicate Sorted<T(!new)>(s: seq<T>, cmp: Comparator<T>) {
    forall i, j :: 0 <= i < j < |s| ==> cmp(s[i], s[j]) <= 0
  }

  /** The lines of s that compare equal to x, in their order. */
  function Same<T>(s: seq<T>, x: T, cmp: Comparator<T>): seq<T> {
    if s == [] then []
    else (if cmp(s[0], x) == 0 then [s[0]] else []) + Same(s[1..], x, cmp)
  }

  /** out is s sorted, lines that compare equal staying in their order. */
  ghost predicate StableSort<T(!new)>(s: seq<T>, out: seq<T>, cmp: Comparator<T>) {
    Sorted(out, cmp) && SameEverywhere(s, out, cmp)
  }

  ghost predicate SameEverywhere<T(!new)>(s: seq<T>, out: seq<T>, cmp: Comparator<T>) {
    forall x {:trigger Same(out, x, cmp)} {:trigger Same(s, x, cmp)} :: Same(out, x, cmp) == Same(s, x, cmp)
  }

  lemma {:induction false} SameAppend<T>(s: seq<T>, t: seq<T>, x: T, cmp: Comparator<T>)
    ensures Same(s + t, x, cmp) == Same(s, x, cmp) + Same(t, x, cmp)
    decreases |s|
  {
    if s == [] {
      assert s + t == t;
    } else {
      SameAppend(s[1..], t, x, cmp);
      assert (s + t)[1..] == s[1..] + t;
    }
  }

  lemma {:induction false} SameOfNone<T>(s: seq<T>, x: T, cmp: Comparator<T>)
    requires forall i :: 0 <= i < |s| ==> cmp(s[i], x) != 0
    ensures Same(s, x, cmp) == []
    decreases |s|
  {
    if s != [] {
      SameOfNone(s[1..], x, cmp);
    }
  }

  lemma {:induction false} SameHas<T>(s: seq<T>, x: T, cmp: Comparator<T>, i: nat)
    requires i < |s| && cmp(s[i], x) == 0
    ensures Same(s, x, cmp) != []
    decreases |s|
  {
    if i > 0 {
      SameHas(s[1..], x, cmp, i - 1);
    }
  }

  lemma {:induction false} SameFrom<T>(s: seq<T>, x: T, cmp: Comparator<T>)
    requires Same(s, x, cmp) != []
    ensures exists i :: 0 <= i < |s| && cmp(s[i], x) == 0
    decreases |s|
  {
    if cmp(s[0], x) != 0 {
      SameFrom(s[1..], x, cmp);
      var i :| 0 <= i < |s[1..]| && cmp(s[1..][i], x) == 0;
      assert cmp(s[i + 1], x) == 0;
    }
  }

  ghost predicate AllAbove<T(!new)>(x: T, s: seq<T>, cmp: Comparator<T>) {
    forall i :: 0 <= i < |s| ==> cmp(x, s[i]) <= 0
  }

  lemma HeadBelow<T(!new)>(x: T, s: seq<T>, cmp: Comparator<T>)
    requires TotalPreorder(cmp) && Sorted(s, cmp) && s != [] && cmp(x, s[0]) <= 0
    ensures AllAbove(x, s, cmp)
  {
    forall i | 0 <= i < |s| ensures cmp(x, s[i]) <= 0 {
      if i > 0 {
        Transitive(cmp, x, s[0], s[i]);
      }
    }
  }

  lemma NotSame<T(!new)>(cmp: Comparator<T>, z: T, x: T, y: T)
    requires TotalPreorder(cmp) && cmp(y, z) < 0 && cmp(y, x) == 0
    ensures cmp(z, x) != 0
  {
    assert cmp(x, y) <= 0;
  }

  /** What is strictly above a line equal to x is not equal to x. */
  lemma NoneSame<T(!new)>(a: seq<T>, y: T, x: T, cmp: Comparator<T>)
    requires TotalPreorder(cmp) && Sorted(a, cmp) && a != [] && cmp(a[0], y) > 0 && cmp(y, x) == 0
    ensures Same(a, x, cmp) == []
  {
    forall i | 0 <= i < |a| ensures cmp(a[i], x) != 0 {
      assert cmp(y, a[0]) < 0;
      if i > 0 {
        Transitive(cmp, y, a[0], a[i]);
      }
      NotSame(cmp, a[i], x, y);
    }
    SameOfNone(a, x, cmp);
  }

  /** Either the line is not equal to x, or no strictly greater one is. */
  lemma SameOrNot<T(!new)>(rest: seq<T>, line: T, x: T, cmp: Comparator<T>)
    requires TotalPreorder(cmp) && Sorted(rest, cmp) && rest != [] && cmp(line, rest[0]) < 0
    ensures Same([line], x, cmp) == [] || Same(rest, x, cmp) == []
  {
    if cmp(line, x) == 0 {
      assert cmp(rest[0], line) > 0;
      NoneSame(rest, line, x, cmp);
    } else {
      SameOfNone([line], x, cmp);
    }
  }

  lemma SortedTail<T(!new)>(s: seq<T>, cmp: Comparator<T>)
    requires Sorted(s, cmp) && s != []
    ensures Sorted(s[1..], cmp)
  {
  }

  /** There is only one stable sort of a list. */
  lemma StableSortUnique<T(!new)>(s: seq<T>, a: seq<T>, b: seq<T>, cmp: Comparator<T>)
    requires TotalPreorder(cmp) && StableSort(s, a, cmp) && StableSort(s, b, cmp)
    ensures a == b
  {
    forall x ensures Same(b, x, cmp) == Same(a, x, cmp) {
      assert Same(a, x, cmp) == Same(s, x, cmp);
    }
    SortedUnique(a, b, cmp);
  }

  lemma NothingSame<T(!new)>(b: seq<T>, cmp: Comparator<T>)
    requires TotalPreorder(cmp) && SameEverywhere([], b, cmp)
    ensures b == []
  {
    if b != [] {
      SameHas(b, b[0], cmp, 0);
    }
  }

  lemma {:induction false} SortedUnique<T(!new)>(a: seq<T>, b: seq<T>, cmp: Comparator<T>)
    requires TotalPreorder(cmp) && Sorted(a, cmp) && Sorted(b, cmp) && SameEverywhere(a, b, cmp)
    ensures a == b
    decreases |a|
  {
    if a == [] {
      NothingSame(b, cmp);
    } else {
      SameHead(a, b, cmp);
      SameTails(a, b, cmp);
      SortedTail(a, cmp);
      SortedTail(b, cmp);
      SortedUnique(a[1..], b[1..], cmp);
      assert a == [a[0]] + a[1..] && b == [b[0]] + b[1..];
    }
  }

  lemma SameHead<T(!new)>(a: seq<T>, b: seq<T>, cmp: Comparator<T>)
    requires TotalPreorder(cmp) && Sorted(a, cmp) && Sorted(b, cmp) && SameEverywhere(a, b, cmp) && a != []
    ensures b != [] && b[0] == a[0]
  {
    SameHas(a, a[0], cmp, 0);
    assert Same(b, a[0], cmp) == Same(a, a[0], cmp);
    SameFrom(b, a[0], cmp);
    var i :| 0 <= i < |b| && cmp(b[i], a[0]) == 0;
    SameHas(b, b[0], cmp, 0);
    assert Same(a, b[0], cmp) == Same(b, b[0], cmp);
    SameFrom(a, b[0], cmp);
    var j :| 0 <= j < |a| && cmp(a[j], b[0]) == 0;
    HeadsEqual(a, b, i, j, cmp);
    assert Same(a, a[0], cmp)[0] == a[0];
    assert Same(b, a[0], cmp)[0] == b[0];
  }

  lemma SameTails<T(!new)>(a: seq<T>, b: seq<T>, cmp: Comparator<T>)
    requires SameEverywhere(a, b, cmp) && a != [] && b != [] && a[0] == b[0]
    ensures SameEverywhere(a[1..], b[1..], cmp)
  {
    forall x ensures Same(b[1..], x, cmp) == Same(a[1..], x, cmp) {
      assert Same(b, x, cmp) == Same(a, x, cmp);
      var n := if cmp(a[0], x) == 0 then 1 else 0;
      assert Same(a, x, cmp)[n..] == Same(a[1..], x, cmp);
      assert Same(b, x, cmp)[n..] == Same(b[1..], x, cmp);
    }
  }

  /** The first lines of two sorted lists with the same contents compare equal. */
  lemma HeadsEqual<T(!new)>(a: seq<T>, b: seq<T>, i: nat, j: nat, cmp: Comparator<T>)
    requires TotalPreorder(cmp) && Sorted(a, cmp) && Sorted(b, cmp)
    requires i < |b| && j < |a| && cmp(b[i], a[0]) == 0 && cmp(a[j], b[0]) == 0
    ensures cmp(b[0], a[0]) == 0 && cmp(a[0], b[0]) == 0
  {
    if i > 0 {
      Transitive(cmp, b[0], b[i], a[0]);
    }
    if j > 0 {
      Transitive(cmp, a[0], a[j], b[0]);
    }
    assert cmp(b[0], a[0]) <= 0 && cmp(a[0], b[0]) <= 0;
  }

  /** A stable sort rearranges: it has the same lines, each as often. */
  lemma StableSortPermutes<T(!new)>(s: seq<T>, out: seq<T>, cmp: Comparator<T>)
    requires TotalPreorder(cmp) && SameEverywhere(s, out, cmp)
    ensures multiset(s) == multiset(out)
  {
    forall x ensures multiset(s)[x] == multiset(out)[x] {
      CountInSame(s, x, cmp);
      CountInSame(out, x, cmp);
      assert Same(out, x, cmp) == Same(s, x, cmp);
    }
  }

  lemma {:induction false} CountInSame<T(!new)>(s: seq<T>, x: T, cmp: Comparator<T>)
    requires TotalPreorder(cmp)
    ensures multiset(s)[x] == multiset(Same(s, x, cmp))[x]
    decreases |s|
  {
    if s != [] {
      CountInSame(s[1..], x, cmp);
      assert s == [s[0]] + s[1..];
    }
  }
}
