/** next_file_name of gnu/src/split.c: suffixes of letters, incremented in place, that grow
    by two letters whenever all of a length are used. */
module SplitNames {

  /** Letters are counted from 0 for 'a' to 25 for 'z'. */
  const Z := 25

  type Suffix = seq<int>

  predicate Letters(s: Suffix) {
    forall k :: 0 <= k < |s| ==> 0 <= s[k] <= Z
  }

  function Pow26(n: nat): (p: nat)
    ensures p > 0
  {
    if n == 0 then 1 else 26 * Pow26(n - 1)
  }

  /** The letters as a number to the base 26. */
  function Value(s: Suffix): int {
    if s == [] then 0 else 26 * Value(s[..|s| - 1]) + s[|s| - 1]
  }

  /** The order of strings: at the first difference, or a proper prefix first. */
  predicate LessAt(a: Suffix, b: Suffix, k: nat) {
    k <= |a| && k < |b| && a[..k] == b[..k] && (k < |a| ==> a[k] < b[k])
  }

  ghost predicate Less(a: Suffix, b: Suffix) {
    exists k :: LessAt(a, b, k)
  }

  lemma LessTransitive(a: Suffix, b: Suffix, c: Suffix)
    requires Less(a, b) && Less(b, c)
    ensures Less(a, c)
  {
    var i: nat :| LessAt(a, b, i);
    var j: nat :| LessAt(b, c, j);
    var k := if i < j then i else j;
    assert a[..k] == a[..i][..k] && b[..k] == b[..i][..k] && b[..k] == b[..j][..k] && c[..k] == c[..j][..k];
    assert LessAt(a, c, k);
  }

  /** The successor, the last 'z's becoming 'a's. */
  function Next(s: Suffix): (r: Suffix)
    requires exists k :: 0 <= k < |s| && s[k] != Z
    ensures |r| == |s|
  {
    var n := |s| - 1;
    if s[n] != Z then s[n := s[n] + 1] else Next(s[..n]) + [0]
  }

  lemma {:induction false} NextCounts(s: Suffix)
    requires exists k :: 0 <= k < |s| && s[k] != Z
    ensures Value(Next(s)) == Value(s) + 1
  {
    var n := |s| - 1;
    if s[n] != Z {
      assert s[n := s[n] + 1][..n] == s[..n];
    } else {
      NextCounts(s[..n]);
      assert (Next(s[..n]) + [0])[..n] == Next(s[..n]);
    }
  }

  lemma {:induction false} NextIsGreater(s: Suffix)
    requires exists k :: 0 <= k < |s| && s[k] != Z
    ensures Less(s, Next(s))
  {
    var n := |s| - 1;
    if s[n] != Z {
      assert LessAt(s, Next(s), n);
    } else {
      NextIsGreater(s[..n]);
      var k: nat :| LessAt(s[..n], Next(s[..n]), k);
      assert s[..n][..k] == s[..k] && Next(s)[..k] == Next(s[..n])[..k];
      assert LessAt(s, Next(s), k);
    }
  }

  lemma {:induction false} NextLetters(s: Suffix)
    requires exists k :: 0 <= k < |s| && s[k] != Z
    requires forall k :: 0 <= k < |s| ==> -1 <= s[k] <= Z && (k < |s| - 1 ==> s[k] >= 0)
    ensures Letters(Next(s))
  {
    var n := |s| - 1;
    if s[n] == Z {
      NextLetters(s[..n]);
    }
  }

  lemma {:induction false} FirstLetterCounts(s: Suffix)
    requires s != [] && forall k :: 1 <= k < |s| ==> s[k] >= 0
    ensures Value(s) >= s[0] * Pow26(|s| - 1)
    decreases |s|
  {
    var n := |s| - 1;
    if n > 0 {
      FirstLetterCounts(s[..n]);
      assert 26 * (s[0] * Pow26(n - 1)) == s[0] * Pow26(n);
    }
  }

  lemma {:induction false} ZerosCount(n: nat)
    ensures Value(seq(n, _ => 0)) == 0
  {
    if n > 0 {
      var s := seq(n, _ => 0);
      assert s[..n - 1] == seq(n - 1, _ => 0);
      ZerosCount(n - 1);
    }
  }

  /** A suffix of generation g: g - 1 times 'z', then g + 1 letters of which the first is
      not 'z'; count tells which of the generation it is. */
  ghost predicate Named(suffix: Suffix, g: nat, count: int) {
    && g > 0 && |suffix| == 2 * g
    && (forall k :: 0 <= k < g - 1 ==> suffix[k] == Z)
    && Letters(suffix) && suffix[g - 1] != Z
    && count == Value(suffix[g - 1..]) && 0 <= count < 25 * Pow26(g)
  }

  class Namer {
    var suffix: Suffix
    var mid: nat
    var count: int
    var limit: nat
    var generation: nat

    ghost predicate Shape()
      reads this
    {
      generation > 0 && mid == generation - 1 && limit == 25 * Pow26(generation)
    }

    /** Before the first name: one before "aa". */
    ghost predicate Fresh()
      reads this
    {
      Shape() && generation == 1 && suffix == [0, -1] && count == -1
    }

    ghost predicate Valid()
      reads this
    {
      Shape() && Named(suffix, generation, count)
    }

    constructor ()
      ensures Fresh()
    {
      suffix, mid, count, limit, generation := [0, -1], 0, -1, 25 * 26, 1;
      assert Pow26(1) == 26 * Pow26(0);
    }

    /** The next suffix, greater than the one before. */
    method NextFileName()
      requires Fresh() || Valid()
      modifies this
      ensures Valid() && Less(old(suffix), suffix)
      ensures old(Fresh()) ==> suffix == [0, 0]
    {
      hide Less, Next, Value, Pow26;
      ghost var s, g, c := suffix, generation, count;
      count := count + 1;
      if count < limit {
        BeforeFirst();
        Increment();
        NextNamed(s, suffix, g, c);
        return;
      }
      LargerBy26(g);
      count := 0;
      limit := limit * 26;
      generation := generation + 1;
      suffix := suffix[..mid] + [Z] + seq(generation + 1, _ => 0);
      mid := mid + 1;
      GenerationNamed(s, suffix, g, c);
    }

    /** Adds one to the letters from mid on. */
    method Increment()
      requires mid < |suffix| && suffix[mid] != Z
      modifies `suffix
      ensures suffix == old(suffix)[..mid] + Next(old(suffix)[mid..])
    {
      var x := |suffix| - 1;
      ghost var s := suffix;
      while suffix[x] == Z
        invariant mid <= x < |suffix| == |s|
        invariant suffix[..x + 1] == s[..x + 1]
        invariant forall k :: x < k < |s| ==> s[k] == Z && suffix[k] == 0
        decreases x
      {
        suffix := suffix[x := 0];
        x := x - 1;
      }
      suffix := suffix[x := suffix[x] + 1];
      NextIs(s[mid..], suffix[mid..], x - mid);
      assert suffix[..mid] == s[..mid];
    }
  }

  lemma BeforeFirst()
    ensures Value([0, -1][0..]) == -1 && Next([0, -1][0..]) == [0, 0]
  {
    assert [0, -1][0..] == [0, -1] && Value([0, -1][..1]) == 0;
    assert [0, -1][..1] == [0];
  }

  lemma LargerBy26(g: nat)
    ensures Pow26(g + 1) == 26 * Pow26(g)
  {
  }

  /** Within a generation the next suffix is the greater by one. */
  lemma NextNamed(s: Suffix, r: Suffix, g: nat, count: int)
    requires g > 0 && |s| == 2 * g && (forall k :: 0 <= k < g - 1 ==> s[k] == Z) && s[g - 1] != Z
    requires Letters(s) || s == [0, -1]
    requires count == Value(s[g - 1..]) && count >= -1 && count + 1 < 25 * Pow26(g)
    requires r == s[..g - 1] + Next(s[g - 1..])
    ensures Named(r, g, count + 1) && Less(s, r)
  {
    hide Value, Less, Next;
    var p, t := s[..g - 1], s[g - 1..];
    assert s == p + t;
    NextCounts(t);
    NextLetters(t);
    LessBehind(p, t, Next(t));
    assert r[g - 1..] == Next(t);
    if r[g - 1] == Z {
      FirstLetterCounts(Next(t));
    }
  }

  lemma LessBehind(p: Suffix, t: Suffix, r: Suffix)
    requires exists k :: 0 <= k < |t| && t[k] != Z
    requires r == Next(t)
    ensures Less(p + t, p + r)
  {
    NextIsGreater(t);
    var k: nat :| LessAt(t, r, k);
    BehindPrefix(p, t, r, k);
  }

  lemma BehindPrefix(p: Suffix, a: Suffix, b: Suffix, k: nat)
    requires LessAt(a, b, k)
    ensures LessAt(p + a, p + b, |p| + k)
  {
    assert (p + a)[..|p| + k] == p + a[..k] && (p + b)[..|p| + k] == p + b[..k];
  }

  /** The first suffix of the next generation is greater than all of this one. */
  lemma GenerationNamed(s: Suffix, r: Suffix, g: nat, count: int)
    requires Named(s, g, count) && |r| == 2 * g + 2
    requires (forall k :: 0 <= k < g ==> r[k] == Z) && (forall k :: g <= k < |r| ==> r[k] == 0)
    ensures Named(r, g + 1, 0) && Less(s, r)
  {
    assert r[g..] == seq(g + 2, _ => 0);
    ZerosCount(g + 2);
    assert s[..g - 1] == r[..g - 1];
    assert LessAt(s, r, g - 1);
  }

  lemma {:induction false} NextIs(s: Suffix, r: Suffix, x: nat)
    requires x < |s| == |r| && s[x] != Z && r[x] == s[x] + 1
    requires forall k :: 0 <= k < x ==> r[k] == s[k]
    requires forall k :: x < k < |s| ==> s[k] == Z && r[k] == 0
    ensures r == Next(s)
    decreases |s|
  {
    var n := |s| - 1;
    if x < n {
      NextIs(s[..n], r[..n], x);
      assert r == r[..n] + [0];
    }
  }
}
