/** compare of gnu/src/sort.c without keys: the first characters are compared as the
    machine's char, the rest as bytes, and a proper prefix comes first. */
module SortText {
  import opened SortOrder
  import opened SortNumber

  /** The rank of the k-th character; only the first can count as negative. */
  function Rank(c: bv8, k: nat, signed: bool): int {
    if k == 0 && signed && c >= 128 then c as int - 256 else c as int
  }

  /** The length of the longest common prefix. */
  function Common(a: Text, b: Text): (k: nat)
    ensures k <= |a| && k <= |b|
    ensures forall i :: 0 <= i < k ==> a[i] == b[i]
    ensures k < |a| && k < |b| ==> a[k] != b[k]
  {
    if a == [] || b == [] || a[0] != b[0] then 0 else 1 + Common(a[1..], b[1..])
  }

  function TextOrder(a: Text, b: Text, signed: bool): int {
    var k := Common(a, b);
    if k < |a| && k < |b| then Rank(a[k], k, signed) - Rank(b[k], k, signed) else |a| - |b|
  }

  lemma CommonIs(a: Text, b: Text, k: nat)
    requires k <= |a| && k <= |b|
    requires forall i :: 0 <= i < k ==> a[i] == b[i]
    requires k < |a| && k < |b| ==> a[k] != b[k]
    ensures Common(a, b) == k
  {
    var m := Common(a, b);
    assert m < |a| && m < |b| ==> a[m] != b[m];
    assert !(m < k) && !(k < m);
  }

  lemma RankDiffers(c: bv8, d: bv8, k: nat, signed: bool)
    requires c != d
    ensures Rank(c, k, signed) != Rank(d, k, signed)
  {
    assert c as int != d as int;
    assert 0 <= c as int < 256 && 0 <= d as int < 256;
  }

  /** Only identical lines compare equal. */
  lemma EqualIsIdentical(a: Text, b: Text, signed: bool)
    ensures TextOrder(a, b, signed) == 0 <==> a == b
  {
    var k := Common(a, b);
    if k < |a| && k < |b| {
      RankDiffers(a[k], b[k], k, signed);
    } else if |a| == |b| {
      assert a == b;
    }
  }

  lemma TextOrderFlips(a: Text, b: Text, signed: bool)
    ensures TextOrder(b, a, signed) == -TextOrder(a, b, signed)
  {
    CommonIs(b, a, Common(a, b));
  }

  lemma TextOrderTransitive(a: Text, b: Text, c: Text, signed: bool)
    requires TextOrder(a, b, signed) <= 0 && TextOrder(b, c, signed) <= 0
    ensures TextOrder(a, c, signed) <= 0
  {
    var i, j := Common(a, b), Common(b, c);
    if i < |a| && i < |b| {
      RankDiffers(a[i], b[i], i, signed);
    }
    if j < |b| && j < |c| {
      RankDiffers(b[j], c[j], j, signed);
    }
    CommonIs(a, c, if i <= j then i else j);
  }

  ghost predicate IsTextOrder(cmp: Comparator<Text>, signed: bool, reverse: bool) {
    forall a, b :: cmp(a, b) == if reverse then -TextOrder(a, b, signed) else TextOrder(a, b, signed)
  }

  /** In either direction the default order is a total order. */
  lemma TextOrderIsTotal(cmp: Comparator<Text>, signed: bool, reverse: bool)
    requires IsTextOrder(cmp, signed, reverse)
    ensures TotalPreorder(cmp)
    ensures forall a, b :: cmp(a, b) == 0 <==> a == b
  {
    forall a, b ensures cmp(a, b) == -cmp(b, a) && (cmp(a, b) == 0 <==> a == b) {
      TextOrderFlips(a, b, signed);
      EqualIsIdentical(a, b, signed);
    }
    forall a, b, c {:trigger cmp(a, b), cmp(b, c)} | cmp(a, b) <= 0 && cmp(b, c) <= 0 ensures cmp(a, c) <= 0 {
      TextOrderFlips(a, b, signed);
      TextOrderFlips(b, c, signed);
      TextOrderFlips(a, c, signed);
      if reverse {
        TextOrderTransitive(c, b, a, signed);
      } else {
        TextOrderTransitive(a, b, c, signed);
      }
    }
  }

  // ---------------------------------------------------------------- the order, told from the texts

  /** x goes before y: as unsigned bytes, or, in the first place if char is signed, those
      with the high bit set before the others. */
  predicate Before(x: bv8, y: bv8, first: bool, signed: bool) {
    if first && signed && (x < 128) != (y < 128) then y < 128 else x < y
  }

  predicate Continues(a: Text, b: Text, rest: Text) {
    rest != [] && b == a + rest
  }

  predicate DifferAt(a: Text, b: Text, p: Text, x: bv8, u: Text, y: bv8, v: Text, signed: bool) {
    a == p + [x] + u && b == p + [y] + v && Before(x, y, p == [], signed)
  }

  /** a goes on in b, or has a character before that of b where they part. */
  ghost predicate Precedes(a: Text, b: Text, signed: bool) {
    || (exists rest :: Continues(a, b, rest))
    || (exists p, x, u, y, v :: DifferAt(a, b, p, x, u, y, v, signed))
  }

  lemma AsInt(x: bv8, y: bv8)
    ensures x < y <==> x as int < y as int
    ensures 0 <= x as int < 256
  {
  }

  lemma BeforeIsRank(x: bv8, y: bv8, k: nat, signed: bool)
    ensures Before(x, y, k == 0, signed) <==> Rank(x, k, signed) < Rank(y, k, signed)
  {
    AsInt(x, y);
    AsInt(x, 128);
    AsInt(y, 128);
  }

  lemma ContinuesGives(a: Text, b: Text, rest: Text, signed: bool)
    requires Continues(a, b, rest)
    ensures TextOrder(a, b, signed) < 0
  {
    CommonIs(a, b, |a|);
  }

  lemma DifferGives(a: Text, b: Text, p: Text, x: bv8, u: Text, y: bv8, v: Text, signed: bool)
    requires DifferAt(a, b, p, x, u, y, v, signed)
    ensures TextOrder(a, b, signed) < 0
  {
    var k := |p|;
    assert a[k] == x && b[k] == y;
    assert forall i :: 0 <= i < k ==> a[i] == p[i] == b[i];
    BeforeIsRank(x, y, k, signed);
    CommonIs(a, b, k);
  }

  /** The order is that of the texts: a line goes before its continuations, and otherwise
      the first characters that differ decide. */
  lemma TextOrderIsPrecedence(a: Text, b: Text, signed: bool)
    ensures TextOrder(a, b, signed) < 0 <==> Precedes(a, b, signed)
    ensures TextOrder(a, b, signed) > 0 <==> Precedes(b, a, signed)
  {
    Precedence(a, b, signed);
    Precedence(b, a, signed);
    TextOrderFlips(a, b, signed);
  }

  lemma Precedence(a: Text, b: Text, signed: bool)
    ensures TextOrder(a, b, signed) < 0 <==> Precedes(a, b, signed)
  {
    var k := Common(a, b);
    if TextOrder(a, b, signed) < 0 {
      if k < |a| && k < |b| {
        BeforeIsRank(a[k], b[k], k, signed);
        assert DifferAt(a, b, a[..k], a[k], a[k + 1..], b[k], b[k + 1..], signed);
      } else {
        assert Continues(a, b, b[k..]);
      }
    }
    if Precedes(a, b, signed) {
      if rest :| Continues(a, b, rest) {
        ContinuesGives(a, b, rest, signed);
      } else {
        var p, x, u, y, v :| DifferAt(a, b, p, x, u, y, v, signed);
        DifferGives(a, b, p, x, u, y, v, signed);
      }
    }
  }

  /** The difference of the first bytes that differ among the first n. */
  method MemCmp(a: Text, b: Text, n: nat) returns (diff: int)
    requires n <= |a| && n <= |b|
    ensures diff == 0 ==> Common(a, b) >= n
    ensures diff != 0 ==> Common(a, b) < n && diff == a[Common(a, b)] as int - b[Common(a, b)] as int
  {
    var k := 0;
    while k < n && a[k] == b[k]
      invariant 0 <= k <= n
      invariant forall i :: 0 <= i < k ==> a[i] == b[i]
    {
      k := k + 1;
    }
    if k < n {
      CommonIs(a, b, k);
      diff := a[k] as int - b[k] as int;
    } else {
      diff := 0;
    }
  }

  method Compare(a: Text, b: Text, signed: bool, reverse: bool) returns (diff: int)
    ensures diff == if reverse then -TextOrder(a, b, signed) else TextOrder(a, b, signed)
    ensures diff < 0 <==> if reverse then Precedes(b, a, signed) else Precedes(a, b, signed)
    ensures diff > 0 <==> if reverse then Precedes(a, b, signed) else Precedes(b, a, signed)
    ensures diff == 0 <==> a == b
  {
    hide Precedes;
    TextOrderIsPrecedence(a, b, signed);
    EqualIsIdentical(a, b, signed);
    var mini := if |a| < |b| then |a| else |b|;
    if mini == 0 {
      diff := |a| - |b|;
    } else {
      diff := Rank(a[0], 0, signed) - Rank(b[0], 0, signed);
      if diff == 0 {
        if a[0] != b[0] {
          RankDiffers(a[0], b[0], 0, signed);
        }
        diff := MemCmp(a, b, mini);
        if diff == 0 {
          diff := |a| - |b|;
        }
      }
    }
    if reverse {
      diff := -diff;
    }
  }
}
