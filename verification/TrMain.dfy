/** main of gnu/src/tr.c: the translation table, and what tr does with its input in each of
    its modes. */
module TrMain {
  import opened TrFilter
  import opened TrSpec
  import opened TrTable

  /** Upper case may stand only against lower case, and other constructs against others. */
  predicate ClassOk(k1: Kind, k2: Kind) {
    (k1 == Lower && k2 == Upper) || (k1 == Upper && k2 == Lower) || (k1 == NoCase && k2 == NoCase)
  }

  function KindOf(item: Option<Item>): Kind {
    if item.Some? then item.value.kind else NoCase
  }

  function KindAt(e: seq<Item>, k: nat): Kind {
    if k < |e| then e[k].kind else NoCase
  }

  /** Case classes stand against each other as far as string2 goes, and none of string1 is
      where string2 ends. */
  ghost predicate Aligned(e1: seq<Item>, e2: seq<Item>) {
    forall k: nat {:trigger KindAt(e1, k)} :: k <= |e2| ==>
      && (KindAt(e1, k) == Lower <==> KindAt(e2, k) == Upper)
      && (KindAt(e1, k) == Upper <==> KindAt(e2, k) == Lower)
  }

  /** How many characters of string1 have a partner. */
  function Paired(e1: seq<Item>, e2: seq<Item>): (n: nat)
    ensures n <= |e1| && n <= |e2|
  {
    if |e1| < |e2| then |e1| else |e2|
  }

  /** What c becomes: the partner of its last occurrence among the first n of string1. */
  function Image(e1: seq<Item>, e2: seq<Item>, n: nat, c: Char): Char
    requires n <= |e1| && n <= |e2|
  {
    if n == 0 then c else if e1[n - 1].c == c then e2[n - 1].c else Image(e1, e2, n - 1, c)
  }

  ghost function Images(e1: seq<Item>, e2: seq<Item>): Char -> Char {
    (c: Char) => Image(e1, e2, Paired(e1, e2), c)
  }

  /** The partner of the last occurrence, and the character itself if there is none. */
  lemma {:induction false} ImageOfLast(e1: seq<Item>, e2: seq<Item>, n: nat, c: Char)
    requires n <= |e1| && n <= |e2|
    ensures (forall k :: 0 <= k < n ==> e1[k].c != c) ==> Image(e1, e2, n, c) == c
    ensures forall k :: 0 <= k < n && e1[k].c == c && (forall j :: k < j < n ==> e1[j].c != c) ==> Image(e1, e2, n, c) == e2[k].c
    decreases n
  {
    if n > 0 && e1[n - 1].c != c {
      ImageOfLast(e1, e2, n - 1, c);
    }
  }

  method Identity() returns (xlate: array<Char>)
    ensures fresh(xlate) && xlate.Length == 256 && forall c: Char :: xlate[c] == c
  {
    xlate := new Char[256];
    var i := 0;
    while i < 256
      invariant 0 <= i <= 256
      invariant forall c: Char :: c < i ==> xlate[c] == c
    {
      xlate[i] := i;
      i := i + 1;
    }
  }

  /** Pairs the characters of the two expansions until string2 ends.  What string2 has more
      than string1 is stored in front of the table, one over the other. */
  method BuildTable(s1: SpecList, s2: SpecList) returns (ok: bool, xlate: array<Char>, front: Option<Char>)
    requires s1 != s2 && s1.Valid() && s2.Valid() && NoneOverlong(s1.list) && NoneOverlong(s2.list)
    modifies s1`at, s2`at
    ensures ok <==> Aligned(s1.All(), s2.All())
    ensures fresh(xlate) && xlate.Length == 256
    ensures ok ==> forall c: Char :: xlate[c] == Image(s1.All(), s2.All(), Paired(s1.All(), s2.All()), c)
    ensures ok ==> front == if |s2.All()| <= |s1.All()| then None else Some(s2.All()[|s2.All()| - 1].c)
  {
    hide ExpansionFrom, Next, After;
    xlate := Identity();
    front := None;
    s1.Begin();
    s2.Begin();
    ghost var e1, e2 := s1.All(), s2.All();
    ghost var n: nat := 0;
    while true
      invariant n <= |e2| && s1.Given(n) && s2.Given(n)
      invariant forall k: nat {:trigger KindAt(e1, k)} :: k < n ==> ClassOk(KindAt(e1, k), KindAt(e2, k))
      invariant forall c: Char :: xlate[c] == Image(e1, e2, if n <= |e1| then n else |e1|, c)
      invariant front == if n <= |e1| then None else Some(e2[n - 1].c)
      decreases |e2| - n
    {
      var c1 := s1.GetOneMore(n);
      var c2 := s2.GetOneMore(n);
      if !ClassOk(KindOf(c1), KindOf(c2)) {
        assert !ClassOk(KindAt(e1, n), KindAt(e2, n));
        return false, xlate, front;
      }
      if c2 == None {
        break;
      }
      if c1 == None {
        front := Some(c2.value.c);
      } else {
        xlate[c1.value.c] := c2.value.c;
      }
      n := n + 1;
    }
    ok := true;
  }

  /** How many codes below i are not in the set. */
  function Rank(inSet: set<Char>, i: nat): nat
    requires i <= 256
  {
    if i == 0 then 0 else Rank(inSet, i - 1) + if i - 1 in inSet then 0 else 1
  }

  /** What c becomes when the complement of string1 is translated. */
  function ComplementImage(inSet: set<Char>, e2: seq<Item>, c: Char): Char {
    if c in inSet || Rank(inSet, c) >= |e2| then c else e2[Rank(inSet, c)].c
  }

  ghost function ComplementImages(e1: seq<Item>, e2: seq<Item>): Char -> Char {
    (c: Char) => ComplementImage(Codes(e1), e2, c)
  }

  /** Pairs the characters not in string1, in order, with those of string2; tells whether
      neither has any left. */
  method BuildComplementTable(s1: SpecList, s2: SpecList) returns (xlate: array<Char>, exact: bool)
    requires s1 != s2 && s1.Valid() && s2.Valid() && NoneOverlong(s1.list) && NoneOverlong(s2.list)
    modifies s1`at, s2`at
    ensures fresh(xlate) && xlate.Length == 256
    ensures forall c: Char :: xlate[c] == ComplementImage(Codes(s1.All()), s2.All(), c)
    ensures exact <==> Rank(Codes(s1.All()), 256) == |s2.All()|
  {
    hide ExpansionFrom, Next, After;
    var in1 := s1.SetInitialize(false);
    xlate := Identity();
    s2.Begin();
    ghost var inSet := Codes(s1.All());
    ghost var e2 := s2.All();
    var i: nat := 0;
    exact := true;
    while i < 256
      invariant 0 <= i <= 256 && s2.Given(Rank(inSet, i)) && Rank(inSet, i) <= |e2|
      invariant exact && forall c: Char :: in1[c] <==> c in inSet
      invariant forall c: Char :: xlate[c] == if c < i then ComplementImage(inSet, e2, c) else c
    {
      if !in1[i] {
        var c := s2.GetOneMore(Rank(inSet, i));
        if c == None {
          RankGrows(inSet, i);
          exact := false;
          break;
        }
        xlate[i] := c.value.c;
      }
      i := i + 1;
    }
    if exact {
      var c := s2.GetOneMore(Rank(inSet, 256));
      exact := c == None;
    }
  }

  lemma {:induction false} RankGrows(inSet: set<Char>, i: nat)
    requires i < 256 && i !in inSet
    ensures forall c: Char :: c >= i ==> Rank(inSet, c) >= Rank(inSet, i)
    ensures Rank(inSet, 256) > Rank(inSet, i)
  {
    RankMonotone(inSet, i + 1, 256);
    forall c: Char | c >= i ensures Rank(inSet, c) >= Rank(inSet, i) {
      RankMonotone(inSet, i, c);
    }
  }

  lemma {:induction false} RankMonotone(inSet: set<Char>, i: nat, j: nat)
    requires i <= j <= 256
    ensures Rank(inSet, i) <= Rank(inSet, j)
    decreases j
  {
    if i < j {
      RankMonotone(inSet, i, j - 1);
    }
  }

  // ---------------------------------------------------------------- the modes

  function Members(inSet: seq<bool>): CharSet
    requires |inSet| == 256
  {
    (c: Char) => inSet[c]
  }

  function Table(xlate: seq<Char>): Char -> Char
    requires |xlate| == 256
  {
    (c: Char) => xlate[c]
  }

  /** The characters in the expansion, or those not in it. */
  ghost function Chosen(all: seq<Item>, complement: bool): CharSet {
    (c: Char) => (c in Codes(all)) != complement
  }

  /** A filter depends on which characters are in the set only. */
  lemma {:induction false} SqueezedSame(s: seq<Char>, n: nat, p: CharSet, q: CharSet)
    requires n <= |s| && forall c: Char :: p(c) <==> q(c)
    ensures SqueezedTo(s, n, p) == SqueezedTo(s, n, q)
  {
    if n > 0 {
      SqueezedSame(s, n - 1, p, q);
    }
  }

  lemma {:induction false} KeptSame(s: seq<Char>, p: CharSet, q: CharSet)
    requires forall c: Char :: p(c) <==> q(c)
    ensures Kept(s, p) == Kept(s, q)
  {
    if s != [] {
      KeptSame(s[1..], p, q);
    }
  }

  lemma {:induction false} MappedSame(s: seq<Char>, f: Char -> Char, g: Char -> Char)
    requires forall c: Char :: f(c) == g(c)
    ensures Mapped(s, f) == Mapped(s, g)
  {
  }

  /** tr -s string1 */
  method SqueezeOnly(s1: SpecList, complement: bool, buf: array<Char>, input: Input) returns (out: seq<Char>)
    requires s1.Valid() && NoneOverlong(s1.list) && buf.Length > 0 && input.Valid()
    modifies s1`at, buf, input
    ensures out == Squeezed(old(input.rest), Chosen(s1.All(), complement))
  {
    var inSet := s1.SetInitialize(complement);
    var squeezed := Members(inSet[..]);
    out := SqueezeFilter(buf, input, Plain, squeezed);
    SqueezedSame(old(input.rest), |old(input.rest)|, squeezed, Chosen(s1.All(), complement));
  }

  /** Reads and writes until a reader gives nothing more. */
  method CopyThrough(buf: array<Char>, input: Input, reader: Reader) returns (out: seq<Char>)
    requires buf.Length > 0 && input.Valid()
    modifies buf, input
    ensures out == Through(reader, old(input.rest))
  {
    out := [];
    ghost var all := Through(reader, input.rest);
    var nr: nat := input.Read(buf, reader);
    while nr > 0
      invariant nr <= buf.Length && input.Valid()
      invariant out + (buf[..nr] + Through(reader, input.rest)) == all
      invariant nr == 0 ==> Through(reader, input.rest) == []
      decreases |Through(reader, input.rest)| + nr
    {
      out := out + buf[..nr];
      nr := input.Read(buf, reader);
    }
  }

  /** tr -d string1 */
  method DeleteOnly(s1: SpecList, complement: bool, buf: array<Char>, input: Input) returns (out: seq<Char>)
    requires s1.Valid() && NoneOverlong(s1.list) && buf.Length > 0 && input.Valid()
    modifies s1`at, buf, input
    ensures out == Kept(old(input.rest), Chosen(s1.All(), complement))
  {
    var inSet := s1.SetInitialize(complement);
    var deleted := Members(inSet[..]);
    out := CopyThrough(buf, input, Deleting(deleted));
    KeptSame(old(input.rest), deleted, Chosen(s1.All(), complement));
  }

  /** tr -ds string1 string2 */
  method DeleteAndSqueeze(s1: SpecList, s2: SpecList, complement: bool, buf: array<Char>, input: Input) returns (out: seq<Char>)
    requires s1 != s2 && s1.Valid() && s2.Valid() && NoneOverlong(s1.list) && NoneOverlong(s2.list)
    requires buf.Length > 0 && input.Valid()
    modifies s1`at, s2`at, buf, input
    ensures out == Squeezed(Kept(old(input.rest), Chosen(s1.All(), complement)), Chosen(s2.All(), false))
  {
    var inDelete := s1.SetInitialize(complement);
    var deleted := Members(inDelete[..]);
    var inSqueeze := s2.SetInitialize(false);
    var squeezed := Members(inSqueeze[..]);
    out := SqueezeFilter(buf, input, Deleting(deleted), squeezed);
    KeptSame(old(input.rest), deleted, Chosen(s1.All(), complement));
    var kept := Kept(old(input.rest), deleted);
    SqueezedSame(kept, |kept|, squeezed, Chosen(s2.All(), false));
  }

  ghost predicate HasCase(list: seq<Element>) {
    exists i :: 0 <= i < |list| && list[i].Class? && list[i].kind != NoCase
  }

  ghost predicate HasRestricted(list: seq<Element>) {
    exists i :: 0 <= i < |list| && list[i].Class? && list[i].kind == NoCase
  }

  ghost predicate HasEquivalent(list: seq<Element>) {
    exists i :: 0 <= i < |list| && list[i].Equivalent?
  }

  /** Looks for the constructs that not every string may have. */
  method Flags(list: seq<Element>) returns (hasCase: bool, restricted: bool, equivalent: bool)
    ensures hasCase <==> HasCase(list)
    ensures restricted <==> HasRestricted(list)
    ensures equivalent <==> HasEquivalent(list)
  {
    hasCase, restricted, equivalent := false, false, false;
    var p: nat := 0;
    while p < |list|
      invariant 0 <= p <= |list|
      invariant hasCase <==> HasCase(list[..p])
      invariant restricted <==> HasRestricted(list[..p])
      invariant equivalent <==> HasEquivalent(list[..p])
    {
      OneMore(list, p);
      if list[p].Class? {
        if list[p].kind != NoCase {
          hasCase := true;
        } else {
          restricted := true;
        }
      } else if list[p].Equivalent? {
        equivalent := true;
      }
      p := p + 1;
    }
    assert list[..p] == list;
  }

  lemma OneMore(list: seq<Element>, p: nat)
    requires p < |list|
    ensures HasCase(list[..p + 1]) <==> HasCase(list[..p]) || (list[p].Class? && list[p].kind != NoCase)
    ensures HasRestricted(list[..p + 1]) <==> HasRestricted(list[..p]) || (list[p].Class? && list[p].kind == NoCase)
    ensures HasEquivalent(list[..p + 1]) <==> HasEquivalent(list[..p]) || list[p].Equivalent?
  {
    var a, b := list[..p + 1], list[..p];
    assert a[p] == list[p] && forall i :: 0 <= i < p ==> a[i] == b[i];
  }

  /** What validate accepts when translating. */
  ghost predicate Acceptable(list1: seq<Element>, list2: seq<Element>, complement: bool) {
    && Indefinites(list1, 0) == 0 && Indefinites(list2, 0) <= 1
    && !HasRestricted(list2) && !HasEquivalent(list2)
    && (complement ==> !HasCase(list1) && !HasCase(list2))
  }

  /** What validate makes of string2: a [c*] construct is filled up to length1 characters,
      or else the last character is repeated. */
  ghost predicate Equalized(was: seq<Element>, now: seq<Element>, length1: int, truncate: bool) {
    var old2, new2 := ExpansionFrom(was, 0), ExpansionFrom(now, 0);
    if |old2| >= length1 then now == was
    else if Indefinites(was, 0) == 1 then |new2| == length1 && FilledIn(was, now, length1 - |old2|)
    else if |old2| == 0 || truncate then now == was
    else new2 == old2 + Copies(old2[|old2| - 1].c, length1 - |old2|)
  }

  /** validate, when translating. */
  method Validate(s1: SpecList, s2: SpecList, complement: bool, truncate: bool) returns (ok: bool)
    requires s1 != s2 && s1.Valid() && s2.Valid() && NoneOverlong(s1.list)
    modifies s1`list, s1`length, s1`indefinite, s1`at, s2`list, s2`length, s2`indefinite
    ensures s1.Valid() && s2.Valid() && s1.list == old(s1.list)
    ensures ok <==> Acceptable(s1.list, old(s2.list), complement)
    ensures ok ==> s1.length == if complement then 256 - |Codes(s1.All())| else |s1.All()|
    ensures ok ==> Equalized(old(s2.list), s2.list, s1.length, truncate) && s2.length == |s2.All()|
  {
    ok := false;
    s1.GetStats(-1);
    if complement {
      var cardinality := s1.CardOfComplement();
      s1.length := cardinality;
    }
    if s1.indefinite > 0 {
      return;
    }
    var case1, _, _ := Flags(s1.list);
    if complement && case1 {
      return;
    }
    var case2, restricted, equivalent := Flags(s2.list);
    s2.GetStats(s1.length);
    if restricted || s2.indefinite > 1 || equivalent {
      return;
    }
    FilledWithNothing(old(s2.list), s2.list);
    if s1.length > s2.length && !truncate {
      NoIndefinite(s2.list, 0);
      s2.Extend(s1.length);
    }
    if complement && case2 {
      return;
    }
    ok := true;
  }

  /** After validation a string2 that was not empty is at least as long as string1, unless
      truncation was asked for. */
  lemma EqualizedIsLong(was: seq<Element>, now: seq<Element>, length1: int, truncate: bool)
    requires Equalized(was, now, length1, truncate) && !truncate && Indefinites(was, 0) <= 1
    requires |ExpansionFrom(was, 0)| > 0 || Indefinites(was, 0) == 1
    ensures |ExpansionFrom(now, 0)| >= length1
    ensures |ExpansionFrom(was, 0)| <= length1 ==> |ExpansionFrom(now, 0)| == length1
  {
  }

  lemma FilledWithNothing(was: seq<Element>, now: seq<Element>)
    ensures FilledIn(was, now, 0) ==> now == was
  {
  }

  lemma {:induction false} NoIndefinite(list: seq<Element>, i: nat)
    requires Indefinites(list, i) == 0
    ensures forall k :: i <= k < |list| ==> !Indefinite(list[k])
    decreases |list| - i
  {
    if i < |list| {
      NoIndefinite(list, i + 1);
    }
  }

  /** tr [-s] string1 string2, once string2 is as long as it will be. */
  method Translate(s1: SpecList, s2: SpecList, squeeze: bool, buf: array<Char>, input: Input) returns (ok: bool, out: seq<Char>)
    requires s1 != s2 && s1.Valid() && s2.Valid() && NoneOverlong(s1.list) && NoneOverlong(s2.list)
    requires buf.Length > 0 && input.Valid()
    modifies s1`at, s2`at, buf, input
    ensures ok <==> Aligned(s1.All(), s2.All())
    ensures ok && squeeze ==>
      out == Squeezed(Mapped(old(input.rest), Images(s1.All(), s2.All())), Chosen(s2.All(), false))
    ensures ok && !squeeze ==> out == Mapped(old(input.rest), Images(s1.All(), s2.All()))
  {
    var xlate;
    out := [];
    var front;
    ok, xlate, front := BuildTable(s1, s2);
    if !ok {
      return;
    }
    ghost var e1, e2 := s1.All(), s2.All();
    ghost var image := Images(e1, e2);
    var table := Table(xlate[..]);
    MappedSame(input.rest, table, image);
    if squeeze {
      var inSet := s2.SetInitialize(false);
      var squeezed := Members(inSet[..]);
      out := SqueezeFilter(buf, input, Translating(table), squeezed);
      var mapped := Mapped(old(input.rest), table);
      SqueezedSame(mapped, |mapped|, squeezed, Chosen(s2.All(), false));
    } else {
      out := CopyThrough(buf, input, Translating(table));
    }
  }

  /** tr -c [-s] string1 string2, which aborts unless string2 has a character for each of
      those not in string1 and no more, or truncation was asked for. */
  method TranslateComplement(s1: SpecList, s2: SpecList, truncate: bool, squeeze: bool, buf: array<Char>, input: Input)
    returns (ok: bool, out: seq<Char>)
    requires s1 != s2 && s1.Valid() && s2.Valid() && NoneOverlong(s1.list) && NoneOverlong(s2.list)
    requires buf.Length > 0 && input.Valid()
    modifies s1`at, s2`at, buf, input
    ensures ok <==> truncate || Rank(Codes(s1.All()), 256) == |s2.All()|
    ensures ok && squeeze ==>
      out == Squeezed(Mapped(old(input.rest), ComplementImages(s1.All(), s2.All())), Chosen(s2.All(), false))
    ensures ok && !squeeze ==> out == Mapped(old(input.rest), ComplementImages(s1.All(), s2.All()))
  {
    hide ExpansionFrom, Next, After, Rank, ComplementImage;
    var xlate, exact;
    out := [];
    xlate, exact := BuildComplementTable(s1, s2);
    ok := truncate || exact;
    if !ok {
      return;
    }
    var table := Table(xlate[..]);
    MappedSame(input.rest, table, ComplementImages(s1.All(), s2.All()));
    if squeeze {
      var inSet := s2.SetInitialize(false);
      var squeezed := Members(inSet[..]);
      out := SqueezeFilter(buf, input, Translating(table), squeezed);
      var mapped := Mapped(old(input.rest), table);
      SqueezedSame(mapped, |mapped|, squeezed, Chosen(s2.All(), false));
    } else {
      out := CopyThrough(buf, input, Translating(table));
    }
  }
}
