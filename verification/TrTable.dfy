/** Sets and tables built in gnu/src/tr.c by iterating over specifications: lengths, the
    filling of string2, the sets to delete and squeeze, and the translation table. */
module TrTable {
  import opened TrFilter
  import opened TrSpec

  // ---------------------------------------------------------------- lengths

  function Sum(list: seq<Element>, i: nat): nat
    decreases |list| - i
  {
    if i >= |list| then 0 else |Expansion(list[i])| + Sum(list, i + 1)
  }

  lemma {:induction false} SumIsLength(list: seq<Element>, i: nat)
    ensures |ExpansionFrom(list, i)| == Sum(list, i)
    decreases |list| - i
  {
    if i < |list| {
      SumIsLength(list, i + 1);
    }
  }

  predicate Indefinite(e: Element) {
    e.Repeated? && e.count == 0
  }

  /** How many [c*] constructs there are from i on. */
  function Indefinites(list: seq<Element>, i: nat): nat
    decreases |list| - i
  {
    if i >= |list| then 0 else (if Indefinite(list[i]) then 1 else 0) + Indefinites(list, i + 1)
  }

  /** Giving a construct without an expansion n characters makes the whole n longer. */
  lemma {:induction false} FilledSum(list: seq<Element>, k: nat, n: nat, i: nat)
    requires i <= k < |list| && Indefinite(list[k])
    ensures Sum(list[k := Repeated(list[k].c, n)], i) == Sum(list, i) + n
    decreases |list| - i
  {
    hide Members, Span;
    var r := list[k := Repeated(list[k].c, n)];
    if i < k {
      FilledSum(list, k, n, i + 1);
    } else {
      SameSum(list, r, k + 1);
    }
  }

  lemma {:induction false} SameSum(list: seq<Element>, r: seq<Element>, i: nat)
    requires |r| == |list| && (forall k :: i <= k < |list| ==> r[k] == list[k])
    ensures Sum(r, i) == Sum(list, i)
    decreases |list| - i
  {
    if i < |list| {
      SameSum(list, r, i + 1);
    }
  }

  lemma {:induction false} AppendedExpansion(list: seq<Element>, e: Element, i: nat)
    requires i <= |list|
    ensures ExpansionFrom(list + [e], i) == ExpansionFrom(list, i) + Expansion(e)
    decreases |list| - i
  {
    hide Expansion;
    var r := list + [e];
    if i < |list| {
      AppendedExpansion(list, e, i + 1);
    } else {
      assert ExpansionFrom(r, i + 1) == [];
    }
  }

  // ---------------------------------------------------------------- members of classes

  function Count(e: Element, from: nat): nat
    requires e.Class?
    decreases e, 256 - from
  {
    if from >= 256 then 0 else (if e.member(from) then 1 else 0) + Count(e, from + 1)
  }

  lemma {:induction false} CountIsLength(e: Element, from: nat)
    requires e.Class?
    ensures |Members(e, from)| == Count(e, from)
    decreases 256 - from
  {
    if from < 256 {
      CountIsLength(e, from + 1);
    }
  }

  method CountMembers(e: Element) returns (n: nat)
    requires e.Class?
    ensures n == |Expansion(e)|
  {
    n := 0;
    var i: nat := 0;
    while i < 256
      invariant 0 <= i <= 256 && n + Count(e, i) == Count(e, 0)
    {
      if e.member(i) {
        n := n + 1;
      }
      i := i + 1;
    }
    CountIsLength(e, 0);
  }

  // ---------------------------------------------------------------- the specification

  /** get_spec_stats insists on ranges that are not single. */
  predicate Proper(e: Element) {
    Parsed(e) && (e.Range? ==> e.first < e.last)
  }

  /** Looks for a member of a class from a code on. */
  method NextMember(e: Element, from: nat) returns (i: nat)
    requires e.Class?
    ensures if from <= 256 then i == FirstMember(e, from) else i >= 256
  {
    i := from;
    while i < 256 && !e.member(i)
      invariant from <= i && (from <= 256 ==> i <= 256) && FirstMember(e, i) == FirstMember(e, from)
      decreases 256 - i
    {
      i := i + 1;
    }
  }

  class SpecList {
    var list: seq<Element>
    var at: Cursor
    var length: nat
    var indefinite: nat

    ghost predicate Valid()
      reads this
    {
      forall i :: 0 <= i < |list| ==> Proper(list[i])
    }

    /** As the parser leaves it. */
    constructor (elements: seq<Element>)
      requires forall i :: 0 <= i < |elements| ==> Proper(elements[i])
      ensures Valid() && list == elements
    {
      list, at, length, indefinite := elements, Cursor(|elements|, NEW_ELEMENT), 0, 0;
    }

    function All(): seq<Item>
      reads this
    {
      ExpansionFrom(list, 0)
    }

    method Begin()
      modifies this`at
      ensures at.state == BEGIN_STATE
    {
      at := at.(state := BEGIN_STATE);
    }

    /** The next character, or none when the last was given before. */
    method GetNext() returns (item: Option<Item>)
      modifies this`at
      ensures item == Next(list, old(at)).item && at == Next(list, old(at)).at
      decreases if at.state == BEGIN_STATE then |list| + 1 else if at.tail < |list| then |list| - at.tail else 0
    {
      hide FirstMember;
      if at.state == BEGIN_STATE {
        at := Cursor(0, NEW_ELEMENT);
      }
      if at.tail >= |list| {
        return None;
      }
      var p := list[at.tail];
      match p
      case Normal(c) =>
        item := Some(Item(c, NoCase));
        PassElement();
      case Equivalent(c) =>
        item := Some(Item(c, NoCase));
        PassElement();
      case Range(first, last) =>
        at := at.(state := if at.state == NEW_ELEMENT then first else at.state + 1);
        item := Some(Item(at.state % 256, NoCase));
        if at.state == last {
          PassElement();
        }
      case Class(_, _) =>
        item := NextOfClass();
      case Repeated(c, count) =>
        if count == 0 {
          PassElement();
          item := GetNext();
        } else {
          if at.state == NEW_ELEMENT {
            at := at.(state := 0);
          }
          at := at.(state := at.state + 1);
          item := Some(Item(c, NoCase));
          if at.state == count {
            PassElement();
          }
        }
    }

    /** The member the iterator stands at; it goes on to the next one. */
    method NextOfClass() returns (item: Option<Item>)
      requires at.tail < |list| && list[at.tail].Class?
      modifies this`at
      ensures var step := Step(list[old(at).tail], old(at).state);
              && item == Some(step.item)
              && at == if step.state == None then Cursor(old(at).tail + 1, NEW_ELEMENT) else old(at).(state := step.state.value)
    {
      hide FirstMember;
      var p := list[at.tail];
      if at.state == NEW_ELEMENT {
        var s := NextMember(p, 0);
        at := at.(state := s);
      }
      item := Some(Item(at.state % 256, p.kind));
      var i := NextMember(p, at.state + 1);
      if i < 256 {
        at := at.(state := i);
      } else {
        PassElement();
      }
    }

    /** On to the next element. */
    method PassElement()
      modifies this`at
      ensures at == Cursor(old(at).tail + 1, NEW_ELEMENT)
    {
      at := Cursor(at.tail + 1, NEW_ELEMENT);
    }

    /** n characters have been given since the iteration began. */
    ghost predicate Given(n: nat)
      reads this
    {
      if n == 0 then at.state == BEGIN_STATE else at == After(list, n)
    }

    method GetOneMore(ghost n: nat) returns (item: Option<Item>)
      requires Valid() && NoneOverlong(list) && Given(n)
      modifies this`at
      ensures item == if n < |All()| then Some(All()[n]) else None
      ensures Given(n + 1)
    {
      CallGives(list, All(), n);
      item := GetNext();
    }

    /** The length of the expansion and the number of [c*] constructs. If there is one of
        these and len1 is not too short, it is given what is missing to len1. */
    method GetStats(len1: int)
      requires Valid()
      modifies this`list, this`length, this`indefinite
      ensures Valid()
      ensures indefinite == Indefinites(old(list), 0)
      ensures length == |All()|
      ensures var len := |old(All())|;
        if len1 >= len && indefinite == 1 then length == len1 && FilledIn(old(list), list, len1 - len)
        else list == old(list)
    {
      var len, n, k := Measure();
      if len1 >= len && n == 1 {
        FilledSum(list, k, len1 - len, 0);
        list := list[k := Repeated(list[k].c, len1 - len)];
        SumIsLength(list, 0);
        len := len1;
      }
      length, indefinite := len, n;
    }

    method Measure() returns (len: nat, n: nat, k: nat)
      requires Valid()
      ensures len == |All()| == Sum(list, 0) && n == Indefinites(list, 0)
      ensures n > 0 ==> k < |list| && Indefinite(list[k])
    {
      len, n, k := 0, 0, 0;
      var p: nat := 0;
      while p < |list|
        invariant 0 <= p <= |list|
        invariant len + Sum(list, p) == Sum(list, 0)
        invariant n + Indefinites(list, p) == Indefinites(list, 0)
        invariant n > 0 ==> k < |list| && Indefinite(list[k])
      {
        hide Expansion;
        var more := ElementLength(list[p]);
        len := len + more;
        if Indefinite(list[p]) {
          k := p;
          n := n + 1;
        }
        p := p + 1;
      }
      SumIsLength(list, 0);
    }

    /** Repeats the last character of the expansion until it is as long as the other. */
    method Extend(length1: nat)
      requires Valid() && length == |All()| && length1 > length
      requires forall i :: 0 <= i < |list| ==> !Indefinite(list[i]) && !list[i].Equivalent?
      modifies this`list, this`length
      ensures Valid()
      ensures old(All()) == [] ==> list == old(list) && length == 0
      ensures old(All()) != [] ==> All() == old(All()) + Copies(old(All())[|old(All())| - 1].c, length1 - |old(All())|)
      ensures old(All()) != [] ==> length == |All()| == length1
      ensures old(All()) != [] ==> list == old(list) + [Repeated(old(All())[|old(All())| - 1].c, length1 - |old(All())|)]
    {
      if length == 0 {
        return;
      }
      LastIsLast(list);
      var last := LastChar(list[|list| - 1]);
      var filler := Repeated(last, length1 - length);
      AppendedExpansion(list, filler, 0);
      list := list + [filler];
      length := length1;
    }

    /** How many of the 256 characters are not in the expansion. */
    method CardOfComplement() returns (cardinality: int)
      requires Valid() && NoneOverlong(list)
      modifies this`at
      ensures cardinality == 256 - |Codes(All())| && cardinality >= 0
    {
      var inSet := new bool[256](_ => false);
      cardinality := 256;
      Begin();
      ghost var n: nat, seen: set<Char> := 0, {};
      assert All()[..0] == [];
      while true
        invariant n <= |All()| && Given(n)
        invariant seen == Codes(All()[..n]) && cardinality + |seen| == 256
        invariant forall c: Char :: inSet[c] <==> c in seen
        decreases |All()| - n
      {
        hide ExpansionFrom, After, Next;
        var item := GetOneMore(n);
        if item == None {
          break;
        }
        NextCode(All(), n);
        var c := item.value.c;
        var already := Mark(inSet, c, seen);
        if !already {
          cardinality := cardinality - 1;
        }
        seen := seen + {c};
        n := n + 1;
      }
      assert All()[..n] == All();
      AtMost(seen, 256);
    }

    /** Membership in the expansion, or in its complement. */
    method SetInitialize(complement: bool) returns (inSet: array<bool>)
      requires Valid() && NoneOverlong(list)
      modifies this`at
      ensures fresh(inSet) && inSet.Length == 256
      ensures forall c: Char :: inSet[c] <==> (c in Codes(All())) != complement
    {
      inSet := new bool[256](_ => false);
      Begin();
      ghost var n: nat := 0;
      assert All()[..0] == [];
      while true
        invariant n <= |All()| && Given(n)
        invariant forall c: Char :: inSet[c] <==> c in Codes(All()[..n])
        decreases |All()| - n
      {
        var item := GetOneMore(n);
        if item == None {
          break;
        }
        NextCode(All(), n);
        inSet[item.value.c] := true;
        n := n + 1;
      }
      assert All()[..n] == All();
      if complement {
        Invert(inSet);
      }
    }
  }

  lemma {:induction false} AtMost(s: set<Char>, n: nat)
    requires forall c :: c in s ==> c < n
    ensures |s| <= n
    decreases n
  {
    if s != {} && n > 0 {
      var rest := s - {n - 1};
      AtMost(rest, n - 1);
      assert |s| <= |rest| + 1;
    }
  }

  /** Marks a character; tells whether it was marked before. */
  method Mark(inSet: array<bool>, c: Char, ghost seen: set<Char>) returns (already: bool)
    requires inSet.Length == 256 && (forall d: Char :: inSet[d] <==> d in seen)
    modifies inSet
    ensures forall d: Char :: inSet[d] <==> d in seen + {c}
    ensures |seen + {c}| == |seen| + if already then 0 else 1
  {
    already := inSet[c];
    inSet[c] := true;
    assert c in seen ==> seen + {c} == seen;
  }

  /** The greatest member below a code, or the code itself. */
  function LastMember(e: Element, below: nat): (i: nat)
    requires e.Class? && below <= 256 && exists c: Char :: c < below && e.member(c)
    ensures i < below && e.member(i)
    ensures forall c: Char :: i < c < below ==> !e.member(c)
    decreases e, below
  {
    if e.member(below - 1) then below - 1 else LastMember(e, below - 1)
  }

  /** The character string2 is extended with. */
  function LastChar(e: Element): Char
    requires Parsed(e) && !e.Equivalent?
  {
    match e
    case Normal(c) => c
    case Range(_, last) => last
    case Class(_, member) => LastMember(e, 256)
    case Repeated(c, _) => c
  }

  lemma {:induction false} SpanLast(first: nat, last: nat)
    requires first <= last < 256
    ensures Span(first, last)[last - first] == Item(last, NoCase)
    decreases last - first
  {
    if first < last {
      SpanLast(first + 1, last);
    }
  }

  lemma {:induction false} CopiesAll(c: Char, n: nat, k: nat)
    requires k < n
    ensures Copies(c, n)[k] == Item(c, NoCase)
    decreases n
  {
    if k > 0 {
      CopiesAll(c, n - 1, k - 1);
    }
  }

  lemma {:induction false} MembersLast(e: Element, from: nat, i: Char)
    requires e.Class? && from <= i && e.member(i) && forall c: Char :: c > i ==> !e.member(c)
    ensures Members(e, from) != [] && Members(e, from)[|Members(e, from)| - 1].c == i
    decreases 256 - from
  {
    if from < i {
      MembersLast(e, from + 1, i);
    } else {
      NoMembers(e, i + 1);
    }
  }

  lemma {:induction false} NoMembers(e: Element, from: nat)
    requires e.Class? && forall c: Char :: c >= from ==> !e.member(c)
    ensures Members(e, from) == []
    decreases 256 - from
  {
    if from < 256 {
      NoMembers(e, from + 1);
    }
  }

  lemma LastOfElement(e: Element)
    requires Parsed(e) && !e.Equivalent? && !Indefinite(e)
    ensures Expansion(e) != [] && Expansion(e)[|Expansion(e)| - 1].c == LastChar(e)
  {
    match e
    case Normal(_) =>
    case Range(first, last) => SpanLast(first, last);
    case Class(_, _) => MembersLast(e, 0, LastMember(e, 256));
    case Repeated(c, count) => CopiesAll(c, count, count - 1);
  }

  /** The last character of the last element is that of the expansion. */
  lemma LastIsLast(list: seq<Element>)
    requires list != [] && Parsed(list[|list| - 1]) && !list[|list| - 1].Equivalent? && !Indefinite(list[|list| - 1])
    ensures ExpansionFrom(list, 0) != []
    ensures ExpansionFrom(list, 0)[|ExpansionFrom(list, 0)| - 1].c == LastChar(list[|list| - 1])
  {
    var n := |list| - 1;
    AppendedExpansion(list[..n], list[n], 0);
    assert list[..n] + [list[n]] == list;
    LastOfElement(list[n]);
  }

  method ElementLength(e: Element) returns (n: nat)
    requires Proper(e)
    ensures n == |Expansion(e)|
  {
    match e {
      case Normal(_) => n := 1;
      case Range(first, last) => n := last - first + 1;
      case Class(_, _) => n := CountMembers(e);
      case Equivalent(_) => n := 1;
      case Repeated(_, count) => n := count;
    }
  }

  method Invert(inSet: array<bool>)
    modifies inSet
    ensures forall i :: 0 <= i < inSet.Length ==> inSet[i] == !old(inSet[i])
  {
    var i := 0;
    while i < inSet.Length
      invariant 0 <= i <= inSet.Length
      invariant forall k :: 0 <= k < i ==> inSet[k] == !old(inSet[k])
      invariant forall k :: i <= k < inSet.Length ==> inSet[k] == old(inSet[k])
    {
      inSet[i] := !inSet[i];
      i := i + 1;
    }
  }

  function Codes(items: seq<Item>): set<Char> {
    set k | 0 <= k < |items| :: items[k].c
  }

  lemma NextCode(all: seq<Item>, n: nat)
    requires n < |all|
    ensures Codes(all[..n + 1]) == Codes(all[..n]) + {all[n].c}
  {
    var a, b := all[..n + 1], all[..n];
    forall c | c in Codes(a) ensures c in Codes(b) + {all[n].c} {
      var k :| 0 <= k < |a| && a[k].c == c;
      if k < n {
        assert b[k].c == c;
      }
    }
    forall c | c in Codes(b) + {all[n].c} ensures c in Codes(a) {
      if c != all[n].c {
        var k :| 0 <= k < |b| && b[k].c == c;
        assert a[k].c == c;
      } else {
        assert a[n].c == c;
      }
    }
  }

  /** One [c*] construct is made [c*n]; nothing else changes. */
  ghost predicate FilledIn(was: seq<Element>, now: seq<Element>, n: nat) {
    exists k :: 0 <= k < |was| && Indefinite(was[k]) && now == was[k := Repeated(was[k].c, n)]
  }
}
