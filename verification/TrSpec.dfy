/** The specification strings of gnu/src/tr.c, once parsed: lists of constructs, and the
    iterator get_next over their expansion. */
module TrSpec {
  import opened TrFilter

  const BEGIN_STATE := 512
  const NEW_ELEMENT := 513

  datatype Kind = Lower | Upper | NoCase

  datatype Element =
    | Normal(c: Char)
    | Range(first: Char, last: Char)
    | Class(kind: Kind, member: CharSet)
    | Equivalent(c: Char)
    | Repeated(c: Char, count: nat)

  /** A character of an expansion, and the case class it comes from. */
  datatype Item = Item(c: Char, kind: Kind)

  // ---------------------------------------------------------------- the expansion

  function Span(first: nat, last: nat): (r: seq<Item>)
    requires last < 256
    ensures |r| == if first <= last then last - first + 1 else 0
    decreases last + 1 - first
  {
    if first > last then [] else [Item(first, NoCase)] + Span(first + 1, last)
  }

  /** The members from a code on, in order. */
  function Members(e: Element, from: nat): seq<Item>
    requires e.Class?
    decreases e, 256 - from
  {
    if from >= 256 then []
    else (if e.member(from) then [Item(from, e.kind)] else []) + Members(e, from + 1)
  }

  function Copies(c: Char, n: nat): (r: seq<Item>)
    ensures |r| == n
  {
    if n == 0 then [] else [Item(c, NoCase)] + Copies(c, n - 1)
  }

  function Expansion(e: Element): seq<Item> {
    match e
    case Normal(c) => [Item(c, NoCase)]
    case Range(first, last) => Span(first, last)
    case Class(_, _) => Members(e, 0)
    case Equivalent(c) => [Item(c, NoCase)]
    case Repeated(c, count) => Copies(c, count)
  }

  lemma {:induction false} SpanIs(first: nat, last: nat, k: nat)
    requires last < 256 && first + k <= last
    ensures Span(first, last)[k] == Item(first + k, NoCase)
    decreases k
  {
    if k > 0 {
      SpanIs(first + 1, last, k - 1);
    }
  }

  lemma {:induction false} CopiesAre(c: Char, n: nat, k: nat)
    requires k < n
    ensures Copies(c, n)[k] == Item(c, NoCase)
    decreases n
  {
    if k > 0 {
      CopiesAre(c, n - 1, k - 1);
    }
  }

  /** Just the members, ascending, each marked with the class's case. */
  lemma {:induction false} MembersAre(e: Element, from: nat)
    requires e.Class?
    ensures var r := Members(e, from);
      && (forall k :: 0 <= k < |r| ==> r[k].c >= from && e.member(r[k].c) && r[k].kind == e.kind)
      && (forall j, k :: 0 <= j < k < |r| ==> r[j].c < r[k].c)
      && (forall c: Char :: c >= from && e.member(c) ==> Item(c, e.kind) in r)
    decreases 256 - from
  {
    if from < 256 {
      MembersAre(e, from + 1);
    }
  }

  /** What each construct stands for: a character; the codes from the first to the last in
      turn; the members of a class in order; as many copies as the count says. */
  lemma ExpansionIs(e: Element)
    ensures var r := Expansion(e);
      match e
      case Normal(c) => r == [Item(c, NoCase)]
      case Equivalent(c) => r == [Item(c, NoCase)]
      case Range(first, last) =>
        && |r| == (if first <= last then last - first + 1 else 0)
        && forall k :: 0 <= k < |r| ==> r[k] == Item(first + k, NoCase)
      case Class(kind, member) =>
        && (forall j, k :: 0 <= j < k < |r| ==> r[j].c < r[k].c)
        && (forall k :: 0 <= k < |r| ==> r[k].kind == kind && member(r[k].c))
        && (forall c: Char :: member(c) ==> Item(c, kind) in r)
      case Repeated(c, count) => |r| == count && forall k :: 0 <= k < count ==> r[k] == Item(c, NoCase)
  {
    match e
    case Normal(_) =>
    case Equivalent(_) =>
    case Range(first, last) =>
      forall k: nat | k < |Expansion(e)| ensures Expansion(e)[k] == Item(first + k, NoCase) {
        SpanIs(first, last, k);
      }
    case Class(_, _) => MembersAre(e, 0);
    case Repeated(c, count) =>
      forall k: nat | k < count ensures Expansion(e)[k] == Item(c, NoCase) {
        CopiesAre(c, count, k);
      }
  }

  function ExpansionFrom(list: seq<Element>, i: nat): seq<Item>
    decreases |list| - i
  {
    if i >= |list| then [] else Expansion(list[i]) + ExpansionFrom(list, i + 1)
  }

  /** What the parser gives: ranges are not reversed and classes are not empty. */
  predicate Parsed(e: Element) {
    match e
    case Range(first, last) => first <= last
    case Class(_, member) => exists c: Char :: member(c)
    case _ => true
  }

  ghost predicate AllParsed(list: seq<Element>) {
    forall i :: 0 <= i < |list| ==> Parsed(list[i])
  }

  predicate Overlong(e: Element) {
    e.Repeated? && e.count > BEGIN_STATE
  }

  // ---------------------------------------------------------------- the iterator

  /** The first member from a code on, or 256. */
  function FirstMember(e: Element, from: nat): (i: nat)
    requires e.Class?
    ensures i <= 256 && (i < 256 ==> i >= from && e.member(i))
    ensures forall k: Char :: from <= k < i ==> !e.member(k)
    decreases e, 256 - from
  {
    if from >= 256 then 256 else if e.member(from) then from else FirstMember(e, from + 1)
  }

  /** Where the iterator stands: the element, and the state within it. */
  datatype Cursor = Cursor(tail: nat, state: nat)

  datatype Got = Got(item: Option<Item>, at: Cursor)

  /** The state is kept as the last code given, the next member, or the number of copies
      given, and compared with the two values that have a meaning of their own. */
  function Next(list: seq<Element>, at: Cursor): Got {
    NextIn(list, if at.state == BEGIN_STATE then Cursor(0, NEW_ELEMENT) else at)
  }

  function NextIn(list: seq<Element>, at: Cursor): Got
    decreases |list| - at.tail
  {
    if at.tail >= |list| then Got(None, at)
    else
      var over := Cursor(at.tail + 1, NEW_ELEMENT);
      if list[at.tail].Repeated? && list[at.tail].count == 0 then NextIn(list, over)
      else
        var step := Step(list[at.tail], at.state);
        Got(Some(step.item), if step.state == None then over else at.(state := step.state.value))
  }

  /** A character of an element, and the state after it unless it was the last. */
  datatype Stepped = Stepped(item: Item, state: Option<nat>)

  function Step(e: Element, state: nat): Stepped {
    match e
    case Normal(c) => Stepped(Item(c, NoCase), None)
    case Equivalent(c) => Stepped(Item(c, NoCase), None)
    case Range(first, last) =>
      var s := if state == NEW_ELEMENT then first else state + 1;
      Stepped(Item(s % 256, NoCase), if s == last then None else Some(s))
    case Class(kind, _) =>
      var s := if state == NEW_ELEMENT then FirstMember(e, 0) else state;
      var i := FirstMember(e, s + 1);
      Stepped(Item(s % 256, kind), if i < 256 then Some(i) else None)
    case Repeated(c, count) =>
      var s := (if state == NEW_ELEMENT then 0 else state) + 1;
      Stepped(Item(c, NoCase), if s == count then None else Some(s))
  }

  /** The states within an element. */
  predicate Inside(e: Element, state: nat) {
    match e
    case Range(first, last) => first <= state < last
    case Class(_, member) => state < 256 && member(state)
    case Repeated(_, count) => 0 < state < count
    case _ => false
  }

  /** What an element has still to give in a state. */
  function Left(e: Element, state: nat): seq<Item> {
    if state == NEW_ELEMENT then Expansion(e)
    else
      match e
      case Range(_, last) => Span(state + 1, last)
      case Class(_, _) => Members(e, state)
      case Repeated(c, count) => if state <= count then Copies(c, count - state) else []
      case _ => []
  }

  /** The states an iteration comes to. */
  predicate Standing(list: seq<Element>, at: Cursor) {
    at.state == BEGIN_STATE || at.tail >= |list| || at.state == NEW_ELEMENT || Inside(list[at.tail], at.state)
  }

  /** What is still to be given. */
  function Ahead(list: seq<Element>, at: Cursor): seq<Item> {
    if at.state == BEGIN_STATE then ExpansionFrom(list, 0)
    else if at.tail >= |list| then []
    else Left(list[at.tail], at.state) + ExpansionFrom(list, at.tail + 1)
  }

  ghost predicate NoneOverlong(list: seq<Element>) {
    forall i :: 0 <= i < |list| ==> !Overlong(list[i])
  }

  lemma {:induction false} MembersFirst(e: Element, from: nat)
    requires e.Class?
    ensures var i := FirstMember(e, from);
      Members(e, from) == if i < 256 then [Item(i, e.kind)] + Members(e, i + 1) else []
    decreases 256 - from
  {
    if from < 256 && !e.member(from) {
      MembersFirst(e, from + 1);
    }
  }

  /** A call gives the next character and leaves the others, or gives none at the end. */
  ghost predicate Gives(list: seq<Element>, at: Cursor, got: Got) {
    && Standing(list, got.at)
    && match got.item
       case None => Ahead(list, at) == [] && Ahead(list, got.at) == []
       case Some(x) => Ahead(list, at) == [x] + Ahead(list, got.at)
  }

  /** From a member on, the members are it and those from the next one on. */
  lemma MemberAndNext(e: Element, s: nat)
    requires e.Class? && s < 256 && e.member(s)
    ensures var i := FirstMember(e, s + 1);
      Members(e, s) == [Item(s, e.kind)] + if i < 256 then Members(e, i) else []
  {
    var i := FirstMember(e, s + 1);
    MembersFirst(e, s + 1);
    if i < 256 {
      assert FirstMember(e, i) == i;
      MembersFirst(e, i);
    }
  }

  lemma ClassStep(e: Element, state: nat)
    requires e.Class? && Parsed(e) && (state == NEW_ELEMENT || Inside(e, state))
    ensures var step := Step(e, state);
      && (step.state.Some? ==> Inside(e, step.state.value))
      && Left(e, state) == [step.item] + if step.state.Some? then Left(e, step.state.value) else []
  {
    var s := if state == NEW_ELEMENT then FirstMember(e, 0) else state;
    var c: Char :| e.member(c);
    assert s < 256 && e.member(s);
    MemberAndNext(e, s);
    if state == NEW_ELEMENT {
      MembersFirst(e, 0);
      MembersFirst(e, s);
      assert FirstMember(e, s) == s;
    }
  }

  /** Within an element, each step gives its next character. */
  lemma StepGives(e: Element, state: nat)
    requires Parsed(e) && !Overlong(e) && (state == NEW_ELEMENT || Inside(e, state))
    requires e.Repeated? ==> e.count > 0
    ensures var step := Step(e, state);
      && (step.state.Some? ==> Inside(e, step.state.value) && step.state.value < BEGIN_STATE)
      && Left(e, state) == [step.item] + if step.state.Some? then Left(e, step.state.value) else []
  {
    if e.Class? {
      ClassStep(e, state);
    } else if e.Repeated? {
      var s := if state == NEW_ELEMENT then 0 else state;
      assert Left(e, state) == Copies(e.c, e.count - s);
    }
  }

  lemma ElementGives(list: seq<Element>, at: Cursor)
    requires at.tail < |list| && at.state != BEGIN_STATE && Standing(list, at)
    requires Parsed(list[at.tail]) && !Overlong(list[at.tail])
    requires list[at.tail].Repeated? ==> list[at.tail].count > 0
    ensures Gives(list, at, NextIn(list, at))
  {
    var step := Step(list[at.tail], at.state);
    var after := if step.state == None then Cursor(at.tail + 1, NEW_ELEMENT) else at.(state := step.state.value);
    assert NextIn(list, at) == Got(Some(step.item), after);
    StepGives(list[at.tail], at.state);
    AheadAfter(list, at, step, after);
  }

  lemma AheadAfter(list: seq<Element>, at: Cursor, step: Stepped, after: Cursor)
    requires at.tail < |list| && at.state != BEGIN_STATE
    requires Left(list[at.tail], at.state) == [step.item] + if step.state.Some? then Left(list[at.tail], step.state.value) else []
    requires step.state.Some? ==> step.state.value != BEGIN_STATE
    requires after == if step.state == None then Cursor(at.tail + 1, NEW_ELEMENT) else at.(state := step.state.value)
    ensures Ahead(list, at) == [step.item] + Ahead(list, after)
  {
    hide Left, ExpansionFrom;
    var left := if step.state.Some? then Left(list[at.tail], step.state.value) else [];
    Regrouped(step.item, left, ExpansionFrom(list, at.tail + 1));
    AheadBehind(list, at.tail + 1);
  }

  lemma Regrouped(x: Item, a: seq<Item>, b: seq<Item>)
    ensures ([x] + a) + b == [x] + (a + b) && [] + b == b
  {
  }

  lemma AheadBehind(list: seq<Element>, i: nat)
    ensures Ahead(list, Cursor(i, NEW_ELEMENT)) == ExpansionFrom(list, i)
  {
  }

  lemma EmptyGivesNothing(list: seq<Element>, at: Cursor)
    requires at.tail < |list| && list[at.tail].Repeated? && list[at.tail].count == 0
    requires at.state == NEW_ELEMENT
    ensures Ahead(list, at) == Ahead(list, Cursor(at.tail + 1, NEW_ELEMENT))
  {
    AheadBehind(list, at.tail + 1);
    assert [] + ExpansionFrom(list, at.tail + 1) == ExpansionFrom(list, at.tail + 1);
  }

  /** One call gives the next character of the expansion, and none at its end. */
  lemma {:induction false} NextGives(list: seq<Element>, at: Cursor)
    requires AllParsed(list) && NoneOverlong(list) && Standing(list, at) && at.state != BEGIN_STATE
    ensures Gives(list, at, NextIn(list, at))
    decreases |list| - at.tail
  {
    hide Left, ExpansionFrom, Step;
    if at.tail < |list| {
      assert Parsed(list[at.tail]) && !Overlong(list[at.tail]);
      if list[at.tail].Repeated? && list[at.tail].count == 0 {
        EmptyGivesNothing(list, at);
        NextGives(list, Cursor(at.tail + 1, NEW_ELEMENT));
      } else {
        ElementGives(list, at);
      }
    }
  }

  // ---------------------------------------------------------------- successive calls

  /** Where the iterator stands after n calls. */
  function After(list: seq<Element>, n: nat): Cursor {
    if n == 0 then Cursor(0, BEGIN_STATE) else Next(list, After(list, n - 1)).at
  }

  function Call(list: seq<Element>, n: nat): Option<Item> {
    Next(list, After(list, n)).item
  }

  function Behind(all: seq<Item>, n: nat): seq<Item> {
    if n <= |all| then all[n..] else []
  }

  lemma {:induction false} CallsGive(list: seq<Element>, all: seq<Item>, n: nat)
    requires AllParsed(list) && NoneOverlong(list) && all == ExpansionFrom(list, 0)
    ensures Standing(list, After(list, n)) && Ahead(list, After(list, n)) == Behind(all, n)
    decreases n
  {
    hide NextIn, Next, Left;
    if n > 0 {
      CallsGive(list, all, n - 1);
      var at := After(list, n - 1);
      OneCall(list, at);
      GivesRest(list, all, n - 1, at, Next(list, at));
    }
  }

  lemma GivesRest(list: seq<Element>, all: seq<Item>, n: nat, at: Cursor, got: Got)
    requires Ahead(list, at) == Behind(all, n) && Gives(list, at, got)
    ensures Standing(list, got.at) && Ahead(list, got.at) == Behind(all, n + 1)
  {
    hide Ahead, Standing;
    assert n < |all| ==> all[n..][1..] == all[n + 1..];
    assert got.item.Some? ==> Ahead(list, at)[1..] == Ahead(list, got.at);
  }

  lemma CallGives(list: seq<Element>, all: seq<Item>, n: nat)
    requires AllParsed(list) && NoneOverlong(list) && all == ExpansionFrom(list, 0)
    ensures Call(list, n) == if n < |all| then Some(all[n]) else None
  {
    CallsGive(list, all, n);
    OneCall(list, After(list, n));
  }

  lemma OneCall(list: seq<Element>, at: Cursor)
    requires AllParsed(list) && NoneOverlong(list) && Standing(list, at)
    ensures Gives(list, at, Next(list, at))
  {
    NextGives(list, if at.state == BEGIN_STATE then Cursor(0, NEW_ELEMENT) else at);
  }

  /** Up to the j-th element, an overlong one. */
  predicate Before(at: Cursor, j: nat) {
    at.state == BEGIN_STATE || at.tail < j || (at.tail == j && (at.state == NEW_ELEMENT || 0 < at.state <= BEGIN_STATE))
  }

  /** An overlong element is never left: its count of copies comes to be read as the sign
      to begin again. */
  lemma {:induction false} OverlongStays(list: seq<Element>, at: Cursor, j: nat)
    requires j < |list| && Overlong(list[j]) && Before(at, j) && at.state != BEGIN_STATE
    ensures NextIn(list, at).item != None && Before(NextIn(list, at).at, j)
    decreases |list| - at.tail
  {
    if at.tail < j && list[at.tail].Repeated? && list[at.tail].count == 0 {
      OverlongStays(list, Cursor(at.tail + 1, NEW_ELEMENT), j);
    }
  }

  lemma {:induction false} OverlongNeverEnds(list: seq<Element>, j: nat, n: nat)
    requires j < |list| && Overlong(list[j])
    ensures Before(After(list, n), j) && Call(list, n) != None
    decreases n
  {
    if n > 0 {
      OverlongNeverEnds(list, j, n - 1);
    }
    var at := After(list, n);
    if n > 0 {
      var was := After(list, n - 1);
      OverlongStays(list, if was.state == BEGIN_STATE then Cursor(0, NEW_ELEMENT) else was, j);
    }
    OverlongStays(list, if at.state == BEGIN_STATE then Cursor(0, NEW_ELEMENT) else at, j);
  }

  /** Successive calls give the expansion and then none exactly when no character is
      repeated more than BEGIN_STATE times. */
  lemma IteratesExactly(list: seq<Element>)
    requires AllParsed(list)
    ensures NoneOverlong(list) <==>
      (forall n :: 0 <= n <= |ExpansionFrom(list, 0)| ==>
        Call(list, n) == if n < |ExpansionFrom(list, 0)| then Some(ExpansionFrom(list, 0)[n]) else None)
  {
    var all := ExpansionFrom(list, 0);
    if NoneOverlong(list) {
      forall n | 0 <= n <= |all| ensures Call(list, n) == if n < |all| then Some(all[n]) else None {
        CallGives(list, all, n);
      }
    } else {
      var j :| 0 <= j < |list| && Overlong(list[j]);
      OverlongNeverEnds(list, j, |all|);
    }
  }
}
