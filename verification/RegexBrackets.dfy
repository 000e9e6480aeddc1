/** Bracket expressions as lists of characters and ranges. */
module RegexBrackets {
  import opened RegexSyntax
  import opened RegexParse
  import opened RegexReading
  import opened RegexPatterns
  import P = RegexPlain

  const DASH: Byte := '-' as int
  const OPENING: Byte := '[' as int
  const CLOSING: Byte := ']' as int

  datatype Part = Single(c: Byte) | Span(c: Byte, hi: Byte)

  function PartText(p: Part): seq<Byte> {
    match p
    case Single(c) => [c]
    case Span(lo, hi) => [lo, DASH, hi]
  }

  function PartsText(ps: seq<Part>): seq<Byte> {
    if ps == [] then [] else PartText(ps[0]) + PartsText(ps[1..])
  }

  predicate InPart(x: Byte, p: Part) {
    match p
    case Single(c) => x == c
    case Span(lo, hi) => lo <= x <= hi
  }

  predicate InParts(x: Byte, ps: seq<Part>) {
    exists k :: 0 <= k < |ps| && InPart(x, ps[k])
  }

  /** A ] can only be the first character of a list, and a - behind a single character
      only its last. */
  predicate Listable(ps: seq<Part>, first: bool) {
    ps == []
    || (&& (ps[0].c == CLOSING ==> first)
        && (if ps[0].Span? then ps[0].hi != CLOSING
            else |ps| > 1 && ps[1].c == DASH ==> ps[1..] == [Single(DASH)])
        && Listable(ps[1..], false))
  }

  lemma InFirst(x: Byte, ps: seq<Part>)
    requires ps != []
    ensures InParts(x, ps) <==> InPart(x, ps[0]) || InParts(x, ps[1..])
  {
    if k :| 0 <= k < |ps| && InPart(x, ps[k]) {
      assert k > 0 ==> ps[1..][k - 1] == ps[k];
    }
    if k :| 0 <= k < |ps[1..]| && InPart(x, ps[1..][k]) {
      assert ps[k + 1] == ps[1..][k];
    }
  }

  /** The list is read up to its bracket, adding just its members. */
  lemma {:induction false} ListRead(v: seq<Byte>, ps: seq<Part>, first: nat, bits: seq<Byte>) returns (bits': seq<Byte>)
    requires |bits| == 32 && first <= |v| && Listable(ps, |v| == first) && (ps == [] ==> |v| != first)
    ensures |bits'| == 32
    ensures BracketFrom(v + PartsText(ps) + [CLOSING], first, |v|, bits) == Ok((bits', |v| + |PartsText(ps)| + 1))
    ensures forall x: Byte :: InBits(bits', x) <==> InBits(bits, x) || InParts(x, ps)
    decreases |ps|
  {
    hide InBits, InParts, BracketFrom, WithPart;
    var pat := v + PartsText(ps) + [CLOSING];
    if ps == [] {
      bits' := bits;
      ListEnds(v, first, bits);
      forall x: Byte ensures !InParts(x, ps) {
        InNone(x);
      }
    } else {
      var v', tail := v + PartText(ps[0]), ps[1..];
      assert v' + PartsText(tail) + [CLOSING] == pat;
      HeadBits(v, ps, first, bits);
      bits' := ListRead(v', tail, first, WithPart(bits, ps[0]));
      forall x: Byte ensures InBits(bits', x) <==> InBits(bits, x) || InParts(x, ps) {
        InFirst(x, ps);
        PartBits(bits, ps[0], x);
      }
    }
  }

  lemma ListEnds(v: seq<Byte>, first: nat, bits: seq<Byte>)
    requires |bits| == 32 && |v| != first
    ensures BracketFrom(v + PartsText([]) + [CLOSING], first, |v|, bits) == Ok((bits, |v| + 1))
  {
  }

  function WithPart(bits: seq<Byte>, p: Part): (r: seq<Byte>)
    requires |bits| == 32
    ensures |r| == 32
  {
    if p.Span? then SetRange(bits, p.c, p.hi) else SetBit(bits, p.c)
  }

  lemma PartBits(bits: seq<Byte>, p: Part, x: Byte)
    requires |bits| == 32
    ensures InBits(WithPart(bits, p), x) <==> InBits(bits, x) || InPart(x, p)
  {
    hide InBits, SetRange, SetBit;
    if p.Span? {
      P.SetRangeSets(bits, p.c, p.hi, x);
    } else {
      P.SetBitSets(bits, p.c, x);
    }
  }

  lemma HeadBits(v: seq<Byte>, ps: seq<Part>, first: nat, bits: seq<Byte>)
    requires |bits| == 32 && ps != [] && Listable(ps, |v| == first)
    ensures var pat := v + PartsText(ps) + [CLOSING];
      && |v| + |PartText(ps[0])| <= |pat|
      && BracketFrom(pat, first, |v|, bits) == BracketFrom(pat, first, |v| + |PartText(ps[0])|, WithPart(bits, ps[0]))
  {
    hide SetRange, SetBit, RangeAt, Listable;
    HeadRead(v, ps, first);
  }

  lemma InNone(x: Byte)
    ensures !InParts(x, [])
  {
  }

  /** What stands where the first part begins. */
  lemma HeadRead(v: seq<Byte>, ps: seq<Part>, first: nat)
    requires ps != [] && Listable(ps, |v| == first)
    ensures var pat, p := v + PartsText(ps) + [CLOSING], |v|;
      && pat[p] == ps[0].c && !(pat[p] == CLOSING && p != first)
      && (RangeAt(pat, p + 1) <==> ps[0].Span?)
      && (ps[0].Span? ==> p + 2 < |pat| && pat[p + 2] == ps[0].hi)
  {
    var pat, p := v + PartsText(ps) + [CLOSING], |v|;
    var tail := PartsText(ps[1..]) + [CLOSING];
    assert pat == v + PartText(ps[0]) + tail;
    assert pat[p] == PartText(ps[0])[0];
    if ps[0].Span? {
      assert pat[p + 1] == PartText(ps[0])[1] && pat[p + 2] == PartText(ps[0])[2];
    } else {
      TailBegins(ps[1..]);
      assert pat[p + 1] == tail[0];
      assert |tail| > 1 ==> pat[p + 2] == tail[1];
    }
  }

  lemma TailBegins(ps: seq<Part>)
    ensures var tail := PartsText(ps) + [CLOSING];
      && |tail| > 0 && tail[0] == (if ps == [] then CLOSING else ps[0].c)
      && (ps == [Single(DASH)] ==> tail == [DASH, CLOSING])
  {
    if ps == [Single(DASH)] {
      assert ps[1..] == [];
      assert PartsText([]) == [];
    }
  }

  function BracketText(ps: seq<Part>, inverted: bool): seq<Byte> {
    (if inverted then [OPENING, CARET] else [OPENING]) + PartsText(ps) + [CLOSING]
  }

  /** Brackets accept the members listed, or, behind a ^, all other characters. */
  lemma BracketRead(ps: seq<Part>, inverted: bool) returns (e: Item)
    requires ps != [] && Listable(ps, true) && (ps[0].c == CARET ==> inverted)
    ensures e.CharSet? && Denotes(BracketText(ps, inverted), e)
    ensures forall x: Byte :: Accepts(e, x) <==> InParts(x, ps) != inverted
  {
    hide InBits, BracketFrom, Denotes, ReadEscape, PostfixRun, InParts, HasAtom, Trim;
    var v: seq<Byte> := if inverted then [OPENING, CARET] else [OPENING];
    var pat, none := BracketText(ps, inverted), seq(32, _ => 0);
    var bits := ListRead(v, ps, |v|, none);
    HeadRead(v, ps, |v|);
    e := CharSet(inverted, Trim(bits));
    assert Peek(pat, 1) == CARET <==> inverted;
    assert pat[0] == OPENING;
    OneRead(pat, e);
    forall x: Byte ensures Accepts(e, x) <==> InParts(x, ps) != inverted {
      P.TrimKeeps(bits, x);
      NoneSet(x);
    }
  }

  lemma NoneSet(x: Byte)
    ensures !InBits(seq(32, _ => 0), x)
  {
    P.NoBits(x % 8);
  }
}
