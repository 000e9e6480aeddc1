/** What an option element means, told from the list of options and the arguments alone:
    the laws of the documentation in gnu/lib/getopt.c, for every list and every element. */
module GetoptLaws {
  import opened GetoptReading

  /** The list names option c, with v behind it. A colon names no option. */
  ghost predicate Listed(opts: string, u: string, c: char, v: string) {
    opts == u + [c] + v && c !in u && c != ':'
  }

  predicate Colon(v: string) {
    v != "" && v[0] == ':'
  }

  predicate TwoColons(v: string) {
    |v| > 1 && v[0] == ':' && v[1] == ':'
  }

  /** c takes no argument: it is not listed, or without a colon behind it. */
  ghost predicate Single(opts: string, c: char) {
    forall u, v :: Listed(opts, u, c, v) ==> !Colon(v)
  }

  /** The first letter is looked up in the list of the first call, the others in that of
      the later calls. */
  function ListAt(now: string, later: string, k: nat): string {
    if k == 0 then now else later
  }

  ghost predicate Singles(now: string, later: string, w: string) {
    forall k :: 0 <= k < |w| ==> Single(ListAt(now, later, k), w[k])
  }

  /** What letters without arguments return: themselves if listed, else an error. */
  function Front(now: string, later: string, w: string): (e: seq<Event>)
    ensures |e| == |w|
  {
    seq(|w|, k requires 0 <= k < |w| =>
      var c := w[k];
      Opt(if c in ListAt(now, later, k) && c != ':' then c else '?', None))
  }

  // ---------------------------------------------------------------- the list

  lemma IndexIs(opts: string, u: string, c: char, v: string)
    requires opts == u + [c] + v && c !in u
    ensures IndexOf(opts, c) == |u|
  {
    var k := IndexOf(opts, c);
    assert opts[|u|] == c;
    assert forall j :: 0 <= j < |u| ==> opts[j] == u[j] && u[j] in u;
  }

  lemma WantsListed(opts: string, u: string, c: char, v: string)
    requires Listed(opts, u, c, v)
    ensures Wants(opts, c) == if TwoColons(v) then Optional else if Colon(v) then Required else Plain
  {
    IndexIs(opts, u, c, v);
    assert forall j :: 0 <= j < |v| ==> opts[|u| + 1 + j] == v[j];
  }

  lemma WantsUnlisted(opts: string, c: char)
    requires c !in opts || c == ':'
    ensures Wants(opts, c) == Unknown
  {
  }

  lemma ListedAt(opts: string, c: char)
    requires c in opts && c != ':'
    ensures var k := IndexOf(opts, c); k < |opts| && Listed(opts, opts[..k], c, opts[k + 1..])
  {
    var k := IndexOf(opts, c);
    assert k < |opts|;
    assert opts == opts[..k] + [c] + opts[k + 1..];
  }

  lemma WantsSingle(opts: string, c: char)
    requires Single(opts, c)
    ensures Wants(opts, c) == if c in opts && c != ':' then Plain else Unknown
  {
    if c in opts && c != ':' {
      ListedAt(opts, c);
      var k := IndexOf(opts, c);
      WantsListed(opts, opts[..k], c, opts[k + 1..]);
    } else {
      WantsUnlisted(opts, c);
    }
  }

  // ---------------------------------------------------------------- letters

  lemma {:induction false} LettersFront(o: Ordering, now: string, later: string, args: seq<string>, i: nat, w: string, rest: string)
    requires i < |args| && Singles(now, later, w)
    ensures var l := Letters(o, ListAt(now, later, |w|), later, args, i, rest);
            Letters(o, now, later, args, i, w + rest) == Reading(Front(now, later, w) + l.events, l.options, l.operands)
    decreases |w|
  {
    hide Wants, Read, Single, Singles, Letters, Front;
    var l := Letters(o, ListAt(now, later, |w|), later, args, i, rest);
    if w == "" {
      assert w + rest == rest && Front(now, later, w) == [];
      assert [] + l.events == l.events;
    } else {
      var tail := w[1..];
      SinglesTail(now, later, w);
      LettersFront(o, later, later, args, i, tail, rest);
      LetterRead(o, now, later, args, i, w[0], tail + rest);
      assert w + rest == [w[0]] + (tail + rest);
      FrontTail(now, later, w);
      FrontFirst(now, later, w);
      assert [Front(now, later, w)[0]] + (Front(later, later, tail) + l.events) == Front(now, later, w) + l.events;
    }
  }

  lemma SinglesTail(now: string, later: string, w: string)
    requires Singles(now, later, w) && w != ""
    ensures Single(now, w[0]) && Singles(later, later, w[1..])
  {
    hide Single;
    assert Single(ListAt(now, later, 0), w[0]);
    forall k | 0 <= k < |w[1..]| ensures Single(ListAt(later, later, k), w[1..][k]) {
      assert Single(ListAt(now, later, k + 1), w[k + 1]);
    }
  }

  lemma FrontTail(now: string, later: string, w: string)
    requires w != ""
    ensures Front(now, later, w) == [Front(now, later, w)[0]] + Front(later, later, w[1..])
  {
  }

  lemma FrontFirst(now: string, later: string, w: string)
    requires w != ""
    ensures Front(now, later, w)[0] == Opt(if w[0] in now && w[0] != ':' then w[0] else '?', None)
  {
  }

  lemma LetterRead(o: Ordering, now: string, later: string, args: seq<string>, i: nat, c: char, rest: string)
    requires i < |args| && Single(now, c)
    ensures Letters(o, now, later, args, i, [c] + rest)
         == WithEvent(Opt(if c in now && c != ':' then c else '?', None), Letters(o, later, later, args, i, rest))
  {
    hide Wants, Read, Single;
    WantsSingle(now, c);
    assert ([c] + rest)[1..] == rest;
  }

  lemma LettersNone(o: Ordering, now: string, later: string, args: seq<string>, i: nat)
    requires i < |args|
    ensures Letters(o, now, later, args, i, "") == Read(o, now, later, args, i + 1)
  {
  }

  lemma LettersArgument(o: Ordering, now: string, later: string, args: seq<string>, i: nat, u: string, c: char, v: string, x: string)
    requires i < |args| && Listed(now, u, c, v) && Colon(v)
    ensures var l := Letters(o, now, later, args, i, [c] + x);
            if x != "" then
              l == WithEvent(Opt(c, Some(x)), Read(o, later, later, args, i + 1))
            else if TwoColons(v) then
              l == WithEvent(Opt(c, None), Read(o, later, later, args, i + 1))
            else if i + 1 < |args| then
              l == WithEvent(Opt(c, Some(args[i + 1])), WithOption(args[i + 1], Read(o, later, later, args, i + 2)))
            else
              l == WithEvent(Opt('?', None), Read(o, later, later, args, i + 1))
  {
    hide Wants, Read;
    WantsListed(now, u, c, v);
    assert ([c] + x)[1..] == x;
  }

  // ---------------------------------------------------------------- elements

  /** An element of letters that take no argument gives each of them, and the next element
      is read on its own. */
  lemma SinglesRead(o: Ordering, now: string, later: string, args: seq<string>, i: nat, w: string)
    requires i < |args| && args[i] == "-" + w && w != "" && w != "-"
    requires Singles(now, later, w)
    ensures var r := Read(o, later, later, args, i + 1);
            Read(o, now, later, args, i) == Reading(Front(now, later, w) + r.events, [args[i]] + r.options, r.operands)
  {
    hide Front, Singles, Letters;
    assert args[i][1..] == w && w + "" == w;
    LettersFront(o, now, later, args, i, w, "");
    LettersNone(o, later, later, args, i);
    assert args[i] != "--" by {
      assert w == "--"[1..] || args[i] != "--";
    }
  }

  /** A letter with a colon behind it in the list ends its element. Text behind it is its
      argument; without any, two colons leave it without an argument, and one colon makes
      the following element its argument, whatever that is, or an error at the end. */
  lemma ArgumentRead(o: Ordering, now: string, later: string, args: seq<string>, i: nat, w: string, u: string, c: char, v: string, x: string)
    requires i < |args| && args[i] == "-" + w + [c] + x && args[i] != "--"
    requires Singles(now, later, w)
    requires Listed(ListAt(now, later, |w|), u, c, v) && Colon(v)
    ensures var front, r := Front(now, later, w), Read(o, later, later, args, i + 1);
            var whole := Read(o, now, later, args, i);
            if x != "" then
              whole == Reading(front + [Opt(c, Some(x))] + r.events, [args[i]] + r.options, r.operands)
            else if TwoColons(v) then
              whole == Reading(front + [Opt(c, None)] + r.events, [args[i]] + r.options, r.operands)
            else if i + 1 < |args| then
              var r2 := Read(o, later, later, args, i + 2);
              whole == Reading(front + [Opt(c, Some(args[i + 1]))] + r2.events, [args[i], args[i + 1]] + r2.options, r2.operands)
            else
              whole == Reading(front + [Opt('?', None)], [args[i]], [])
  {
    hide Front, Singles, Letters, Listed, Colon, TwoColons;
    assert args[i][1..] == w + ([c] + x);
    LettersFront(o, now, later, args, i, w, [c] + x);
    LettersArgument(o, ListAt(now, later, |w|), later, args, i, u, c, v, x);
    var front, r := Front(now, later, w), Read(o, later, later, args, i + 1);
    assert forall e: Event, l: seq<Event> :: front + ([e] + l) == front + [e] + l;
    if i + 1 < |args| {
      var r2 := Read(o, later, later, args, i + 2);
      assert [args[i]] + ([args[i + 1]] + r2.options) == [args[i], args[i + 1]] + r2.options;
    }
  }

  /** There is no other kind of element with letters. */
  lemma LettersAre(now: string, later: string, letters: string) returns (w: string, u: string, c: char, v: string, x: string)
    ensures Singles(now, later, w)
    ensures w == letters || (letters == w + [c] + x && Listed(ListAt(now, later, |w|), u, c, v) && Colon(v))
  {
    hide Single;
    u, c, v, x := "", ' ', "", "";
    var k := 0;
    while k < |letters|
      invariant 0 <= k <= |letters| && forall j :: 0 <= j < k ==> Single(ListAt(now, later, j), letters[j])
    {
      hide Single;
      if !Single(ListAt(now, later, k), letters[k]) {
        w, c, x := letters[..k], letters[k], letters[k + 1..];
        u, v := NotSingle(ListAt(now, later, k), c);
        assert letters == w + [c] + x;
        return;
      }
      k := k + 1;
    }
    w := letters;
  }

  lemma NotSingle(opts: string, c: char) returns (u: string, v: string)
    requires !Single(opts, c)
    ensures Listed(opts, u, c, v) && Colon(v)
  {
    u, v :| Listed(opts, u, c, v) && Colon(v);
  }

  /** Two dashes end the options. */
  lemma DashesRead(o: Ordering, now: string, later: string, args: seq<string>, i: nat)
    requires i < |args| && args[i] == "--"
    ensures Read(o, now, later, args, i) == Reading([], ["--"], args[i + 1..])
  {
  }

  predicate Begins(s: string, c: char) {
    s != "" && s[0] == c
  }

  /** A + or - in front is not part of the list that the first call looks letters up in. */
  lemma PrefixStripped(list: string)
    ensures Stripped("+" + list) == list && Stripped("-" + list) == list
    ensures !Begins(list, '+') && !Begins(list, '-') ==> Stripped(list) == list
  {
    assert ("+" + list)[1..] == list && ("-" + list)[1..] == list;
  }

  /** The empty text, a dash alone and elements that do not begin with a dash are no options.
      A + before the list, or POSIXLY_CORRECT without a -, ends the options there; a - returns
      the element; otherwise it is passed over. */
  lemma OperandRead(optstring: string, posixly: bool, now: string, later: string, args: seq<string>, i: nat)
    requires i < |args| && (args[i] == "" || args[i] == "-" || args[i][0] != '-')
    ensures var o := OrderingOf(optstring, posixly);
            var whole := Read(o, now, later, args, i);
            if Begins(optstring, '-') then
              var r := Read(o, later, later, args, i + 1);
              whole == Reading([Operand(args[i])] + r.events, [args[i]] + r.options, r.operands)
            else if Begins(optstring, '+') || posixly then
              whole == Reading([], [], args[i..])
            else
              var r := Read(o, now, later, args, i + 1);
              whole == Reading(r.events, r.options, [args[i]] + r.operands)
  {
  }
}
