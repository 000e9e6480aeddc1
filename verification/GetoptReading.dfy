/** What getopt of gnu/lib/getopt.c makes of an argument list: the options in order, and
    which elements are options (with their arguments) and which are operands. */
module GetoptReading {

  datatype Option<T> = None | Some(value: T)

  datatype Ordering = RequireOrder | Permute | ReturnInOrder

  /** What one call returns: an option character and its argument, or, in the third
      ordering, an operand. '?' stands for an error. */
  datatype Event = Opt(c: char, arg: Option<string>) | Operand(text: string)

  datatype Reading = Reading(events: seq<Event>, options: seq<string>, operands: seq<string>)

  datatype Wish = Unknown | Plain | Required | Optional

  predicate IsOperand(arg: string) {
    |arg| < 2 || arg[0] != '-'
  }

  /** The first place of c in s, or the length of s. */
  function IndexOf(s: string, c: char): (k: nat)
    ensures k <= |s|
    ensures k < |s| ==> s[k] == c
    ensures forall i :: 0 <= i < k ==> s[i] != c
  {
    if s == "" || s[0] == c then 0 else 1 + IndexOf(s[1..], c)
  }

  /** What the list of legitimate options says of a character. */
  function Wants(opts: string, c: char): Wish {
    var k := IndexOf(opts, c);
    if k == |opts| || c == ':' then Unknown
    else if k + 1 < |opts| && opts[k + 1] == ':' then
      if k + 2 < |opts| && opts[k + 2] == ':' then Optional else Required
    else Plain
  }

  predicate Prefixed(optstring: string) {
    optstring != "" && (optstring[0] == '-' || optstring[0] == '+')
  }

  function OrderingOf(optstring: string, posixly: bool): Ordering {
    if Prefixed(optstring) then if optstring[0] == '-' then ReturnInOrder else RequireOrder
    else if posixly then RequireOrder
    else Permute
  }

  function Stripped(optstring: string): string {
    if Prefixed(optstring) then optstring[1..] else optstring
  }

  function WithOption(arg: string, r: Reading): Reading {
    r.(options := [arg] + r.options)
  }

  function WithEvent(e: Event, r: Reading): Reading {
    r.(events := [e] + r.events)
  }

  function WithOperand(arg: string, r: Reading): Reading {
    r.(operands := [arg] + r.operands)
  }

  /** The arguments from the i-th on. The first call looks options up in now, the others
      in later: a leading '+' or '-' is stripped in the first call only. */
  function Read(o: Ordering, now: string, later: string, args: seq<string>, i: nat): Reading
    decreases |args| - i, 0, 1
  {
    if i >= |args| then Reading([], [], [])
    else if IsOperand(args[i]) then
      match o
      case Permute => WithOperand(args[i], Read(o, now, later, args, i + 1))
      case RequireOrder => Reading([], [], args[i..])
      case ReturnInOrder => WithEvent(Operand(args[i]), WithOption(args[i], Read(o, later, later, args, i + 1)))
    else if args[i] == "--" then Reading([], ["--"], args[i + 1..])
    else WithOption(args[i], Letters(o, now, later, args, i, args[i][1..]))
  }

  /** The option characters left of the i-th argument, and what follows it. */
  function Letters(o: Ordering, now: string, later: string, args: seq<string>, i: nat, chars: string): Reading
    requires i < |args|
    decreases |args| - i, 0, 0, |chars|
  {
    if chars == "" then Read(o, now, later, args, i + 1)
    else
      var c, rest := chars[0], chars[1..];
      match Wants(now, c)
      case Unknown => WithEvent(Opt('?', None), Letters(o, later, later, args, i, rest))
      case Plain => WithEvent(Opt(c, None), Letters(o, later, later, args, i, rest))
      case Optional =>
        WithEvent(Opt(c, if rest == "" then None else Some(rest)), Read(o, later, later, args, i + 1))
      case Required =>
        if rest != "" then WithEvent(Opt(c, Some(rest)), Read(o, later, later, args, i + 1))
        else if i + 1 == |args| then WithEvent(Opt('?', None), Read(o, later, later, args, i + 1))
        else WithEvent(Opt(c, Some(args[i + 1])), WithOption(args[i + 1], Read(o, later, later, args, i + 2)))
  }

  /** The elements that m marks as k, in their order. */
  function Pick(args: seq<string>, m: seq<bool>, k: bool): seq<string>
    requires |m| == |args|
  {
    if args == [] then []
    else (if m[0] == k then [args[0]] else []) + Pick(args[1..], m[1..], k)
  }

  ghost predicate Marks(args: seq<string>, m: seq<bool>, options: seq<string>, operands: seq<string>) {
    |m| == |args| && Pick(args, m, true) == options && Pick(args, m, false) == operands
  }

  /** args is divided into options and operands, each in the order they had. */
  ghost predicate Divides(args: seq<string>, options: seq<string>, operands: seq<string>) {
    exists m :: Marks(args, m, options, operands)
  }

  lemma DividesOption(arg: string, args: seq<string>, options: seq<string>, operands: seq<string>)
    requires Divides(args, options, operands)
    ensures Divides([arg] + args, [arg] + options, operands)
  {
    var m :| Marks(args, m, options, operands);
    assert ([arg] + args)[1..] == args && ([true] + m)[1..] == m;
    assert Marks([arg] + args, [true] + m, [arg] + options, operands);
  }

  lemma DividesOperand(arg: string, args: seq<string>, options: seq<string>, operands: seq<string>)
    requires Divides(args, options, operands)
    ensures Divides([arg] + args, options, [arg] + operands)
  {
    var m :| Marks(args, m, options, operands);
    assert ([arg] + args)[1..] == args && ([false] + m)[1..] == m;
    assert Marks([arg] + args, [false] + m, options, [arg] + operands);
  }

  lemma {:induction false} DividesRest(args: seq<string>)
    ensures Divides(args, [], args)
    decreases |args|
  {
    if args == [] {
      assert Marks(args, [], [], []);
    } else {
      DividesRest(args[1..]);
      DividesOperand(args[0], args[1..], [], args[1..]);
      assert [args[0]] + args[1..] == args;
    }
  }

  /** Options and operands are a division of the arguments: nothing is lost or repeated,
      and each kind keeps its order. */
  lemma {:induction false} ReadDivides(o: Ordering, now: string, later: string, args: seq<string>, i: nat)
    requires i <= |args|
    ensures Divides(args[i..], Read(o, now, later, args, i).options, Read(o, now, later, args, i).operands)
    decreases |args| - i, 0, 1
  {
    if i == |args| {
      DividesRest(args[i..]);
    } else {
      assert args[i..] == [args[i]] + args[i + 1..];
      if IsOperand(args[i]) {
        if o.Permute? {
          ReadDivides(o, now, later, args, i + 1);
          var r := Read(o, now, later, args, i + 1);
          DividesOperand(args[i], args[i + 1..], r.options, r.operands);
        } else if o.ReturnInOrder? {
          ReadDivides(o, later, later, args, i + 1);
          var r := Read(o, later, later, args, i + 1);
          DividesOption(args[i], args[i + 1..], r.options, r.operands);
        } else {
          DividesRest(args[i..]);
        }
      } else if args[i] == "--" {
        DividesRest(args[i + 1..]);
        DividesOption(args[i], args[i + 1..], [], args[i + 1..]);
        assert [args[i]] + [] == ["--"];
      } else {
        LettersDivide(o, now, later, args, i, args[i][1..]);
        var r := Letters(o, now, later, args, i, args[i][1..]);
        DividesOption(args[i], args[i + 1..], r.options, r.operands);
      }
    }
  }

  lemma {:induction false} LettersDivide(o: Ordering, now: string, later: string, args: seq<string>, i: nat, chars: string)
    requires i < |args|
    ensures Divides(args[i + 1..], Letters(o, now, later, args, i, chars).options, Letters(o, now, later, args, i, chars).operands)
    decreases |args| - i, 0, 0, |chars|
  {
    if chars == "" {
      ReadDivides(o, now, later, args, i + 1);
    } else if Wants(now, chars[0]).Unknown? || Wants(now, chars[0]).Plain? {
      LettersDivide(o, later, later, args, i, chars[1..]);
    } else if Wants(now, chars[0]).Required? && chars[1..] == "" && i + 1 < |args| {
      ReadDivides(o, later, later, args, i + 2);
      var r := Read(o, later, later, args, i + 2);
      assert args[i + 1..] == [args[i + 1]] + args[i + 2..];
      DividesOption(args[i + 1], args[i + 2..], r.options, r.operands);
    } else {
      ReadDivides(o, later, later, args, i + 1);
    }
  }

  lemma {:induction false} PickedAll(args: seq<string>, m: seq<bool>)
    requires |m| == |args|
    ensures multiset(Pick(args, m, true)) + multiset(Pick(args, m, false)) == multiset(args)
    decreases |args|
  {
    if args != [] {
      PickedAll(args[1..], m[1..]);
      assert args == [args[0]] + args[1..];
    }
  }

  lemma DivisionPermutes(args: seq<string>, options: seq<string>, operands: seq<string>)
    requires Divides(args, options, operands)
    ensures multiset(options + operands) == multiset(args)
  {
    var m :| Marks(args, m, options, operands);
    PickedAll(args, m);
  }

  // ---------------------------------------------------------------- the other orderings

  /** Without permuting, the operands are what is left from some point on. */
  lemma {:induction false} InOrderKeeps(o: Ordering, now: string, later: string, args: seq<string>, i: nat)
    requires o != Permute && i <= |args|
    ensures Read(o, now, later, args, i).options + Read(o, now, later, args, i).operands == args[i..]
    decreases |args| - i, 0, 1
  {
    if i < |args| {
      assert args[i..] == [args[i]] + args[i + 1..];
      if IsOperand(args[i]) {
        if o.ReturnInOrder? {
          InOrderKeeps(o, later, later, args, i + 1);
        }
      } else if args[i] != "--" {
        LettersKeepOrder(o, now, later, args, i, args[i][1..]);
      }
    }
  }

  lemma {:induction false} LettersKeepOrder(o: Ordering, now: string, later: string, args: seq<string>, i: nat, chars: string)
    requires o != Permute && i < |args|
    ensures Letters(o, now, later, args, i, chars).options + Letters(o, now, later, args, i, chars).operands == args[i + 1..]
    decreases |args| - i, 0, 0, |chars|
  {
    if chars == "" {
      InOrderKeeps(o, now, later, args, i + 1);
    } else if Wants(now, chars[0]).Unknown? || Wants(now, chars[0]).Plain? {
      LettersKeepOrder(o, later, later, args, i, chars[1..]);
    } else if Wants(now, chars[0]).Required? && chars[1..] == "" && i + 1 < |args| {
      InOrderKeeps(o, later, later, args, i + 2);
      assert args[i + 1..] == [args[i + 1]] + args[i + 2..];
    } else {
      InOrderKeeps(o, later, later, args, i + 1);
    }
  }

  /** The leading '+' or '-' of the list is itself taken for an option by every call but the
      first: the same letter is an error once and then an option. */
  lemma PrefixTakenForOption()
    ensures Read(RequireOrder, "a", "+a", ["p", "-++"], 1).events == [Opt('?', None), Opt('+', None)]
    ensures Read(RequireOrder, "a", "a", ["p", "-++"], 1).events == [Opt('?', None), Opt('?', None)]
  {
    var args := ["p", "-++"];
    assert args[1][1..] == "++" && "++"[1..] == "+";
    assert Wants("a", '+') == Unknown && Wants("+a", '+') == Plain;
  }

  /** The list without its prefix, which the first call uses, says the same of all other letters. */
  lemma PrefixIsOtherwiseHarmless(optstring: string, c: char)
    requires Prefixed(optstring) && c != optstring[0]
    ensures Wants(optstring, c) == Wants(Stripped(optstring), c)
  {
  }

  /** Two wishes have the same effect on a letter with these letters behind it, in the last
      argument or not. */
  predicate SameEffect(w: Wish, v: Wish, rest: string, last: bool) {
    || w == v
    || ({w, v} == {Plain, Optional} && rest == "")
    || ({w, v} == {Required, Optional} && rest != "")
    || ({w, v} == {Required, Unknown} && rest == "" && last)
  }

  /** At every letter looked up, the list with its prefix has the same effect as the list
      without; the only letter that matters is the prefix. */
  predicate SameLookups(o: Ordering, optstring: string, now: string, args: seq<string>, i: nat)
    decreases |args| - i, 0, 1
  {
    if i >= |args| then true
    else if IsOperand(args[i]) then
      match o
      case Permute => SameLookups(o, optstring, now, args, i + 1)
      case RequireOrder => true
      case ReturnInOrder => SameLookups(o, optstring, optstring, args, i + 1)
    else args[i] == "--" || SameLetters(o, optstring, now, args, i, args[i][1..])
  }

  predicate SameLetters(o: Ordering, optstring: string, now: string, args: seq<string>, i: nat, chars: string)
    requires i < |args|
    decreases |args| - i, 0, 0, |chars|
  {
    if chars == "" then SameLookups(o, optstring, now, args, i + 1)
    else
      var c, rest := chars[0], chars[1..];
      && SameEffect(Wants(now, c), Wants(Stripped(optstring), c), rest, i + 1 == |args|)
      && match Wants(now, c)
         case Unknown => SameLetters(o, optstring, optstring, args, i, rest)
         case Plain => SameLetters(o, optstring, optstring, args, i, rest)
         case Optional => SameLookups(o, optstring, optstring, args, i + 1)
         case Required => SameLookups(o, optstring, optstring, args, if rest == "" then i + 2 else i + 1)
  }

  lemma SameEvent(e: Event, r: Reading, e': Event, r': Reading)
    ensures WithEvent(e, r) == WithEvent(e', r') <==> e == e' && r == r'
  {
    assert WithEvent(e, r).events[0] == e && WithEvent(e, r).events[1..] == r.events;
    assert WithEvent(e', r').events[0] == e' && WithEvent(e', r').events[1..] == r'.events;
  }

  lemma SameOption(arg: string, r: Reading, r': Reading)
    ensures WithOption(arg, r) == WithOption(arg, r') <==> r == r'
  {
    assert WithOption(arg, r).options[1..] == r.options && WithOption(arg, r').options[1..] == r'.options;
  }

  lemma SameOperand(arg: string, r: Reading, r': Reading)
    ensures WithOperand(arg, r) == WithOperand(arg, r') <==> r == r'
  {
    assert WithOperand(arg, r).operands[1..] == r.operands && WithOperand(arg, r').operands[1..] == r'.operands;
  }

  /** All calls read alike, as if every one used the list without its prefix, exactly when no
      lookup of the prefix letter makes a difference. */
  lemma {:induction false} CallsAgree(o: Ordering, optstring: string, now: string, args: seq<string>, i: nat)
    requires Prefixed(optstring) && (now == optstring || now == Stripped(optstring))
    ensures Read(o, now, optstring, args, i) == Read(o, Stripped(optstring), Stripped(optstring), args, i)
       <==> SameLookups(o, optstring, now, args, i)
    decreases |args| - i, 0, 1
  {
    var plain := Stripped(optstring);
    if i < |args| {
      if IsOperand(args[i]) {
        if o.Permute? {
          CallsAgree(o, optstring, now, args, i + 1);
          SameOperand(args[i], Read(o, now, optstring, args, i + 1), Read(o, plain, plain, args, i + 1));
        } else if o.ReturnInOrder? {
          var r, r' := Read(o, optstring, optstring, args, i + 1), Read(o, plain, plain, args, i + 1);
          CallsAgree(o, optstring, optstring, args, i + 1);
          SameOption(args[i], r, r');
          SameEvent(Operand(args[i]), WithOption(args[i], r), Operand(args[i]), WithOption(args[i], r'));
        }
      } else if args[i] != "--" {
        LettersAgree(o, optstring, now, args, i, args[i][1..]);
        SameOption(args[i], Letters(o, now, optstring, args, i, args[i][1..]), Letters(o, plain, plain, args, i, args[i][1..]));
      }
    }
  }

  /** The event of one letter, and what is read behind it. */
  function EventOf(w: Wish, c: char, args: seq<string>, i: nat, rest: string): Event
    requires i < |args|
  {
    match w
    case Unknown => Opt('?', None)
    case Plain => Opt(c, None)
    case Optional => Opt(c, if rest == "" then None else Some(rest))
    case Required =>
      if rest != "" then Opt(c, Some(rest)) else if i + 1 == |args| then Opt('?', None) else Opt(c, Some(args[i + 1]))
  }

  function Behind(o: Ordering, w: Wish, later: string, args: seq<string>, i: nat, rest: string): Reading
    requires i < |args|
  {
    match w
    case Unknown => Letters(o, later, later, args, i, rest)
    case Plain => Letters(o, later, later, args, i, rest)
    case Optional => Read(o, later, later, args, i + 1)
    case Required =>
      if rest != "" || i + 1 == |args| then Read(o, later, later, args, i + 1)
      else WithOption(args[i + 1], Read(o, later, later, args, i + 2))
  }

  lemma LetterReads(o: Ordering, now: string, later: string, args: seq<string>, i: nat, chars: string)
    requires i < |args| && chars != ""
    ensures Letters(o, now, later, args, i, chars)
         == WithEvent(EventOf(Wants(now, chars[0]), chars[0], args, i, chars[1..]), Behind(o, Wants(now, chars[0]), later, args, i, chars[1..]))
  {
  }

  /** Wishes with the same effect are those with the same event; what is read behind the
      letter is then the same too. */
  lemma EffectIsEvent(o: Ordering, w: Wish, v: Wish, c: char, later: string, args: seq<string>, i: nat, rest: string)
    requires i < |args| && c != '?'
    ensures SameEffect(w, v, rest, i + 1 == |args|) <==> EventOf(w, c, args, i, rest) == EventOf(v, c, args, i, rest)
    ensures SameEffect(w, v, rest, i + 1 == |args|) ==> Behind(o, w, later, args, i, rest) == Behind(o, v, later, args, i, rest)
  {
    if rest == "" {
      assert Letters(o, later, later, args, i, rest) == Read(o, later, later, args, i + 1);
    }
  }

  lemma {:induction false} LettersAgree(o: Ordering, optstring: string, now: string, args: seq<string>, i: nat, chars: string)
    requires Prefixed(optstring) && (now == optstring || now == Stripped(optstring)) && i < |args|
    ensures Letters(o, now, optstring, args, i, chars) == Letters(o, Stripped(optstring), Stripped(optstring), args, i, chars)
       <==> SameLetters(o, optstring, now, args, i, chars)
    decreases |args| - i, 0, 0, |chars|
  {
    var plain := Stripped(optstring);
    if chars == "" {
      CallsAgree(o, optstring, now, args, i + 1);
    } else {
      var c, rest := chars[0], chars[1..];
      var w, v := Wants(now, c), Wants(plain, c);
      LetterReads(o, now, optstring, args, i, chars);
      LetterReads(o, plain, plain, args, i, chars);
      if c != optstring[0] {
        PrefixIsOtherwiseHarmless(optstring, c);
      } else {
        EffectIsEvent(o, w, v, c, plain, args, i, rest);
      }
      SameEvent(EventOf(w, c, args, i, rest), Behind(o, w, optstring, args, i, rest),
                EventOf(v, c, args, i, rest), Behind(o, v, plain, args, i, rest));
      BehindAgrees(o, optstring, w, args, i, rest);
    }
  }

  /** What is read behind a letter with this wish agrees when its lookups do. */
  lemma {:induction false} BehindAgrees(o: Ordering, optstring: string, w: Wish, args: seq<string>, i: nat, rest: string)
    requires Prefixed(optstring) && i < |args|
    ensures Behind(o, w, optstring, args, i, rest) == Behind(o, w, Stripped(optstring), args, i, rest)
       <==> match w
            case Unknown => SameLetters(o, optstring, optstring, args, i, rest)
            case Plain => SameLetters(o, optstring, optstring, args, i, rest)
            case Optional => SameLookups(o, optstring, optstring, args, i + 1)
            case Required => SameLookups(o, optstring, optstring, args, if rest == "" then i + 2 else i + 1)
    decreases |args| - i, 0, 0, |rest| + 1, 0
  {
    var plain := Stripped(optstring);
    match w
    case Unknown => LettersAgree(o, optstring, optstring, args, i, rest);
    case Plain => LettersAgree(o, optstring, optstring, args, i, rest);
    case Optional => CallsAgree(o, optstring, optstring, args, i + 1);
    case Required =>
      if rest != "" || i + 1 == |args| {
        CallsAgree(o, optstring, optstring, args, i + 1);
      } else {
        CallsAgree(o, optstring, optstring, args, i + 2);
        SameOption(args[i + 1], Read(o, optstring, optstring, args, i + 2), Read(o, plain, plain, args, i + 2));
      }
  }

  ghost predicate WithoutPrefix(optstring: string, args: seq<string>)
    requires optstring != ""
  {
    forall k :: 0 <= k < |args| ==> IsOperand(args[k]) || args[k] == "--" || optstring[0] !in args[k][1..]
  }

  /** So they do if no option element has that letter in it. */
  lemma {:induction false} AgreeWithout(o: Ordering, optstring: string, now: string, args: seq<string>, i: nat)
    requires Prefixed(optstring) && WithoutPrefix(optstring, args)
    requires now == optstring || now == Stripped(optstring)
    ensures SameLookups(o, optstring, now, args, i)
    decreases |args| - i, 0, 1
  {
    if i < |args| {
      if IsOperand(args[i]) {
        if o.Permute? {
          AgreeWithout(o, optstring, now, args, i + 1);
        } else {
          AgreeWithout(o, optstring, optstring, args, i + 1);
        }
      } else if args[i] != "--" {
        LettersWithout(o, optstring, now, args, i, args[i][1..]);
      }
    }
  }

  lemma {:induction false} LettersWithout(o: Ordering, optstring: string, now: string, args: seq<string>, i: nat, chars: string)
    requires Prefixed(optstring) && WithoutPrefix(optstring, args) && i < |args|
    requires now == optstring || now == Stripped(optstring)
    requires optstring[0] !in chars
    ensures SameLetters(o, optstring, now, args, i, chars)
    decreases |args| - i, 0, 0, |chars|
  {
    if chars == "" {
      AgreeWithout(o, optstring, now, args, i + 1);
    } else {
      PrefixIsOtherwiseHarmless(optstring, chars[0]);
      LettersWithout(o, optstring, optstring, args, i, chars[1..]);
      AgreeWithout(o, optstring, optstring, args, i + 1);
      AgreeWithout(o, optstring, optstring, args, i + 2);
    }
  }
}
