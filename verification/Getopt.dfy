/** getopt of gnu/lib/getopt.c for short options: each call scans on from where the last
    one stopped, and moves the options found since before the operands skipped. */
module Getopt {
  import opened GetoptReading

  /** The two stretches that meet at last change places. */
  function Exchanged(argv: seq<string>, first: nat, last: nat, ind: nat): (r: seq<string>)
    requires first <= last <= ind <= |argv|
    ensures |r| == |argv|
  {
    argv[..first] + argv[last..ind] + argv[first..last] + argv[ind..]
  }

  function Blit(s: seq<string>, j: nat, piece: seq<string>): seq<string>
    requires j + |piece| <= |s|
  {
    s[..j] + piece + s[j + |piece|..]
  }

  /** Moving the options down and writing the saved operands behind them exchanges the two. */
  lemma TwoBlits(s: seq<string>, first: nat, last: nat, ind: nat)
    requires first <= last <= ind <= |s|
    ensures Blit(Blit(s, first, s[last..ind]), first + (ind - last), s[first..last]) == Exchanged(s, first, last, ind)
  {
    var t := Blit(s, first, s[last..ind]);
    assert t[..first + (ind - last)] == s[..first] + s[last..ind];
    assert t[ind..] == s[ind..];
  }

  /** Copies n elements forward, one after the other. */
  method Copy(from: array<string>, i: nat, to: array<string>, j: nat, n: nat)
    requires i + n <= from.Length && j + n <= to.Length
    requires from == to ==> j <= i
    modifies to
    ensures to[..] == Blit(old(to[..]), j, old(from[i..i + n]))
  {
    hide Blit;
    var k := 0;
    while k < n
      invariant 0 <= k <= n
      invariant forall x :: 0 <= x < j ==> to[x] == old(to[x])
      invariant forall x :: j <= x < j + k ==> to[x] == old(from[i + (x - j)])
      invariant forall x :: i + k <= x < i + n ==> from[x] == old(from[x])
      invariant forall x :: j + k <= x < to.Length ==> to[x] == old(to[x])
    {
      to[j + k] := from[i + k];
      k := k + 1;
    }
    BlitIs(old(to[..]), j, old(from[i..i + n]), to[..]);
  }

  lemma BlitIs(s: seq<string>, j: nat, piece: seq<string>, r: seq<string>)
    requires j + |piece| <= |s| == |r|
    requires forall x :: 0 <= x < j ==> r[x] == s[x]
    requires forall x :: j <= x < j + |piece| ==> r[x] == piece[x - j]
    requires forall x :: j + |piece| <= x < |s| ==> r[x] == s[x]
    ensures r == Blit(s, j, piece)
  {
  }

  class Scanner {
    const argv: array<string>
    var optind: nat
    var nextchar: string
    var ordering: Ordering
    var first: nat
    var last: nat

    /** Nothing is scanned yet. */
    constructor (args: array<string>)
      ensures argv == args && optind == 0
    {
      argv := args;
      optind, nextchar, ordering, first, last := 0, "", Permute, 0, 0;
    }

    method Exchange()
      requires first <= last <= optind <= argv.Length
      modifies this`first, this`last, argv
      ensures argv[..] == Exchanged(old(argv[..]), old(first), old(last), optind)
      ensures first == old(first) + (optind - old(last)) && last == optind
    {
      ghost var s := argv[..];
      TwoBlits(s, first, last, optind);
      var temp := Saved(first, last);
      CopyWithin(last, first, optind - last);
      Restore(temp, first + (optind - last));
      first := first + (optind - last);
      last := optind;
    }

    method Saved(from: nat, to: nat) returns (temp: array<string>)
      requires from <= to <= argv.Length
      ensures fresh(temp) && temp[..] == argv[from..to]
    {
      temp := new string[to - from];
      Copy(argv, from, temp, 0, to - from);
      assert temp[..] == argv[from..from + (to - from)];
    }

    method CopyWithin(from: nat, to: nat, n: nat)
      requires to <= from && from + n <= argv.Length
      modifies argv
      ensures argv[..] == Blit(old(argv[..]), to, old(argv[..])[from..from + n])
    {
      Copy(argv, from, argv, to, n);
    }

    method Restore(temp: array<string>, to: nat)
      requires temp != argv && to + temp.Length <= argv.Length
      modifies argv
      ensures argv[..] == Blit(old(argv[..]), to, temp[..])
    {
      Copy(temp, 0, argv, to, temp.Length);
      assert temp[0..0 + temp.Length] == temp[..];
    }

    /** What is still to be found, seen from the original arguments. */
    ghost function Pending(now: string, later: string, orig: seq<string>): Reading
      requires nextchar != "" ==> optind < |orig|
      reads this
    {
      if nextchar == "" then Read(ordering, now, later, orig, optind)
      else WithOption(orig[optind], Letters(ordering, now, later, orig, optind, nextchar))
    }

    ghost predicate Shape(orig: seq<string>)
      reads this, argv
    {
      && 1 <= first <= last <= optind <= argv.Length == |orig|
      && argv[0] == orig[0] && argv[optind..] == orig[optind..]
      && (ordering != Permute ==> first == last == 1)
      && (nextchar != "" ==> optind < |orig|)
    }

    /** What is found and what is pending is all there is to be found. */
    ghost predicate Scanning(now: string, later: string, orig: seq<string>, found: seq<Event>, total: Reading)
      reads this, argv
    {
      && Shape(orig)
      && found + Pending(now, later, orig).events == total.events
      && Divided(argv[..], first, last, optind, Pending(now, later, orig), total)
    }

    ghost predicate Finished(orig: seq<string>, found: seq<Event>, total: Reading)
      reads this, argv
    {
      && found == total.events
      && |orig| > 0 && argv[..] == [orig[0]] + total.options + total.operands
      && optind == 1 + |total.options|
    }

    /** As Scanning between elements, all options found standing before the operands. */
    ghost predicate Grouped(now: string, later: string, orig: seq<string>, found: seq<Event>, total: Reading)
      reads this, argv
    {
      && 1 <= first <= optind <= argv.Length == |orig|
      && argv[0] == orig[0] && argv[optind..] == orig[optind..]
      && found + Read(Permute, now, later, orig, optind).events == total.events
      && Divided(argv[..], first, optind, optind, Read(Permute, now, later, orig, optind), total)
    }

    /** Moves the options found since the skipped operands before these. */
    method Regroup(now: string, later: string, ghost orig: seq<string>, ghost found: seq<Event>, ghost total: Reading)
      requires Scanning(now, later, orig, found, total) && nextchar == "" && ordering == Permute
      modifies this`first, this`last, argv
      ensures Grouped(now, later, orig, found, total)
    {
      ghost var pending := Pending(now, later, orig);
      if first != last && last != optind {
        ExchangedDivided(argv[..], first, last, optind, pending, total);
        Exchange();
      } else if last != optind {
        NoOperands(argv[..], first, optind, pending, total);
        first := optind;
      }
    }

    /** Then skips further operands. */
    method SkipOperands(now: string, later: string, ghost orig: seq<string>, ghost found: seq<Event>, ghost total: Reading)
      requires Scanning(now, later, orig, found, total) && nextchar == "" && ordering == Permute
      modifies this`first, this`last, this`optind, argv
      ensures Scanning(now, later, orig, found, total)
      ensures last == optind && (optind < argv.Length ==> !IsOperand(argv[optind]))
    {
      Regroup(now, later, orig, found, total);
      while optind < argv.Length && IsOperand(argv[optind])
        invariant Grouped(now, later, orig, found, total)
      {
        hide Divided;
        assert argv[optind] == orig[optind] && argv[optind + 1..] == argv[optind..][1..];
        OneMoreOperand(argv[..], first, optind, Read(Permute, now, later, orig, optind + 1), total);
        optind := optind + 1;
      }
      last := optind;
    }

    /** A "--" is moved like an option; everything behind it is an operand. */
    method EndOfOptions(now: string, later: string, ghost orig: seq<string>, ghost found: seq<Event>, ghost total: Reading)
      requires Scanning(now, later, orig, found, total) && nextchar == ""
      requires optind < argv.Length && argv[optind] == "--" && (ordering == Permute ==> last == optind)
      modifies this`first, this`last, this`optind, argv
      ensures found == total.events && |orig| > 0
      ensures argv[..] == [orig[0]] + total.options + total.operands
      ensures optind == argv.Length && first == 1 + |total.options| && last == argv.Length
    {
      assert argv[optind] == orig[optind];
      ghost var rest := orig[optind + 1..];
      optind := optind + 1;
      if first != last && last != optind {
        EndExchanged(argv[..], first, last, rest, total);
        Exchange();
      } else if first == last {
        EndInPlace(argv[..], first, optind - 1, rest, total);
        first := optind;
      }
      last := argv.Length;
      optind := argv.Length;
    }

    /** Takes the next option character; opts is the list it is looked up in. */
    method Take(opts: string) returns (e: Event)
      requires nextchar != "" && optind < argv.Length
      modifies this`optind, this`nextchar
      ensures Taken(e, optind, nextchar) == TakeLetter(opts, argv[..], old(optind), old(nextchar))
    {
      var c := nextchar[0];
      nextchar := nextchar[1..];
      var wish := Wants(opts, c);
      var arg := None;
      if nextchar == "" {
        optind := optind + 1;
      }
      if wish.Unknown? {
        c := '?';
      } else if wish.Optional? {
        if nextchar != "" {
          arg := Some(nextchar);
          optind := optind + 1;
        }
        nextchar := "";
      } else if wish.Required? {
        if nextchar != "" {
          arg := Some(nextchar);
          optind := optind + 1;
        } else if optind == argv.Length {
          c := '?';
        } else {
          arg := Some(argv[optind]);
          optind := optind + 1;
        }
        nextchar := "";
      }
      e := Opt(c, arg);
    }

    method Letter(opts: string, later: string, ghost orig: seq<string>, ghost found: seq<Event>, ghost total: Reading)
      returns (e: Event)
      requires Scanning(opts, later, orig, found, total) && nextchar != ""
      modifies this`optind, this`nextchar
      ensures Scanning(later, later, orig, found + [e], total)
    {
      hide Read, Letters, TakeLetter;
      ghost var start := optind;
      assert argv[start] == orig[start] && (start + 1 < argv.Length ==> argv[start + 1] == argv[start..][1] == orig[start + 1]);
      TakeLetterReads(ordering, opts, later, argv[..], orig, start, nextchar);
      e := Take(opts);
      if optind > start {
        Passed(argv[..], first, last, start, optind, Read(ordering, later, later, orig, optind), total);
      }
      assert argv[optind..] == argv[start..][optind - start..] == orig[start..][optind - start..];
    }

    /** Goes on to the next element: an operand may be the event itself, an option's letters
        are still to be taken, or this is the end. */
    method Element(opts: string, later: string, ghost orig: seq<string>, ghost found: seq<Event>, ghost total: Reading)
      returns (e: Option<Event>, end: bool)
      requires Scanning(opts, later, orig, found, total) && nextchar == ""
      modifies this`first, this`last, this`optind, this`nextchar, argv
      ensures end ==> e == None && Finished(orig, found, total)
      ensures !end && e.Some? ==> Scanning(later, later, orig, found + [e.value], total)
      ensures !end && e.None? ==> Scanning(opts, later, orig, found, total) && nextchar != ""
    {
      hide Divided, Letters;
      e, end := None, false;
      if ordering == Permute {
        SkipOperands(opts, later, orig, found, total);
      }
      if optind != argv.Length && argv[optind] == "--" {
        EndOfOptions(opts, later, orig, found, total);
        if first != last {
          optind := first;
        }
        return None, true;
      }
      if optind == argv.Length {
        EndReached(argv[..], first, last, optind, total);
        if first != last {
          optind := first;
        }
        return None, true;
      }
      assert argv[optind] == orig[optind] && argv[optind..][1..] == argv[optind + 1..];
      if IsOperand(argv[optind]) {
        if ordering == RequireOrder {
          StoppedAtOperand(argv[..], optind, orig[optind..], total);
          return None, true;
        }
        e := Some(Operand(argv[optind]));
        EventAside(argv[..], first, last, optind, e.value, WithOption(argv[optind], Read(ordering, later, later, orig, optind + 1)), total);
        OptionPassed(argv[..], first, last, optind, Read(ordering, later, later, orig, optind + 1), total);
        optind := optind + 1;
      } else {
        nextchar := argv[optind][1..];
      }
    }

    /** One call: the next event, or none at the end. */
    method Next(optstring: string, posixly: bool, ghost orig: seq<string>, ghost found: seq<Event>, ghost total: Reading)
      returns (e: Option<Event>)
      requires optind == 0 ==> argv[..] == orig && orig != [] && found == []
      requires optind == 0 ==> total == Read(OrderingOf(optstring, posixly), Stripped(optstring), optstring, orig, 1)
      requires optind > 0 ==> Scanning(optstring, optstring, orig, found, total)
      modifies this, argv
      ensures e.Some? ==> optind > 0 && Scanning(optstring, optstring, orig, found + [e.value], total)
      ensures e.None? ==> Finished(orig, found, total)
    {
      var opts := optstring;
      if optind == 0 {
        first, last, optind := 1, 1, 1;
        nextchar := "";
        ordering := OrderingOf(optstring, posixly);
        opts := Stripped(optstring);
      }
      if nextchar == "" {
        var end;
        e, end := Element(opts, optstring, orig, found, total);
        if end || e.Some? {
          return;
        }
      }
      var letter := Letter(opts, optstring, orig, found, total);
      e := Some(letter);
    }
  }

  lemma EventAside(argv: seq<string>, first: nat, last: nat, ind: nat, e: Event, r: Reading, total: Reading)
    requires 1 <= first <= last <= ind <= |argv|
    ensures Divided(argv, first, last, ind, WithEvent(e, r), total) <==> Divided(argv, first, last, ind, r, total)
  {
  }

  lemma OptionPassed(argv: seq<string>, first: nat, last: nat, ind: nat, rest: Reading, total: Reading)
    requires 1 <= first <= last <= ind < |argv| && Divided(argv, first, last, ind, WithOption(argv[ind], rest), total)
    ensures Divided(argv, first, last, ind + 1, rest, total)
  {
    assert argv[last..ind + 1] == argv[last..ind] + [argv[ind]];
  }

  /** The event for a letter, the element it leaves us at, and the letters left there. */
  datatype Taken = Taken(e: Event, ind: nat, rest: string)

  function TakeLetter(opts: string, args: seq<string>, i: nat, chars: string): (t: Taken)
    requires i < |args| && chars != ""
    ensures i <= t.ind <= |args| && t.ind <= i + 2
    ensures t.ind == i <==> t.rest != ""
  {
    var c, rest := chars[0], chars[1..];
    var next := if rest == "" then i + 1 else i;
    match Wants(opts, c)
    case Unknown => Taken(Opt('?', None), next, rest)
    case Plain => Taken(Opt(c, None), next, rest)
    case Optional => Taken(Opt(c, if rest == "" then None else Some(rest)), i + 1, "")
    case Required =>
      if rest != "" then Taken(Opt(c, Some(rest)), i + 1, "")
      else if i + 1 == |args| then Taken(Opt('?', None), i + 1, "")
      else Taken(Opt(c, Some(args[i + 1])), i + 2, "")
  }

  lemma TakeLetterReads(o: Ordering, now: string, later: string, argv: seq<string>, orig: seq<string>, i: nat, chars: string)
    requires i < |argv| == |orig| && chars != ""
    requires i + 1 < |argv| ==> argv[i + 1] == orig[i + 1]
    ensures var t := TakeLetter(now, argv, i, chars);
      Letters(o, now, later, orig, i, chars) == WithEvent(t.e,
        if t.ind == i then Letters(o, later, later, orig, i, t.rest)
        else if t.ind == i + 1 then Read(o, later, later, orig, i + 1)
        else WithOption(orig[i + 1], Read(o, later, later, orig, i + 2)))
  {
  }

  /** An option element is passed, or one and the next, its argument. */
  lemma Passed(argv: seq<string>, first: nat, last: nat, ind: nat, ind': nat, rest: Reading, total: Reading)
    requires 1 <= first <= last <= ind < ind' <= |argv| && ind' <= ind + 2
    requires ind' == ind + 1 ==> Divided(argv, first, last, ind, WithOption(argv[ind], rest), total)
    requires ind' == ind + 2 ==> Divided(argv, first, last, ind, WithOption(argv[ind], WithOption(argv[ind + 1], rest)), total)
    ensures Divided(argv, first, last, ind', rest, total)
  {
    if ind' == ind + 2 {
      OptionPassed(argv, first, last, ind, WithOption(argv[ind + 1], rest), total);
      OptionPassed(argv, first, last, ind + 1, rest, total);
    } else {
      OptionPassed(argv, first, last, ind, rest, total);
    }
  }

  lemma EndReached(argv: seq<string>, first: nat, last: nat, ind: nat, total: Reading)
    requires 1 <= first <= last <= ind == |argv| && (last == ind || first == last == 1)
    requires Divided(argv, first, last, ind, Reading([], [], []), total)
    ensures argv == [argv[0]] + total.options + total.operands
    ensures (if first != last then first else ind) == 1 + |total.options|
  {
    var k := if last == ind then first else ind;
    ThreeParts(argv, k);
    assert last == ind ==> argv[1..first] + argv[last..ind] == argv[1..k] && argv[first..last] == argv[k..];
    assert last < ind ==> argv[1..first] + argv[last..ind] == argv[1..k] && argv[first..last] == [] == argv[k..];
  }

  lemma ThreeParts(argv: seq<string>, k: nat)
    requires 1 <= k <= |argv|
    ensures argv == [argv[0]] + argv[1..k] + argv[k..] && |argv[1..k]| == k - 1
  {
  }

  lemma StoppedAtOperand(argv: seq<string>, ind: nat, rest: seq<string>, total: Reading)
    requires 1 <= ind < |argv| && argv[ind..] == rest
    requires Divided(argv, 1, 1, ind, Reading([], [], rest), total)
    ensures argv == [argv[0]] + total.options + total.operands
    ensures ind == 1 + |total.options|
  {
    assert argv == [argv[0]] + argv[1..ind] + argv[ind..];
  }

  lemma EndExchanged(argv: seq<string>, first: nat, ind: nat, rest: seq<string>, total: Reading)
    requires 1 <= first <= ind < |argv| && argv[ind] == "--" && argv[ind + 1..] == rest
    requires Divided(argv, first, ind, ind, Reading([], ["--"], rest), total)
    ensures Exchanged(argv, first, ind, ind + 1) == [argv[0]] + total.options + total.operands
    ensures first + 1 == 1 + |total.options|
  {
    assert total.options == argv[1..first] + ["--"];
    assert argv[ind..ind + 1] == ["--"];
    assert argv[..first] == [argv[0]] + argv[1..first];
  }

  lemma EndInPlace(argv: seq<string>, first: nat, ind: nat, rest: seq<string>, total: Reading)
    requires 1 <= first <= ind < |argv| && argv[ind] == "--" && argv[ind + 1..] == rest
    requires Divided(argv, first, first, ind, Reading([], ["--"], rest), total)
    ensures argv == [argv[0]] + total.options + total.operands
    ensures ind + 1 == 1 + |total.options|
  {
    assert total.options == argv[1..ind] + ["--"];
    assert argv == [argv[0]] + argv[1..ind] + [argv[ind]] + argv[ind + 1..];
  }

  lemma NoOperands(argv: seq<string>, first: nat, ind: nat, pending: Reading, total: Reading)
    requires 1 <= first <= ind <= |argv| && Divided(argv, first, first, ind, pending, total)
    ensures Divided(argv, ind, ind, ind, pending, total)
  {
    assert argv[1..first] + argv[first..ind] == argv[1..ind] + argv[ind..ind];
  }

  lemma OneMoreOperand(argv: seq<string>, first: nat, ind: nat, rest: Reading, total: Reading)
    requires 1 <= first <= ind < |argv| && Divided(argv, first, ind, ind, WithOperand(argv[ind], rest), total)
    ensures Divided(argv, first, ind + 1, ind + 1, rest, total)
  {
    assert argv[first..ind + 1] == argv[first..ind] + [argv[ind]];
    assert argv[ind..ind] == argv[ind + 1..ind + 1];
  }

  ghost predicate Divided(argv: seq<string>, first: nat, last: nat, ind: nat, pending: Reading, total: Reading)
    requires 1 <= first <= last <= ind <= |argv|
  {
    && total.options == (argv[1..first] + argv[last..ind]) + pending.options
    && total.operands == argv[first..last] + pending.operands
  }

  /** Exchanging does not change which elements are options and which are operands. */
  lemma ExchangedDivided(argv: seq<string>, first: nat, last: nat, ind: nat, pending: Reading, total: Reading)
    requires 1 <= first <= last <= ind <= |argv| && Divided(argv, first, last, ind, pending, total)
    ensures Divided(Exchanged(argv, first, last, ind), first + (ind - last), ind, ind, pending, total)
    ensures Exchanged(argv, first, last, ind)[ind..] == argv[ind..]
    ensures Exchanged(argv, first, last, ind)[0] == argv[0]
  {
    var r := Exchanged(argv, first, last, ind);
    assert r[1..first + (ind - last)] == argv[1..first] + argv[last..ind];
    assert r[first + (ind - last)..ind] == argv[first..last];
    assert r[ind..ind] == [];
  }

  /** Calls getopt until it returns the end. */
  method ScanAll(args: array<string>, optstring: string, posixly: bool) returns (events: seq<Event>, optind: nat)
    requires args.Length > 0
    modifies args
    ensures var r := Read(OrderingOf(optstring, posixly), Stripped(optstring), optstring, old(args[..]), 1);
      events == r.events && args[..] == [old(args[0])] + r.options + r.operands && optind == 1 + |r.options|
    ensures Divides(old(args[1..]), args[1..optind], args[optind..])
    ensures multiset(args[..]) == multiset(old(args[..]))
    ensures OrderingOf(optstring, posixly) != Permute ==> args[..] == old(args[..])
  {
    ghost var orig := args[..];
    ghost var o := OrderingOf(optstring, posixly);
    ghost var total := Read(o, Stripped(optstring), optstring, orig, 1);
    var scanner := new Scanner(args);
    events := [];
    var e := scanner.Next(optstring, posixly, orig, events, total);
    while e.Some?
      invariant scanner.argv == args && fresh(scanner)
      invariant e.Some? ==> scanner.optind > 0 && scanner.Scanning(optstring, optstring, orig, events + [e.value], total)
      invariant e.None? ==> scanner.Finished(orig, events, total)
      decreases |total.events| - |events|, e.Some?
    {
      events := events + [e.value];
      e := scanner.Next(optstring, posixly, orig, events, total);
    }
    optind := scanner.optind;
    ReadDivides(o, Stripped(optstring), optstring, orig, 1);
    Arranged(orig, args[..], total);
    if o != Permute {
      InOrderKeeps(o, Stripped(optstring), optstring, orig, 1);
    }
  }

  lemma Arranged(orig: seq<string>, argv: seq<string>, total: Reading)
    requires orig != [] && argv == [orig[0]] + total.options + total.operands
    requires Divides(orig[1..], total.options, total.operands)
    ensures argv[1..1 + |total.options|] == total.options && argv[1 + |total.options|..] == total.operands
    ensures multiset(argv) == multiset(orig)
    ensures total.options + total.operands == orig[1..] ==> argv == orig
  {
    DivisionPermutes(orig[1..], total.options, total.operands);
    assert argv == [orig[0]] + (total.options + total.operands) && orig == [orig[0]] + orig[1..];
  }
}
