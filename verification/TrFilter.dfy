/** The filters of gnu/src/tr.c: deleting, translating and squeezing characters, buffer by
    buffer, whatever pieces the input is read in. */
module TrFilter {

  /** A character is its code. */
  type Char = c: int | 0 <= c < 256

  /** Membership of each character. */
  type CharSet = Char -> bool

  function Kept(s: seq<Char>, deleted: CharSet): seq<Char> {
    if s == [] then [] else (if deleted(s[0]) then [] else [s[0]]) + Kept(s[1..], deleted)
  }

  function Mapped(s: seq<Char>, xlate: Char -> Char): (r: seq<Char>)
    ensures |r| == |s|
    ensures forall k :: 0 <= k < |s| ==> r[k] == xlate(s[k])
  {
    if s == [] then [] else [xlate(s[0])] + Mapped(s[1..], xlate)
  }

  /** A character goes when it equals the one before it and is in the set. */
  predicate Repeats(s: seq<Char>, k: nat, squeezed: CharSet)
    requires k < |s|
  {
    k > 0 && s[k] == s[k - 1] && squeezed(s[k])
  }

  function SqueezedTo(s: seq<Char>, n: nat, squeezed: CharSet): seq<Char>
    requires n <= |s|
  {
    if n == 0 then []
    else SqueezedTo(s, n - 1, squeezed) + (if Repeats(s, n - 1, squeezed) then [] else [s[n - 1]])
  }

  function Squeezed(s: seq<Char>, squeezed: CharSet): seq<Char> {
    SqueezedTo(s, |s|, squeezed)
  }

  lemma {:induction false} KeptAppend(s: seq<Char>, t: seq<Char>, deleted: CharSet)
    ensures Kept(s + t, deleted) == Kept(s, deleted) + Kept(t, deleted)
    decreases |s|
  {
    if s == [] {
      assert s + t == t;
    } else {
      KeptAppend(s[1..], t, deleted);
      assert (s + t)[1..] == s[1..] + t;
    }
  }

  lemma MappedAppend(s: seq<Char>, t: seq<Char>, xlate: Char -> Char)
    ensures Mapped(s + t, xlate) == Mapped(s, xlate) + Mapped(t, xlate)
  {
  }

  /** Where nothing repeats, nothing is squeezed. */
  lemma {:induction false} SqueezeNothing(s: seq<Char>, m: nat, n: nat, squeezed: CharSet)
    requires m <= n <= |s|
    requires forall k :: m <= k < n ==> !Repeats(s, k, squeezed)
    ensures SqueezedTo(s, n, squeezed) == SqueezedTo(s, m, squeezed) + s[m..n]
    decreases n
  {
    if m < n {
      SqueezeNothing(s, m, n - 1, squeezed);
      assert !Repeats(s, n - 1, squeezed);
      assert s[m..n] == s[m..n - 1] + [s[n - 1]];
    }
  }

  /** A run of one squeezed character goes altogether. */
  lemma {:induction false} SqueezeRun(s: seq<Char>, m: nat, n: nat, squeezed: CharSet)
    requires m <= n <= |s| && (forall k :: m <= k < n ==> Repeats(s, k, squeezed))
    ensures SqueezedTo(s, n, squeezed) == SqueezedTo(s, m, squeezed)
    decreases n
  {
    if m < n {
      assert Repeats(s, n - 1, squeezed);
      SqueezeRun(s, m, n - 1, squeezed);
    }
  }

  /** The last character out is the last one in. */
  lemma {:induction false} LastStays(s: seq<Char>, n: nat, squeezed: CharSet)
    requires 0 < n <= |s|
    ensures SqueezedTo(s, n, squeezed) != []
    ensures SqueezedTo(s, n, squeezed)[|SqueezedTo(s, n, squeezed)| - 1] == s[n - 1]
    decreases n
  {
    if Repeats(s, n - 1, squeezed) {
      LastStays(s, n - 1, squeezed);
    }
  }

  /** What is squeezed has nothing left to squeeze. */
  lemma {:induction false} NoRepeatsLeft(s: seq<Char>, n: nat, squeezed: CharSet)
    requires n <= |s|
    ensures forall k :: 0 <= k < |SqueezedTo(s, n, squeezed)| ==> !Repeats(SqueezedTo(s, n, squeezed), k, squeezed)
    decreases n
  {
    if n > 0 {
      NoRepeatsLeft(s, n - 1, squeezed);
      var r, t := SqueezedTo(s, n, squeezed), SqueezedTo(s, n - 1, squeezed);
      if n > 1 {
        LastStays(s, n - 1, squeezed);
      }
      forall k | 0 <= k < |r| ensures !Repeats(r, k, squeezed) {
        if k < |t| {
          assert !Repeats(t, k, squeezed);
        }
      }
    }
  }

  lemma SqueezeTwice(s: seq<Char>, squeezed: CharSet)
    ensures Squeezed(Squeezed(s, squeezed), squeezed) == Squeezed(s, squeezed)
  {
    var r := Squeezed(s, squeezed);
    NoRepeatsLeft(s, |s|, squeezed);
    SqueezeNothing(r, 0, |r|, squeezed);
    assert r[0..|r|] == r;
  }

  // ---------------------------------------------------------------- reading

  datatype Option<T> = None | Some(value: T)

  /** Which function reads the buffers: read itself, read_and_delete or read_and_xlate. */
  datatype Reader = Plain | Deleting(deleted: CharSet) | Translating(xlate: Char -> Char)

  /** What a reader makes of the input. */
  function Through(reader: Reader, s: seq<Char>): seq<Char> {
    match reader
    case Plain => s
    case Deleting(deleted) => Kept(s, deleted)
    case Translating(xlate) => Mapped(s, xlate)
  }

  class Input {
    var rest: seq<Char>
    var hitEof: bool

    constructor (content: seq<Char>)
      ensures rest == content && !hitEof
    {
      rest, hitEof := content, false;
    }

    ghost predicate Valid()
      reads this
    {
      hitEof ==> rest == []
    }

    /** Some of the rest, up to the buffer's size; nothing only at the end. */
    method ReadSome(buf: array<Char>) returns (nr: nat)
      requires buf.Length > 0 && Valid()
      modifies this`rest, buf
      ensures nr <= buf.Length && buf[..nr] + rest == old(rest) && Valid()
      ensures nr == 0 ==> old(rest) == []
    {
      var n: int := *;
      if n < 1 || n > buf.Length {
        n := buf.Length;
      }
      if n > |rest| {
        n := |rest|;
      }
      var i := 0;
      while i < n
        invariant 0 <= i <= n && rest == old(rest)
        invariant buf[..i] == rest[..i]
      {
        buf[i] := rest[i];
        i := i + 1;
      }
      nr := n;
      rest := rest[n..];
    }

    /** Reads buffers until one has something left after deleting. */
    method ReadAndDelete(buf: array<Char>, deleted: CharSet) returns (saved: nat)
      requires buf.Length > 0 && Valid()
      modifies this, buf
      ensures Valid() && saved <= buf.Length
      ensures Kept(old(rest), deleted) == buf[..saved] + Kept(rest, deleted)
      ensures saved == 0 ==> rest == []
    {
      saved := 0;
      if hitEof {
        return;
      }
      ghost var all := rest;
      while saved == 0
        invariant Valid() && saved <= buf.Length
        invariant Kept(all, deleted) == buf[..saved] + Kept(rest, deleted)
        decreases saved == 0, |rest|
      {
        ghost var before := rest;
        var nr := ReadSome(buf);
        if nr == 0 {
          hitEof := true;
          return;
        }
        KeptAppend(buf[..nr], rest, deleted);
        saved := Compact(buf, nr, deleted);
      }
    }

    method ReadAndXlate(buf: array<Char>, xlate: Char -> Char) returns (nr: nat)
      requires buf.Length > 0 && Valid()
      modifies this, buf
      ensures Valid() && nr <= buf.Length
      ensures Mapped(old(rest), xlate) == buf[..nr] + Mapped(rest, xlate)
      ensures nr == 0 ==> rest == []
    {
      nr := 0;
      if hitEof {
        return;
      }
      nr := ReadSome(buf);
      if nr == 0 {
        hitEof := true;
        return;
      }
      MappedAppend(buf[..nr], rest, xlate);
      TranslateInPlace(buf, nr, xlate);
    }

    method Read(buf: array<Char>, reader: Reader) returns (nr: nat)
      requires buf.Length > 0 && Valid()
      modifies this, buf
      ensures Valid() && nr <= buf.Length
      ensures Through(reader, old(rest)) == buf[..nr] + Through(reader, rest)
      ensures nr == 0 ==> Through(reader, rest) == []
    {
      match reader
      case Plain => nr := ReadSome(buf);
      case Deleting(deleted) => nr := ReadAndDelete(buf, deleted);
      case Translating(xlate) => nr := ReadAndXlate(buf, xlate);
    }
  }

  /** Moves the characters that stay to the front of the buffer. */
  method Compact(buf: array<Char>, nr: nat, deleted: CharSet) returns (saved: nat)
    requires nr <= buf.Length
    modifies buf
    ensures saved <= nr && buf[..saved] == Kept(old(buf[..nr]), deleted)
  {
    ghost var s := buf[..nr];
    var i := 0;
    while i < nr && !deleted(buf[i])
      invariant 0 <= i <= nr && buf[..nr] == s && Kept(s[..i], deleted) == s[..i]
    {
      KeptOne(s, i, deleted);
      i := i + 1;
    }
    saved := i;
    assert s[..nr] == s;
    if i < nr {
      KeptOne(s, i, deleted);
      i := i + 1;
      saved := CompactRest(buf, i, saved, nr, deleted, s);
    }
  }

  method CompactRest(buf: array<Char>, from: nat, to: nat, nr: nat, deleted: CharSet, ghost s: seq<Char>) returns (saved: nat)
    requires to < from <= nr <= buf.Length && s == buf[..nr]
    requires buf[..to] == Kept(s[..from], deleted)
    modifies buf
    ensures saved <= nr && buf[..saved] == Kept(s, deleted)
  {
    saved := to;
    var i := from;
    while i < nr
      invariant saved < i <= nr && buf[..saved] == Kept(s[..i], deleted)
      invariant forall k :: i <= k < nr ==> buf[k] == s[k]
    {
      KeptOne(s, i, deleted);
      if !deleted(buf[i]) {
        buf[saved] := buf[i];
        saved := saved + 1;
      }
      i := i + 1;
    }
    assert s[..nr] == s;
  }

  lemma KeptOne(s: seq<Char>, i: nat, deleted: CharSet)
    requires i < |s|
    ensures Kept(s[..i + 1], deleted) == Kept(s[..i], deleted) + if deleted(s[i]) then [] else [s[i]]
    ensures s[..i + 1] == s[..i] + [s[i]]
  {
    KeptAppend(s[..i], [s[i]], deleted);
    assert s[..i + 1] == s[..i] + [s[i]];
  }

  method TranslateInPlace(buf: array<Char>, nr: nat, xlate: Char -> Char)
    requires nr <= buf.Length
    modifies buf
    ensures buf[..nr] == Mapped(old(buf[..nr]), xlate)
  {
    var i := 0;
    while i < nr
      invariant 0 <= i <= nr
      invariant forall k :: 0 <= k < i ==> buf[k] == xlate(old(buf[k]))
      invariant forall k :: i <= k < nr ==> buf[k] == old(buf[k])
    {
      buf[i] := xlate(buf[i]);
      i := i + 1;
    }
  }

  // ---------------------------------------------------------------- squeezing

  /** The buffer holds what stands at base in all that is read. */
  ghost predicate Holds(buf: array<Char>, nr: nat, all: seq<Char>, base: nat)
    reads buf
  {
    nr <= buf.Length && base + nr <= |all| && (forall k :: 0 <= k < nr ==> buf[k] == all[base + k])
  }

  /** Nothing between from and to repeats the character before it. */
  ghost predicate Quiet(all: seq<Char>, from: nat, to: nat, squeezed: CharSet)
    requires to <= |all|
  {
    forall p :: from < p < to ==> !Repeats(all, p, squeezed)
  }

  function Upto(i: nat, nr: nat): (e: nat)
    ensures e <= nr && e <= i && (e == i || e == nr)
  {
    if i < nr then i else nr
  }

  /** Looks at every other character for one to squeeze; gives the place of the first that
      may begin a run, or one behind the end. */
  method Scan(buf: array<Char>, nr: nat, begin: nat, squeezed: CharSet, ghost all: seq<Char>, ghost base: nat) returns (i: nat)
    requires Holds(buf, nr, all, base) && begin < nr
    ensures begin <= i <= nr + 1
    ensures i < nr ==> squeezed(buf[i]) && Quiet(all, base + begin, base + i, squeezed)
    ensures i >= nr ==> !squeezed(buf[nr - 1]) && Quiet(all, base + begin, base + nr, squeezed) && i > begin
  {
    i := begin;
    while i < nr && !squeezed(buf[i])
      invariant begin <= i <= nr + 1
      invariant i > begin ==> i >= begin + 2 && !squeezed(buf[i - 2])
      invariant Quiet(all, base + begin, base + Upto(i, nr), squeezed)
    {
      i := i + 2;
    }
    if i == nr && squeezed(buf[i - 1]) {
      i := i - 1;
    }
  }

  /** All before position p is processed; run is the character whose run is being squeezed. */
  ghost predicate Between(all: seq<Char>, p: nat, full: bool, run: Option<Char>, squeezed: CharSet)
    requires p <= |all|
  {
    match run
    case Some(c) => p > 0 && all[p - 1] == c && squeezed(c)
    case None =>
      if full then p < |all| && !Repeats(all, p, squeezed)
      else p > 0 ==> !squeezed(all[p - 1])
  }

  method Piece(buf: array<Char>, nr: nat, begin: nat, end: nat, ghost all: seq<Char>, ghost base: nat) returns (piece: seq<Char>)
    requires Holds(buf, nr, all, base) && begin <= end <= nr
    ensures piece == all[base + begin..base + end]
  {
    piece := buf[begin..end];
  }

  /** Outputs up to the next character to squeeze, or to the end of the buffer. */
  method FindRun(buf: array<Char>, nr: nat, begin: nat, squeezed: CharSet, ghost all: seq<Char>, ghost base: nat)
    returns (i: nat, run: Option<Char>, piece: seq<Char>)
    requires Holds(buf, nr, all, base) && begin < nr && Between(all, base + begin, true, None, squeezed)
    ensures begin < i <= nr + 1 && (run.Some? ==> i <= nr) && (run.None? ==> i >= nr)
    ensures SqueezedTo(all, base + Upto(i, nr), squeezed) == SqueezedTo(all, base + begin, squeezed) + piece
    ensures Between(all, base + Upto(i, nr), false, run, squeezed)
  {
    i := Scan(buf, nr, begin, squeezed, all, base);
    hide SqueezedTo, Repeats, Quiet;
    assert !Repeats(all, base + begin, squeezed);
    hide Between;
    if i >= nr {
      assert buf[nr - 1] == all[base + nr - 1];
      hide Holds;
      AfterOther(all, base + nr, squeezed);
      run := None;
      piece := Piece(buf, nr, begin, nr, all, base);
      Passed(all, base + begin, base + nr, squeezed);
    } else {
      assert buf[i] == all[base + i];
      hide Holds;
      InsideRun(all, base + i + 1, squeezed);
      run := Some(buf[i]);
      piece := PieceFound(buf, nr, begin, i, squeezed, all, base);
      i := i + 1;
    }
  }

  /** What to output when the character at i is one to squeeze. */
  method PieceFound(buf: array<Char>, nr: nat, begin: nat, i: nat, squeezed: CharSet, ghost all: seq<Char>, ghost base: nat)
    returns (piece: seq<Char>)
    requires Holds(buf, nr, all, base) && begin <= i < nr && squeezed(buf[i])
    requires !Repeats(all, base + begin, squeezed) && Quiet(all, base + begin, base + i, squeezed)
    ensures SqueezedTo(all, base + i + 1, squeezed) == SqueezedTo(all, base + begin, squeezed) + piece
  {
    ghost var same := i > 0 && buf[i - 1] == buf[i];
    assert buf[i] == all[base + i];
    var len := i - begin + 1;
    if i > 0 && buf[i - 1] == buf[i] {
      len := len - 1;
    }
    Found(all, base + begin, base + i, same, squeezed);
    hide SqueezedTo, Repeats, Quiet;
    piece := Piece(buf, nr, begin, begin + len, all, base);
    assert base + begin + len == if same then base + i else base + i + 1;
  }

  lemma AfterOther(all: seq<Char>, p: nat, squeezed: CharSet)
    requires 0 < p <= |all| && !squeezed(all[p - 1])
    ensures Between(all, p, false, None, squeezed)
  {
  }

  lemma InsideRun(all: seq<Char>, p: nat, squeezed: CharSet)
    requires 0 < p <= |all| && squeezed(all[p - 1])
    ensures Between(all, p, false, Some(all[p - 1]), squeezed)
  {
  }

  lemma Passed(all: seq<Char>, p: nat, q: nat, squeezed: CharSet)
    requires p < q <= |all| && !Repeats(all, p, squeezed) && Quiet(all, p, q, squeezed)
    ensures SqueezedTo(all, q, squeezed) == SqueezedTo(all, p, squeezed) + all[p..q]
  {
    SqueezeNothing(all, p, q, squeezed);
  }

  /** The character found is output, unless the one before it, passed over, is the same. */
  lemma Found(all: seq<Char>, p: nat, q: nat, same: bool, squeezed: CharSet)
    requires p <= q < |all| && squeezed(all[q]) && !Repeats(all, p, squeezed) && Quiet(all, p, q, squeezed)
    requires same ==> q > 0 && all[q - 1] == all[q]
    requires !same ==> q == p || all[q - 1] != all[q]
    ensures same ==> p < q
    ensures SqueezedTo(all, q + 1, squeezed) == SqueezedTo(all, p, squeezed) + all[p..if same then q else q + 1]
  {
    if same {
      SqueezeNothing(all, p, q, squeezed);
      assert Repeats(all, q, squeezed);
    } else {
      SqueezeNothing(all, p, q + 1, squeezed);
    }
  }

  /** Goes on to the first character that differs. */
  method SkipRun(buf: array<Char>, nr: nat, begin: nat, c: Char, squeezed: CharSet, ghost all: seq<Char>, ghost base: nat)
    returns (i: nat)
    requires Holds(buf, nr, all, base) && begin <= nr && Between(all, base + begin, false, Some(c), squeezed)
    ensures begin <= i <= nr
    ensures SqueezedTo(all, base + i, squeezed) == SqueezedTo(all, base + begin, squeezed)
    ensures Between(all, base + i, i < nr, if i < nr then None else Some(c), squeezed)
  {
    i := begin;
    while i < nr && buf[i] == c
      invariant begin <= i <= nr && all[base + i - 1] == c
      invariant forall k :: base + begin <= k < base + i ==> Repeats(all, k, squeezed)
    {
      i := i + 1;
    }
    SqueezeRun(all, base + begin, base + i, squeezed);
  }

  /** One round of the filter within a buffer: out to a character to squeeze, and over its run. */
  method Round(buf: array<Char>, nr: nat, begin: nat, run0: Option<Char>, squeezed: CharSet, ghost all: seq<Char>, ghost base: nat)
    returns (i: nat, run: Option<Char>, piece: seq<Char>)
    requires Holds(buf, nr, all, base) && begin < nr && Between(all, base + begin, run0 == None, run0, squeezed)
    ensures begin <= i <= nr + 1
    ensures SqueezedTo(all, base + Upto(i, nr), squeezed) == SqueezedTo(all, base + begin, squeezed) + piece
    ensures Between(all, base + Upto(i, nr), i < nr, run, squeezed) && (run.Some? ==> i >= nr)
    ensures i > begin || (run0.Some? && run.None?)
  {
    i, run, piece := begin, run0, [];
    if run == None {
      i, run, piece := FindRun(buf, nr, i, squeezed, all, base);
    }
    if run != None {
      i := SkipRun(buf, nr, i, run.value, squeezed, all, base);
      if i < nr {
        run := None;
      }
    }
  }

  /** The next buffer holds what comes next. */
  method ReadNext(buf: array<Char>, input: Input, reader: Reader, run: Option<Char>, squeezed: CharSet, ghost all: seq<Char>, ghost base: nat)
    returns (nr: nat)
    requires buf.Length > 0 && input.Valid()
    requires base <= |all| && all[base..] == Through(reader, input.rest) && Between(all, base, false, run, squeezed)
    modifies buf, input
    ensures input.Valid() && Holds(buf, nr, all, base) && all[base + nr..] == Through(reader, input.rest)
    ensures nr == 0 ==> base == |all|
    ensures nr > 0 ==> Between(all, base, run == None, run, squeezed)
  {
    nr := input.Read(buf, reader);
    ghost var tail := all[base..];
    assert tail[..nr] == buf[..nr] && tail[nr..] == Through(reader, input.rest);
    forall k | 0 <= k < nr ensures buf[k] == all[base + k] {
      assert buf[..nr][k] == tail[k];
    }
  }

  lemma NothingYet(buf: array<Char>, all: seq<Char>, squeezed: CharSet)
    ensures Holds(buf, 0, all, 0) && all[0..] == all
    ensures SqueezedTo(all, 0, squeezed) == [] && Between(all, 0, false, None, squeezed)
  {
  }

  /** Each character that equals the one before it and is in the set is left out, however
      the input comes in buffers. */
  method SqueezeFilter(buf: array<Char>, input: Input, reader: Reader, squeezed: CharSet) returns (out: seq<Char>)
    requires buf.Length > 0 && input.Valid()
    modifies buf, input
    ensures out == Squeezed(Through(reader, old(input.rest)), squeezed)
  {
    ghost var all := Through(reader, input.rest);
    ghost var base: nat, p: nat := 0, 0;
    var run: Option<Char> := None;
    var i: nat, nr: nat := 0, 0;
    out := [];
    NothingYet(buf, all, squeezed);
    hide SqueezedTo, Between, Holds, Input.Valid, Through;
    while true
      invariant input.Valid() && i <= nr + 1 && Holds(buf, nr, all, base)
      invariant all[base + nr..] == Through(reader, input.rest)
      invariant p == base + Upto(i, nr) <= |all| && out == SqueezedTo(all, p, squeezed)
      invariant Between(all, p, i < nr, run, squeezed) && (run.Some? ==> i >= nr)
      decreases |all| - p, run.Some?
    {
      hide SqueezedTo, Between, Holds, Input.Valid, Through;
      if i >= nr {
        base := p;
        nr := ReadNext(buf, input, reader, run, squeezed, all, base);
        if nr == 0 {
          break;
        }
        i := 0;
      }
      var piece;
      i, run, piece := Round(buf, nr, i, run, squeezed, all, base);
      p, out := base + Upto(i, nr), out + piece;
    }
  }
}
