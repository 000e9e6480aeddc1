/** The main loop of mergefps in gnu/src/sort.c over its tables: the files, the lines read
    from each, the next line of each, and the permutation of the files. */
module SortMergeFiles {
  import opened Concatenation
  import opened SortOrder
  import opened SortMerge

  /** What is still to be read of a file: the pieces that refilling its buffer will give. */
  type File<T> = seq<seq<T>>

  ghost predicate Pieces<T>(file: File<T>) {
    forall p :: 0 <= p < |file| ==> file[p] != []
  }

  function Texts<T>(files: seq<File<T>>): (r: seq<seq<T>>)
    ensures |r| == |files|
  {
    seq(|files|, k requires 0 <= k < |files| => Concat(files[k]))
  }

  ghost predicate Loaded<T>(fs: seq<File<T>>, ls: seq<seq<T>>, cs: seq<nat>) {
    && |fs| == |ls| == |cs|
    && (forall k :: 0 <= k < |fs| ==> cs[k] < |ls[k]| && Pieces(fs[k]))
  }

  /** The lines of each file not yet output. */
  ghost function Rests<T>(fs: seq<File<T>>, ls: seq<seq<T>>, cs: seq<nat>): (r: seq<seq<T>>)
    requires Loaded(fs, ls, cs)
    ensures |r| == |fs|
    ensures forall k :: 0 <= k < |r| ==> r[k] != [] && r[k][0] == ls[k][cs[k]]
  {
    seq(|fs|, k requires 0 <= k < |fs| => ls[k][cs[k]..] + Concat(fs[k]))
  }

  /** The next line of file m is taken from its table. */
  lemma NextInTable<T>(fs: seq<File<T>>, ls: seq<seq<T>>, cs: seq<nat>, m: nat)
    requires Loaded(fs, ls, cs) && m < |fs| && cs[m] + 1 < |ls[m]|
    ensures Loaded(fs, ls, cs[m := cs[m] + 1])
    ensures Rests(fs, ls, cs[m := cs[m] + 1]) == Next(Rests(fs, ls, cs), m)
  {
    var was, now := Rests(fs, ls, cs), Rests(fs, ls, cs[m := cs[m] + 1]);
    assert now[m] == was[m][1..];
    assert now == was[m := was[m][1..]];
  }

  /** The table of file m is exhausted and filled again. */
  lemma NextInFile<T>(fs: seq<File<T>>, ls: seq<seq<T>>, cs: seq<nat>, m: nat)
    requires Loaded(fs, ls, cs) && m < |fs| && cs[m] + 1 == |ls[m]| && fs[m] != []
    ensures Loaded(fs[m := fs[m][1..]], ls[m := fs[m][0]], cs[m := 0])
    ensures Rests(fs[m := fs[m][1..]], ls[m := fs[m][0]], cs[m := 0]) == Next(Rests(fs, ls, cs), m)
  {
    assert Pieces(fs[m]);
    var was, now := Rests(fs, ls, cs), Rests(fs[m := fs[m][1..]], ls[m := fs[m][0]], cs[m := 0]);
    assert was[m] == [ls[m][cs[m]]] + Concat(fs[m]);
    assert now[m] == fs[m][0] + Concat(fs[m][1..]);
    assert now == was[m := was[m][1..]];
  }

  /** File m is exhausted. */
  lemma NextIsNone<T>(fs: seq<File<T>>, ls: seq<seq<T>>, cs: seq<nat>, m: nat)
    requires Loaded(fs, ls, cs) && m < |fs| && cs[m] + 1 == |ls[m]| && fs[m] == []
    ensures Next(Rests(fs, ls, cs), m)[m] == []
    ensures Loaded(Without(fs, m), Without(ls, m), Without(cs, m))
    ensures Rests(Without(fs, m), Without(ls, m), Without(cs, m)) == Without(Next(Rests(fs, ls, cs), m), m)
  {
  }

  // ---------------------------------------------------------------- moving table entries

  method Shift<X>(a: array<X>, m: nat, n: nat)
    requires m < n <= a.Length
    modifies a
    ensures a[..n - 1] == Without(old(a[..n]), m)
  {
    var i := m;
    while i < n - 1
      invariant m <= i <= n - 1
      invariant forall k :: 0 <= k < m ==> a[k] == old(a[k])
      invariant forall k :: m <= k < i ==> a[k] == old(a[k + 1])
      invariant forall k :: i <= k < n ==> a[k] == old(a[k])
    {
      a[i] := a[i + 1];
      i := i + 1;
    }
  }

  /** Renumbers the files after the one listed first, then drops that one. */
  method Renumber(ord: array<nat>, n: nat)
    requires 0 < n <= ord.Length
    modifies ord
    ensures ord[..n - 1] == Dropped(old(ord[..n]))
  {
    var i := 1;
    while i < n
      invariant 1 <= i <= n && ord[0] == old(ord[0])
      invariant forall k :: 1 <= k < i ==> ord[k] == Down(old(ord[k]), ord[0])
      invariant forall k :: i <= k < n ==> ord[k] == old(ord[k])
    {
      if ord[i] > ord[0] {
        ord[i] := ord[i] - 1;
      }
      i := i + 1;
    }
    i := 0;
    while i < n - 1
      invariant 0 <= i <= n - 1
      invariant forall k :: 0 <= k < i ==> ord[k] == Down(old(ord[k + 1]), old(ord[0]))
      invariant forall k :: i < k < n ==> ord[k] == Down(old(ord[k]), old(ord[0]))
    {
      ord[i] := ord[i + 1];
      i := i + 1;
    }
  }

  /** Moves the file listed first to place i - 1. */
  method MoveBack(ord: array<nat>, i: nat, n: nat)
    requires 1 <= i <= n <= ord.Length
    modifies ord
    ensures ord[..n] == Rotated(old(ord[..n]), i)
  {
    var t := ord[0];
    var j := 1;
    while j < i
      invariant 1 <= j <= i
      invariant forall k :: 0 <= k < j - 1 ==> ord[k] == old(ord[k + 1])
      invariant forall k :: j <= k < n ==> ord[k] == old(ord[k])
    {
      ord[j - 1] := ord[j];
      j := j + 1;
    }
    ord[i - 1] := t;
  }

  // ---------------------------------------------------------------- the merge

  class Merger<T(!new)> {
    const fps: array<File<T>>
    const lines: array<seq<T>>
    const cur: array<nat>
    const ord: array<nat>
    var nfps: nat

    ghost predicate Shape()
      reads this
    {
      && (fps as object) != (lines as object)
      && (ord as object) !in {fps as object, lines, cur, this}
      && fps.Length == lines.Length == cur.Length == ord.Length == NMERGE && nfps <= NMERGE
    }

    ghost predicate Valid()
      reads this, fps, lines, cur
    {
      Shape() && Loaded(fps[..nfps], lines[..nfps], cur[..nfps])
    }

    ghost function Rest(): (r: seq<seq<T>>)
      requires Valid()
      reads this, fps, lines, cur
      ensures |r| == nfps
      ensures forall k :: 0 <= k < nfps ==> r[k] != [] && r[k][0] == lines[k][cur[k]]
    {
      Rests(fps[..nfps], lines[..nfps], cur[..nfps])
    }

    ghost predicate Ordered(cmp: Comparator<T>)
      requires Valid()
      reads this, fps, lines, cur, ord
    {
      Queue(Tops(Rest()), ord[..nfps], cmp)
    }

    /** Reads a first piece of each file; empty files are not considered further. */
    constructor (files: seq<File<T>>)
      requires |files| <= NMERGE && forall k :: 0 <= k < |files| ==> Pieces(files[k])
      ensures Valid() && fresh(fps) && fresh(lines) && fresh(cur) && fresh(ord)
      ensures Concat(Rest()) == Concat(Texts(files))
      ensures forall k :: 0 <= k < nfps ==> Rest()[k] in Texts(files)
    {
      fps := new File<T>[NMERGE];
      lines := new seq<T>[NMERGE];
      cur := new nat[NMERGE];
      ord := new nat[NMERGE];
      nfps := |files|;
      new;
      var j := 0;
      while j < |files|
        invariant 0 <= j <= |files| && nfps == |files| && Shape()
        invariant fps[..j] == files[..j]
      {
        fps[j] := files[j];
        j := j + 1;
      }
      ReadFirst(files);
    }

    method ReadFirst(ghost files: seq<File<T>>)
      requires Shape() && nfps == |files| && fps[..nfps] == files
      requires forall k :: 0 <= k < |files| ==> Pieces(files[k])
      modifies this`nfps, fps, lines, cur
      ensures Valid()
      ensures Concat(Rest()) == Concat(Texts(files))
      ensures forall k :: 0 <= k < nfps ==> Rest()[k] in Texts(files)
    {
      var i := 0;
      ghost var done, todo: seq<File<T>> := [], files;
      StartReading(files);
      while i < nfps
        invariant i <= nfps && Shape()
        invariant fps[i..nfps] == todo && Reading(done, todo, files)
        invariant Loaded(fps[..i], lines[..i], cur[..i]) && Rests(fps[..i], lines[..i], cur[..i]) == done
        decreases nfps - i
      {
        if fps[i] == [] {
          SkipEmpty(done, todo, files);
          DropEmpty(i);
        } else {
          ReadNext(done, todo, files);
          ReadTable(i);
          done := done + [Concat(todo[0])];
          i := i + 1;
        }
        todo := todo[1..];
      }
      assert done + Texts<T>([]) == done;
    }

    method DropEmpty(i: nat)
      requires Shape() && i < nfps
      modifies fps, this`nfps
      ensures nfps == old(nfps) - 1
      ensures fps[..i] == old(fps[..i])
      ensures fps[i..nfps] == old(fps[i..nfps])[1..]
    {
      Shift(fps, i, nfps);
      nfps := nfps - 1;
      assert fps[..i] == fps[..nfps][..i] && fps[i..nfps] == fps[..nfps][i..];
    }

    /** Fills the table of file i, the next to be read. */
    method ReadTable(i: nat)
      requires Shape() && i < nfps && fps[i] != [] && Pieces(fps[i])
      requires Loaded(fps[..i], lines[..i], cur[..i])
      modifies fps, lines, cur
      ensures fps[i + 1..nfps] == old(fps[i + 1..nfps])
      ensures Loaded(fps[..i + 1], lines[..i + 1], cur[..i + 1])
      ensures Rests(fps[..i + 1], lines[..i + 1], cur[..i + 1])
           == old(Rests(fps[..i], lines[..i], cur[..i])) + [Concat(old(fps[i]))]
    {
      TableRead(fps[..i], lines[..i], cur[..i], fps[i]);
      lines[i] := fps[i][0];
      fps[i] := fps[i][1..];
      cur[i] := 0;
      assert fps[..i + 1] == old(fps[..i]) + [old(fps[i])[1..]];
      assert lines[..i + 1] == old(lines[..i]) + [old(fps[i])[0]];
      assert cur[..i + 1] == old(cur[..i]) + [0];
    }

    /** Orders the files by their first lines: exchanges neighbours that are in the wrong
        order and then begins again. */
    method SetUp(cmp: Comparator<T>)
      requires TotalPreorder(cmp) && Valid()
      modifies ord
      ensures Valid() && Rest() == old(Rest()) && Ordered(cmp)
    {
      ghost var heads := Tops(Rest());
      Number();
      var i := 1;
      while i < nfps
        invariant 1 <= i && (i <= nfps || nfps == 0)
        invariant Steady(heads, ord[..nfps], cmp) && InOrder(heads, ord[..nfps], i, cmp)
        invariant Valid() && heads == Tops(Rest())
        decreases Inversions(heads, ord[..nfps], cmp), nfps - i
      {
        hide Merger.Ordered, Steady, InOrder, Inversions, Merger.Valid, Merger.Rest;
        i := Bubble(i, heads, cmp);
      }
      SteadyQueue(heads, ord[..nfps], cmp);
    }

    /** One step of setting up the order. */
    method Bubble(i: nat, ghost heads: seq<T>, cmp: Comparator<T>) returns (next: nat)
      requires TotalPreorder(cmp) && Valid() && heads == Tops(Rest()) && 1 <= i < nfps
      requires Steady(heads, ord[..nfps], cmp) && InOrder(heads, ord[..nfps], i, cmp)
      modifies ord
      ensures Valid() && heads == Tops(Rest())
      ensures Steady(heads, ord[..nfps], cmp) && 1 <= next <= nfps && InOrder(heads, ord[..nfps], next, cmp)
      ensures Inversions(heads, ord[..nfps], cmp) < Inversions(heads, old(ord[..nfps]), cmp)
           || (ord[..nfps] == old(ord[..nfps]) && next == i + 1)
    {
      next := i;
      if cmp(lines[ord[i - 1]][cur[ord[i - 1]]], lines[ord[i]][cur[ord[i]]]) > 0 {
        SwappedSteady(heads, ord[..nfps], i, cmp);
        SwappedInversions(heads, ord[..nfps], i, cmp);
        Exchange(i);
        next := 0;
      }
      next := next + 1;
    }

    method Number()
      requires Valid()
      modifies ord
      ensures forall cmp :: Steady(Tops(Rest()), ord[..nfps], cmp)
    {
      var i := 0;
      while i < nfps
        invariant 0 <= i <= nfps
        invariant forall k :: 0 <= k < i ==> ord[k] == k
      {
        ord[i] := i;
        i := i + 1;
      }
      forall k | 0 <= k < nfps ensures k in ord[..nfps] {
        assert ord[..nfps][k] == k;
      }
    }

    method Exchange(i: nat)
      requires Shape() && 1 <= i < nfps
      modifies ord
      ensures ord[..nfps] == Swapped(old(ord[..nfps]), i)
    {
      var t := ord[i - 1];
      ord[i - 1] := ord[i];
      ord[i] := t;
    }

    /** Gives the least line and goes on to the next one of its file. */
    method Advance(cmp: Comparator<T>) returns (line: T)
      requires TotalPreorder(cmp) && Valid() && nfps > 0 && Ordered(cmp)
      modifies this`nfps, fps, lines, cur, ord
      ensures Valid() && Ordered(cmp)
      ensures old(ord[0]) < old(nfps) && line == old(Rest())[old(ord[0])][0]
      ensures Rest() == AfterTaking(old(Rest()), old(ord[0]))
    {
      var m := ord[0];
      line := lines[m][cur[m]];
      ghost var rests := Rest();
      var more := Refill(m);
      if more {
        Requeue(rests, cmp);
      } else {
        DroppedQueue(Tops(rests), ord[..nfps], cmp);
        assert Tops(Without(Next(rests, m), m)) == Without(Tops(rests), m);
        Drop(m);
      }
    }

    /** Goes on to the next line of file m, filling its table again when it is exhausted. */
    method Refill(m: nat) returns (more: bool)
      requires Valid() && m < nfps
      modifies fps, lines, cur
      ensures more <==> Next(old(Rest()), m)[m] != []
      ensures more ==> Valid() && Rest() == Next(old(Rest()), m)
      ensures !more ==> Loaded(Without(fps[..nfps], m), Without(lines[..nfps], m), Without(cur[..nfps], m))
      ensures !more ==>
        Rests(Without(fps[..nfps], m), Without(lines[..nfps], m), Without(cur[..nfps], m)) == Without(Next(old(Rest()), m), m)
    {
      ghost var fs, ls, cs := fps[..nfps], lines[..nfps], cur[..nfps];
      if cur[m] + 1 < |lines[m]| {
        NextInTable(fs, ls, cs, m);
      } else if fps[m] != [] {
        NextInFile(fs, ls, cs, m);
      } else {
        NextIsNone(fs, ls, cs, m);
      }
      cur[m] := cur[m] + 1;
      more := true;
      if cur[m] == |lines[m]| {
        if fps[m] != [] {
          lines[m] := fps[m][0];
          fps[m] := fps[m][1..];
          cur[m] := 0;
        } else {
          more := false;
        }
      }
      assert more ==> fps[..nfps] == fs || fps[..nfps] == fs[m := fs[m][1..]];
    }

    /** The file listed first is exhausted. */
    method Drop(m: nat)
      requires Shape() && nfps > 0 && m == ord[0] < nfps
      modifies this`nfps, fps, lines, cur, ord
      ensures Shape() && nfps == old(nfps) - 1
      ensures fps[..nfps] == Without(old(fps[..nfps]), m)
      ensures lines[..nfps] == Without(old(lines[..nfps]), m)
      ensures cur[..nfps] == Without(old(cur[..nfps]), m)
      ensures ord[..nfps] == Dropped(old(ord[..nfps]))
    {
      Renumber(ord, nfps);
      Shift(fps, m, nfps);
      Shift(lines, m, nfps);
      Shift(cur, m, nfps);
      nfps := nfps - 1;
    }

    /** Puts the file listed first, which has gone on to its next line, into its place. */
    method Requeue(ghost rests: seq<seq<T>>, cmp: Comparator<T>)
      requires TotalPreorder(cmp) && Valid() && nfps > 0 && |rests| == nfps
      requires (forall k :: 0 <= k < |rests| ==> rests[k] != []) && Queue(Tops(rests), ord[..nfps], cmp)
      requires Rest() == Next(rests, ord[0])
      modifies ord
      ensures Valid() && Rest() == old(Rest()) && Ordered(cmp)
    {
      ghost var heads := Tops(Rest());
      ghost var o := ord[..nfps];
      var i := 1;
      while i < nfps
        invariant 1 <= i <= nfps
        invariant forall p :: 1 <= p < i ==> !Ahead(heads, o[0], o[p], cmp)
      {
        var t := cmp(lines[ord[0]][cur[ord[0]]], lines[ord[i]][cur[ord[i]]]);
        if t == 0 {
          t := ord[0] as int - ord[i] as int;
        }
        if t < 0 {
          break;
        }
        i := i + 1;
      }
      assert heads == Tops(rests)[o[0] := Rest()[o[0]][0]];
      RotatedQueue(Tops(rests), o, Rest()[o[0]][0], i, cmp);
      MoveBack(ord, i, nfps);
    }
  }

  /** A file whose last line is taken is considered no further. */
  function AfterTaking<T>(rests: seq<seq<T>>, m: nat): seq<seq<T>>
    requires m < |rests| && rests[m] != []
  {
    var next := Next(rests, m);
    if next[m] == [] then Without(next, m) else next
  }

  /** The first i files listed are in the order of their lines. */
  ghost predicate InOrder<T>(heads: seq<T>, ord: seq<nat>, i: nat, cmp: Comparator<T>)
    requires Indices(ord, |heads|)
  {
    forall k :: 1 <= k < i && k < |ord| ==> cmp(heads[ord[k - 1]], heads[ord[k]]) <= 0
  }

  lemma TableRead<T>(fs: seq<File<T>>, ls: seq<seq<T>>, cs: seq<nat>, file: File<T>)
    requires Loaded(fs, ls, cs) && file != [] && Pieces(file)
    ensures Loaded(fs + [file[1..]], ls + [file[0]], cs + [0])
    ensures Rests(fs + [file[1..]], ls + [file[0]], cs + [0]) == Rests(fs, ls, cs) + [Concat(file)]
  {
    assert Concat(file) == file[0][0..] + Concat(file[1..]);
  }

  /** Nothing of the files is lost while their first pieces are read. */
  ghost predicate Reading<T>(done: seq<seq<T>>, todo: seq<File<T>>, files: seq<File<T>>) {
    && (forall k :: 0 <= k < |todo| ==> Pieces(todo[k]))
    && Concat(done + Texts(todo)) == Concat(Texts(files))
    && (forall k :: 0 <= k < |done| ==> done[k] in Texts(files))
    && (forall k :: 0 <= k < |todo| ==> Concat(todo[k]) in Texts(files))
  }

  lemma StartReading<T>(files: seq<File<T>>)
    requires forall k :: 0 <= k < |files| ==> Pieces(files[k])
    ensures Reading([], files, files)
  {
    assert [] + Texts(files) == Texts(files);
    forall k | 0 <= k < |files| ensures Concat(files[k]) in Texts(files) {
      assert Texts(files)[k] == Concat(files[k]);
    }
  }

  lemma SkipEmpty<T>(done: seq<seq<T>>, todo: seq<File<T>>, files: seq<File<T>>)
    requires Reading(done, todo, files) && todo != [] && todo[0] == []
    ensures Reading(done, todo[1..], files)
  {
    assert Texts(todo)[1..] == Texts(todo[1..]);
    ConcatAppend(done, Texts(todo));
    ConcatAppend(done, Texts(todo[1..]));
  }

  lemma ReadNext<T>(done: seq<seq<T>>, todo: seq<File<T>>, files: seq<File<T>>)
    requires Reading(done, todo, files) && todo != []
    ensures Reading(done + [Concat(todo[0])], todo[1..], files)
  {
    assert (done + [Concat(todo[0])]) + Texts(todo[1..]) == done + Texts(todo);
  }
}
