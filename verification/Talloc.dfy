/** malloc and free of freedos/source/choice/talloc.c: first fit over blocks that lie end
    to end, split on allocation and merged while the list is walked. Addresses and sizes
    are counted in words of w bytes; a block begins with one word, its header. */
module Talloc {

  predicate WordSize(w: nat) {
    w == 2 || w == 4 || w == 8
  }

  /** One more than the greatest size_t. */
  function Modulus(w: nat): nat
    requires WordSize(w)
  {
    if w == 2 then 0x1_0000 else if w == 4 then 0x1_0000_0000 else 0x1_0000_0000_0000_0000
  }

  function PowerOf256(n: nat): nat {
    if n == 0 then 1 else 256 * PowerOf256(n - 1)
  }

  /** A size_t is as wide as a word of the heap. */
  lemma ModulusIs(w: nat)
    requires WordSize(w)
    ensures Modulus(w) == PowerOf256(w)
  {
    assert PowerOf256(2) == 0x1_0000;
    assert PowerOf256(4) == 0x1_0000 * PowerOf256(2);
    assert PowerOf256(6) == 0x1_0000 * PowerOf256(4);
    assert PowerOf256(8) == 0x1_0000 * PowerOf256(6);
  }

  /** The bytes of the block that serves a request, header included. */
  function Rounded(length: nat, w: nat): nat
    requires WordSize(w)
  {
    var sum := (length + w + (w - 1)) % Modulus(w);
    sum - sum % w
  }

  function Words(length: nat, w: nat): nat
    requires WordSize(w)
  {
    Rounded(length, w) / w
  }

  /** The block holds its header and the request exactly when the sum does not overflow. */
  lemma RoundedHolds(length: nat, w: nat)
    requires WordSize(w) && length < Modulus(w)
    ensures Rounded(length, w) >= length + w <==> length + w + (w - 1) < Modulus(w)
    ensures Rounded(length, w) == Words(length, w) * w
  {
    var sum := length + w + (w - 1);
    WrapsOnce(sum, Modulus(w));
    Aligned(sum % Modulus(w), w);
  }

  lemma Aligned(x: nat, w: nat)
    requires WordSize(w)
    ensures x - x % w == ((x - x % w) / w) * w && 0 <= x % w < w
  {
    if w == 2 {
      assert (x - x % 2) / 2 == x / 2;
    } else if w == 4 {
      assert (x - x % 4) / 4 == x / 4;
    } else {
      assert (x - x % 8) / 8 == x / 8;
    }
  }

  lemma WrapsOnce(sum: nat, m: nat)
    requires sum < 2 * m
    ensures sum % m == if sum < m then sum else sum - m
  {
    if sum >= m {
      assert (sum - m) % m == sum - m;
      assert sum == 1 * m + (sum - m);
    }
  }

  /** The requests of nearly all memory give a block without room even for its header. */
  lemma OverflowGivesEmptyBlock(length: nat, w: nat)
    requires WordSize(w) && length < Modulus(w)
    ensures Words(length, w) == 0 <==> Modulus(w) - 2 * w < length <= Modulus(w) - w
  {
    var sum := length + w + (w - 1);
    RoundedHolds(length, w);
    WrapsOnce(sum, Modulus(w));
    Aligned(sum % Modulus(w), w);
  }

  // ---------------------------------------------------------------- headers

  predicate Busy(header: nat, w: nat)
    requires w > 0
  {
    header % w != 0
  }

  datatype Block = Block(size: nat, busy: bool)

  predicate IsHeader(header: nat, b: Block, w: nat)
    requires w > 0
  {
    header / w == b.size && (Busy(header, w) <==> b.busy)
  }

  lemma FreeHeader(size: nat, w: nat)
    requires WordSize(w)
    ensures IsHeader(size * w, Block(size, false), w)
  {
    if w == 2 {
    } else if w == 4 {
    } else {
    }
  }

  lemma BusyHeader(size: nat, w: nat)
    requires WordSize(w)
    ensures IsHeader(size * w + (w - 1), Block(size, true), w)
  {
    if w == 2 {
    } else if w == 4 {
    } else {
    }
  }

  lemma FreeHeaderIs(header: nat, b: Block, w: nat)
    requires WordSize(w) && IsHeader(header, b, w)
    ensures header - header % w == b.size * w
    ensures !b.busy ==> header == b.size * w
  {
    if w == 2 {
    } else if w == 4 {
    } else {
    }
  }

  // ---------------------------------------------------------------- blocks end to end

  type Blocks = map<nat, Block>

  function End(blocks: Blocks, a: nat): nat
    requires a in blocks
  {
    a + blocks[a].size
  }

  predicate Follows(blocks: Blocks, a: nat, top: nat)
    requires a in blocks
  {
    End(blocks, a) == top || End(blocks, a) in blocks
  }

  ghost predicate Within(blocks: Blocks, bottom: nat, top: nat) {
    forall a :: a in blocks ==> bottom <= a < End(blocks, a) <= top
  }

  ghost predicate Linked(blocks: Blocks, top: nat) {
    forall a {:trigger Follows(blocks, a, top)} :: a in blocks ==> Follows(blocks, a, top)
  }

  ghost predicate Apart(blocks: Blocks) {
    forall a, b :: a in blocks && b in blocks && a < b ==> End(blocks, a) <= b
  }

  /** The blocks lie end to end from bottom to top. */
  ghost predicate Tiled(blocks: Blocks, bottom: nat, top: nat) {
    && bottom <= top
    && (bottom == top || bottom in blocks)
    && Within(blocks, bottom, top)
    && Linked(blocks, top)
    && Apart(blocks)
  }

  /** The headers in memory are those of the blocks. */
  ghost predicate Headers(m: seq<nat>, blocks: Blocks, w: nat)
    requires w > 0
  {
    forall a :: a in blocks ==> a < |m| && IsHeader(m[a], blocks[a], w)
  }

  /** The sizes of the busy blocks. */
  function Live(blocks: Blocks): map<nat, nat> {
    map a | a in blocks && blocks[a].busy :: blocks[a].size
  }

  function Joined(blocks: Blocks, a: nat): Blocks
    requires a in blocks && End(blocks, a) in blocks
  {
    var b := End(blocks, a);
    (blocks - {b})[a := Block(blocks[a].size + blocks[b].size, false)]
  }

  lemma JoinTiles(blocks: Blocks, bottom: nat, top: nat, a: nat)
    requires Tiled(blocks, bottom, top) && a in blocks && End(blocks, a) in blocks
    ensures Tiled(Joined(blocks, a), bottom, top)
  {
    var r := Joined(blocks, a);
    JoinLinks(blocks, bottom, top, a);
    assert Apart(r);
  }

  lemma JoinLinks(blocks: Blocks, bottom: nat, top: nat, a: nat)
    requires Within(blocks, bottom, top) && Linked(blocks, top) && Apart(blocks) && a in blocks && End(blocks, a) in blocks
    ensures Linked(Joined(blocks, a), top)
  {
    var r, b := Joined(blocks, a), End(blocks, a);
    assert Follows(blocks, b, top);
    forall c | c in r ensures Follows(r, c, top) {
      assert Follows(blocks, c, top);
    }
  }

  lemma JoinLives(blocks: Blocks, a: nat)
    requires a in blocks && End(blocks, a) in blocks && blocks[a].size > 0
    requires !blocks[a].busy && !blocks[End(blocks, a)].busy
    ensures Live(Joined(blocks, a)) == Live(blocks)
  {
  }

  function Taken(blocks: Blocks, a: nat, n: nat): Blocks
    requires a in blocks && n <= blocks[a].size
  {
    var size := blocks[a].size;
    (if size > n then blocks[a + n := Block(size - n, false)] else blocks)[a := Block(n, true)]
  }

  lemma TakeTiles(blocks: Blocks, bottom: nat, top: nat, a: nat, n: nat)
    requires Tiled(blocks, bottom, top) && a in blocks && 0 < n <= blocks[a].size
    ensures Tiled(Taken(blocks, a, n), bottom, top)
  {
    TakeLinks(blocks, top, a, n);
    TakeApart(blocks, a, n);
  }

  lemma TakeLinks(blocks: Blocks, top: nat, a: nat, n: nat)
    requires Linked(blocks, top) && a in blocks && 0 < n <= blocks[a].size
    requires a + n in blocks ==> n == blocks[a].size
    ensures Linked(Taken(blocks, a, n), top)
  {
    var r := Taken(blocks, a, n);
    assert Follows(blocks, a, top);
    forall c | c in r ensures Follows(r, c, top) {
      if c in blocks {
        assert Follows(blocks, c, top);
      }
    }
  }

  lemma TakeApart(blocks: Blocks, a: nat, n: nat)
    requires Apart(blocks) && a in blocks && 0 < n <= blocks[a].size
    ensures Apart(Taken(blocks, a, n))
  {
  }

  lemma TakeLives(blocks: Blocks, a: nat, n: nat)
    requires a in blocks && 0 < n <= blocks[a].size && !blocks[a].busy
    requires a + n in blocks ==> n == blocks[a].size
    ensures Live(Taken(blocks, a, n)) == Live(blocks)[a := n]
  {
  }

  lemma ExtendTiles(blocks: Blocks, bottom: nat, top: nat, n: nat)
    requires Tiled(blocks, bottom, top) && n > 0
    ensures Tiled(blocks[top := Block(n, true)], bottom, top + n)
    ensures Live(blocks[top := Block(n, true)]) == Live(blocks)[top := n]
  {
    var r := blocks[top := Block(n, true)];
    forall c | c in r ensures Follows(r, c, top + n) {
      if c in blocks {
        assert Follows(blocks, c, top);
      }
    }
  }

  function Released(blocks: Blocks, a: nat): Blocks
    requires a in blocks
  {
    blocks[a := Block(blocks[a].size, false)]
  }

  lemma ReleaseTiles(blocks: Blocks, bottom: nat, top: nat, a: nat)
    requires Tiled(blocks, bottom, top) && a in blocks
    ensures Tiled(Released(blocks, a), bottom, top)
  {
    var r := Released(blocks, a);
    forall c | c in r ensures Follows(r, c, top) {
      assert Follows(blocks, c, top);
    }
    assert Linked(r, top);
  }

  lemma ReleaseLives(blocks: Blocks, a: nat)
    requires a in blocks
    ensures Live(Released(blocks, a)) == Live(blocks) - {a}
  {
  }

  /** Following the lengths from an address leads exactly to the end of the heap. */
  ghost predicate WalkEnds(m: seq<nat>, a: nat, top: nat, w: nat)
    requires w > 0 && top <= |m|
    decreases top - a
  {
    a == top || (a < top && m[a] / w > 0 && WalkEnds(m, a + m[a] / w, top, w))
  }

  lemma {:induction false} WalkFrom(m: seq<nat>, blocks: Blocks, bottom: nat, top: nat, w: nat, a: nat)
    requires w > 0 && top <= |m| && Tiled(blocks, bottom, top) && Headers(m, blocks, w)
    requires a == top || a in blocks
    ensures WalkEnds(m, a, top, w)
    decreases top - a
  {
    if a != top {
      assert Follows(blocks, a, top);
      WalkFrom(m, blocks, bottom, top, w, End(blocks, a));
    }
  }

  // ---------------------------------------------------------------- first fit

  type Sizes = map<nat, nat>

  /** No busy block reaches into [a, b). */
  ghost predicate Clear(live: Sizes, a: nat, b: nat) {
    forall h :: h in live ==> h + live[h] <= a || b <= h
  }

  /** A gap in front of a busy block with room for n words. */
  ghost predicate Fits(live: Sizes, bottom: nat, a: nat, b: nat, n: nat) {
    bottom <= a && a + n <= b && b in live && Clear(live, a, b)
  }

  ghost predicate NoneFits(live: Sizes, bottom: nat, upto: nat, n: nat) {
    forall a: nat, b: nat :: Fits(live, bottom, a, b, n) ==> b > upto
  }

  /** a is where a gap begins. */
  ghost predicate Begins(live: Sizes, bottom: nat, a: nat) {
    a == bottom || exists h :: h in live && h + live[h] == a
  }

  /** First fit: a begins the first gap in front of a busy block that has room for n. */
  ghost predicate FirstFit(live: Sizes, bottom: nat, a: nat, n: nat) {
    && Begins(live, bottom, a)
    && NoneFits(live, bottom, a, n)
    && exists b :: Fits(live, bottom, a, b, n)
  }

  /** The walk has come to a: nothing fits before it, and it does not stand inside a gap. */
  ghost predicate Searched(blocks: Blocks, bottom: nat, top: nat, a: nat, n: nat) {
    && (a == top || a in blocks)
    && NoneFits(Live(blocks), bottom, a, n)
    && (a in blocks && !blocks[a].busy ==> Begins(Live(blocks), bottom, a))
  }

  lemma PassBusy(blocks: Blocks, bottom: nat, top: nat, a: nat, n: nat)
    requires Tiled(blocks, bottom, top) && Searched(blocks, bottom, top, a, n) && n > 0
    requires a in blocks && blocks[a].busy
    ensures Searched(blocks, bottom, top, End(blocks, a), n)
  {
    assert Follows(blocks, a, top);
    var live := Live(blocks);
    forall x: nat, y: nat | Fits(live, bottom, x, y, n) ensures y > End(blocks, a) {
      assert y > a && a in live;
      assert a + live[a] <= x || y <= a;
    }
    assert End(blocks, a) == a + live[a];
  }

  lemma PassSmall(blocks: Blocks, bottom: nat, top: nat, a: nat, n: nat)
    requires Tiled(blocks, bottom, top) && Searched(blocks, bottom, top, a, n) && n > 0
    requires a in blocks && !blocks[a].busy && blocks[a].size < n
    requires End(blocks, a) in blocks && blocks[End(blocks, a)].busy
    ensures Searched(blocks, bottom, top, End(blocks, a), n)
  {
    var b, live := End(blocks, a), Live(blocks);
    forall x: nat, y: nat | Fits(live, bottom, x, y, n) ensures y > b {
      assert y > a && y in blocks && y >= b;
      BeginsAfter(live, bottom, a, x, y);
    }
  }

  /** A clear stretch that ends behind the beginning of a gap does not begin before it. */
  lemma BeginsAfter(live: Sizes, bottom: nat, a: nat, x: nat, y: nat)
    requires Begins(live, bottom, a) && Clear(live, x, y) && bottom <= x && y > a
    ensures a <= x
  {
    if a != bottom {
      var h: nat :| h in live && h + live[h] == a;
      assert h + live[h] <= x || y <= h;
    }
  }

  lemma PassLast(blocks: Blocks, bottom: nat, top: nat, a: nat, n: nat)
    requires Tiled(blocks, bottom, top) && Searched(blocks, bottom, top, a, n)
    requires a in blocks && End(blocks, a) == top
    ensures Searched(blocks, bottom, top, top, n)
  {
    forall x: nat, y: nat | Fits(Live(blocks), bottom, x, y, n) ensures y > top {
      assert y > a && y in blocks;
    }
  }

  /** A free block between a busy one and the beginning of a gap is that gap. */
  lemma FreeBlockFits(blocks: Blocks, bottom: nat, top: nat, a: nat, n: nat)
    requires Tiled(blocks, bottom, top) && Searched(blocks, bottom, top, a, n)
    requires a in blocks && !blocks[a].busy && n <= blocks[a].size
    requires End(blocks, a) in blocks && blocks[End(blocks, a)].busy
    ensures FirstFit(Live(blocks), bottom, a, n)
  {
    var b, live := End(blocks, a), Live(blocks);
    forall h | h in live ensures h + live[h] <= a || b <= h {
      assert h in blocks && h != a;
    }
    assert Fits(live, bottom, a, b, n);
  }

  // ---------------------------------------------------------------- the heap

  datatype Option<T> = None | Some(value: T)

  /** The contents of the busy blocks, headers included, are what they were. */
  ghost predicate Untouched(m: seq<nat>, m': seq<nat>, live: Sizes) {
    forall h, i :: h in live && h <= i < h + live[h] && i < |m| && i < |m'| ==> m'[i] == m[i]
  }

  /** Writing inside a free block touches no busy one. */
  lemma WriteInFree(m: seq<nat>, blocks: Blocks, a: nat, x: nat, v: nat)
    requires Apart(blocks) && a in blocks && !blocks[a].busy && a <= x < End(blocks, a) && x < |m|
    ensures Untouched(m, m[x := v], Live(blocks))
  {
    forall h, i | h in Live(blocks) && h <= i < h + Live(blocks)[h] && i < |m| ensures m[x := v][i] == m[i] {
      assert h in blocks && h != a;
    }
  }

  lemma UntouchedTransitive(m: seq<nat>, m': seq<nat>, m'': seq<nat>, live: Sizes)
    requires Untouched(m, m', live) && Untouched(m', m'', live) && |m| == |m'| == |m''|
    ensures Untouched(m, m'', live)
  {
  }

  lemma JoinHeaders(m: seq<nat>, blocks: Blocks, w: nat, a: nat)
    requires WordSize(w) && Headers(m, blocks, w) && Apart(blocks) && a in blocks && End(blocks, a) in blocks
    requires !blocks[a].busy && !blocks[End(blocks, a)].busy && blocks[a].size > 0
    ensures Headers(m[a := m[a] + m[End(blocks, a)]], Joined(blocks, a), w)
  {
    hide IsHeader;
    var b := End(blocks, a);
    FreeHeaderIs(m[a], blocks[a], w);
    FreeHeaderIs(m[b], blocks[b], w);
    FreeHeader(blocks[a].size + blocks[b].size, w);
    Distributes(blocks[a].size, blocks[b].size, w);
  }

  lemma Distributes(x: nat, y: nat, w: nat)
    ensures (x + y) * w == x * w + y * w
  {
  }

  lemma WordOrder(x: nat, y: nat, w: nat)
    requires WordSize(w)
    ensures x * w >= y * w <==> x >= y
    ensures x >= y ==> x * w - y * w == (x - y) * w
  {
    if w == 2 {
    } else if w == 4 {
    } else {
    }
  }

  /** All that joining two blocks in memory does. */
  lemma JoinMemory(m: seq<nat>, blocks: Blocks, bottom: nat, top: nat, w: nat, a: nat)
    requires WordSize(w) && Tiled(blocks, bottom, top) && Headers(m, blocks, w) && a in blocks && End(blocks, a) in blocks
    requires !blocks[a].busy && !blocks[End(blocks, a)].busy
    ensures a < |m| && End(blocks, a) < |m| && a + m[a] / w == End(blocks, a)
    ensures var m' := m[a := m[a] + m[End(blocks, a)]];
      && Tiled(Joined(blocks, a), bottom, top) && Headers(m', Joined(blocks, a), w)
      && Live(Joined(blocks, a)) == Live(blocks) && Untouched(m, m', Live(blocks))
  {
    hide Live, Joined, Untouched;
    JoinTiles(blocks, bottom, top, a);
    JoinLives(blocks, a);
    JoinHeaders(m, blocks, w, a);
    WriteInFree(m, blocks, a, a, m[a] + m[End(blocks, a)]);
  }

  /** All that a new block at the end of the heap does. */
  lemma ExtendMemory(m: seq<nat>, blocks: Blocks, bottom: nat, top: nat, w: nat, n: nat)
    requires WordSize(w) && Tiled(blocks, bottom, top) && Headers(m, blocks, w) && n > 0 && top < |m|
    ensures var m', blocks' := m[top := n * w + (w - 1)], blocks[top := Block(n, true)];
      && Tiled(blocks', bottom, top + n) && Headers(m', blocks', w)
      && Live(blocks') == Live(blocks)[top := n] && Untouched(m, m', Live(blocks)) && top !in Live(blocks)
  {
    hide IsHeader;
    ExtendTiles(blocks, bottom, top, n);
    BusyHeader(n, w);
  }

  /** All that clearing the busy bits of a header does. */
  lemma ReleaseMemory(m: seq<nat>, blocks: Blocks, bottom: nat, top: nat, w: nat, a: nat)
    requires WordSize(w) && Tiled(blocks, bottom, top) && Headers(m, blocks, w) && a in blocks && blocks[a].busy
    ensures a < |m|
    ensures var m' := m[a := m[a] - m[a] % w];
      && Tiled(Released(blocks, a), bottom, top) && Headers(m', Released(blocks, a), w)
      && Live(Released(blocks, a)) == Live(blocks) - {a} && Untouched(m, m', Live(Released(blocks, a)))
  {
    ReleaseTiles(blocks, bottom, top, a);
    ReleaseLives(blocks, a);
    ReleaseHeaders(m, blocks, w, a);
    WriteInFree(m, Released(blocks, a), a, a, m[a] - m[a] % w);
  }

  lemma ReleaseHeaders(m: seq<nat>, blocks: Blocks, w: nat, a: nat)
    requires WordSize(w) && Headers(m, blocks, w) && a in blocks
    ensures Headers(m[a := m[a] - m[a] % w], Released(blocks, a), w)
  {
    FreeHeaderIs(m[a], blocks[a], w);
    FreeHeader(blocks[a].size, w);
    hide IsHeader;
  }

  /** Memory after a request of length bytes is served from a free block at a. */
  function TakenMemory(m: seq<nat>, a: nat, length: nat, n: nat, w: nat): seq<nat>
    requires w > 0 && a < |m| && (m[a] > length ==> a + n < |m|)
  {
    (if m[a] > length then m[a + n := m[a] - length] else m)[a := length + (w - 1)]
  }

  lemma TakeHeaders(m: seq<nat>, blocks: Blocks, w: nat, a: nat, n: nat)
    requires WordSize(w) && Headers(m, blocks, w) && a in blocks && !blocks[a].busy
    requires 0 < n <= blocks[a].size && End(blocks, a) <= |m|
    ensures m[a] > n * w ==> blocks[a].size > n
    ensures Headers(TakenMemory(m, a, n * w, n, w), Taken(blocks, a, n), w)
  {
    FreeHeaderIs(m[a], blocks[a], w);
    WordOrder(blocks[a].size, n, w);
    WordOrder(n, blocks[a].size, w);
    if blocks[a].size > n {
      FreeHeader(blocks[a].size - n, w);
    }
    BusyHeader(n, w);
  }

  lemma TakeUntouched(m: seq<nat>, blocks: Blocks, w: nat, a: nat, length: nat, n: nat)
    requires w > 0 && Apart(blocks) && a in blocks && !blocks[a].busy && 0 < n <= blocks[a].size && End(blocks, a) <= |m|
    requires m[a] > length ==> blocks[a].size > n
    ensures Untouched(m, TakenMemory(m, a, length, n, w), Live(blocks))
  {
    var m' := if m[a] > length then m[a + n := m[a] - length] else m;
    if m[a] > length {
      WriteInFree(m, blocks, a, a + n, m[a] - length);
    }
    WriteInFree(m', blocks, a, a, length + (w - 1));
    UntouchedTransitive(m, m', TakenMemory(m, a, length, n, w), Live(blocks));
  }

  /** What a request of n words does: it is served by the first gap that has room, or by
      growing the heap, and fails only when neither is possible. */
  ghost predicate Served(live: Sizes, top: nat, live': Sizes, top': nat, bottom: nat, limit: nat, n: nat, p: Option<nat>) {
    match p
    case None => live' == live && top' == top && NoneFits(live, bottom, top, n) && top + n > limit
    case Some(q) =>
      && q > 0 && q - 1 !in live && live' == live[q - 1 := n]
      && if q - 1 == top then top' == top + n && NoneFits(live, bottom, top, n)
         else top' == top && FirstFit(live, bottom, q - 1, n)
  }

  class Heap {
    const w: nat
    const mem: array<nat>
    var started: bool
    var bottom: nat
    var top: nat
    ghost var blocks: Blocks

    ghost predicate Valid()
      reads this, mem
    {
      && WordSize(w) && top <= mem.Length
      && Tiled(blocks, bottom, top) && Headers(mem[..], blocks, w)
      && (!started ==> blocks == map[] && bottom == top)
    }

    ghost function LiveBlocks(): Sizes
      reads this
    {
      Live(blocks)
    }

    /** Memory that the heap may grow into begins at top. */
    constructor (memory: array<nat>, start: nat, word: nat)
      requires WordSize(word) && start <= memory.Length
      ensures Valid() && LiveBlocks() == map[] && mem == memory && w == word && top == start
    {
      w, mem, started, bottom, top, blocks := word, memory, false, start, start, map[];
    }

    /** Two free blocks next to each other become one. */
    method Join(a: nat)
      requires Valid() && started && a in blocks && End(blocks, a) in blocks
      requires !blocks[a].busy && !blocks[End(blocks, a)].busy
      modifies this`blocks, mem
      ensures Valid() && blocks == Joined(old(blocks), a) && LiveBlocks() == old(LiveBlocks())
      ensures Untouched(old(mem[..]), mem[..], LiveBlocks())
    {
      hide Tiled, Live, Joined, Untouched, Headers;
      JoinMemory(mem[..], blocks, bottom, top, w, a);
      var next := a + mem[a] / w;
      mem[a] := mem[a] + mem[next];
      blocks := Joined(blocks, a);
    }

    /** A free block serves a request of length bytes; what is too much of it becomes a
        free block. */
    method TakeBlock(a: nat, length: nat, ghost n: nat)
      requires Valid() && started && a in blocks && !blocks[a].busy && 0 < n <= blocks[a].size && length == n * w
      modifies this`blocks, mem
      ensures Valid() && LiveBlocks() == old(LiveBlocks())[a := n]
      ensures Untouched(old(mem[..]), mem[..], old(LiveBlocks()))
    {
      TakeTiles(blocks, bottom, top, a, n);
      TakeLives(blocks, a, n);
      TakeHeaders(mem[..], blocks, w, a, n);
      TakeUntouched(mem[..], blocks, w, a, length, n);
      WriteTaken(a, length, n);
      blocks := Taken(blocks, a, n);
    }

    method WriteTaken(a: nat, length: nat, ghost n: nat)
      requires WordSize(w) && a < mem.Length && length == n * w && (mem[a] > length ==> a + n < mem.Length)
      modifies mem
      ensures mem[..] == TakenMemory(old(mem[..]), a, length, n, w)
    {
      FreeHeader(n, w);
      if mem[a] > length {
        mem[a + length / w] := mem[a] - length;
      }
      mem[a] := length + (w - 1);
    }

    /** Walks to the first block that serves the request, or to the end of the heap. */
    method Search(length: nat, ghost n: nat) returns (akt: nat)
      requires Valid() && started && length == n * w && n > 0
      modifies this`blocks, mem
      ensures Valid() && LiveBlocks() == old(LiveBlocks()) && Untouched(old(mem[..]), mem[..], LiveBlocks())
      ensures akt == top ==> NoneFits(LiveBlocks(), bottom, top, n)
      ensures akt != top ==> akt in blocks && !blocks[akt].busy && n <= blocks[akt].size && FirstFit(LiveBlocks(), bottom, akt, n)
    {
      akt := bottom;
      StartSearch(blocks, bottom, top, n);
      while akt != top
        invariant Valid() && LiveBlocks() == old(LiveBlocks()) && Untouched(old(mem[..]), mem[..], LiveBlocks())
        invariant Searched(blocks, bottom, top, akt, n)
        decreases |blocks|, top - akt
      {
        hide NoneFits, Begins, Untouched, Within, Apart, Live, FirstFit;
        assert Follows(blocks, akt, top) && IsHeader(mem[..][akt], blocks[akt], w);
        var next := akt + mem[akt] / w;
        if next == top {
          PassLast(blocks, bottom, top, akt, n);
          akt := next;
        } else if Busy(mem[akt], w) {
          PassBusy(blocks, bottom, top, akt, n);
          akt := next;
        } else if NextBusy(next) {
          FreeHeaderIs(mem[akt], blocks[akt], w);
          WordOrder(blocks[akt].size, n, w);
          if mem[akt] >= length {
            FreeBlockFits(blocks, bottom, top, akt, n);
            return;
          }
          PassSmall(blocks, bottom, top, akt, n);
          akt := next;
        } else {
          JoinShrinks(blocks, akt);
          ghost var m := mem[..];
          Join(akt);
          UntouchedTransitive(old(mem[..]), m, mem[..], LiveBlocks());
        }
      }
    }

    /** The pointer to the request's bytes, behind the header; none when the heap cannot grow. */
    method Malloc(request: nat) returns (p: Option<nat>)
      requires Valid() && request < Modulus(w) && Words(request, w) > 0
      modifies this`started, this`bottom, this`top, this`blocks, mem
      ensures Valid() && Untouched(old(mem[..]), mem[..], old(LiveBlocks()))
      ensures Words(request, w) * w >= request + w <==> request + w + (w - 1) < Modulus(w)
      ensures Served(old(LiveBlocks()), old(top), LiveBlocks(), top, bottom, mem.Length, Words(request, w), p)
    {
      if !started {
        started := true;
        bottom := top;
      }
      RoundedHolds(request, w);
      p := Serve(Rounded(request, w), Words(request, w));
    }

    method Serve(length: nat, ghost n: nat) returns (p: Option<nat>)
      requires Valid() && started && length == n * w && n > 0
      modifies this`top, this`blocks, mem
      ensures Valid() && Untouched(old(mem[..]), mem[..], old(LiveBlocks()))
      ensures Served(old(LiveBlocks()), old(top), LiveBlocks(), top, bottom, mem.Length, n, p)
    {
      hide Tiled, Headers, Untouched, Live, NoneFits, FirstFit;
      var akt := Search(length, n);
      ghost var m := mem[..];
      if akt == top {
        FreeHeader(n, w);
        var next := akt + length / w;
        if next > mem.Length {
          return None;
        }
        Extend(length, n);
      } else {
        TakeFree(akt, length, n);
      }
      UntouchedTransitive(old(mem[..]), m, mem[..], old(LiveBlocks()));
      p := Some(akt + 1);
    }

    method TakeFree(akt: nat, length: nat, ghost n: nat)
      requires Valid() && started && akt in blocks && !blocks[akt].busy && 0 < n <= blocks[akt].size && length == n * w
      modifies this`blocks, mem
      ensures Valid() && akt !in old(LiveBlocks()) && akt < top && LiveBlocks() == old(LiveBlocks())[akt := n]
      ensures Untouched(old(mem[..]), mem[..], old(LiveBlocks()))
    {
      TakeBlock(akt, length, n);
    }

    method Extend(length: nat, ghost n: nat)
      requires Valid() && started && n > 0 && length == n * w && top + n <= mem.Length
      modifies this`blocks, this`top, mem
      ensures Valid() && top == old(top) + n && old(top) !in old(LiveBlocks())
      ensures LiveBlocks() == old(LiveBlocks())[old(top) := n]
      ensures Untouched(old(mem[..]), mem[..], old(LiveBlocks()))
    {
      hide Tiled, Live, Headers, Untouched;
      FreeHeader(n, w);
      ExtendMemory(mem[..], blocks, bottom, top, w, n);
      mem[top] := length + (w - 1);
      blocks := blocks[top := Block(n, true)];
      top := top + length / w;
    }

    /** Clears the busy bits of the header before a pointer. */
    method Free(p: nat)
      requires Valid() && p > 0 && p - 1 in LiveBlocks()
      modifies this`blocks, mem
      ensures Valid() && LiveBlocks() == old(LiveBlocks()) - {p - 1}
      ensures Untouched(old(mem[..]), mem[..], LiveBlocks())
    {
      ghost var a := p - 1;
      assert a in blocks;
      hide Tiled, Live, Headers, Untouched;
      ReleaseMemory(mem[..], blocks, bottom, top, w, a);
      mem[p - 1] := mem[p - 1] - mem[p - 1] % w;
      blocks := Released(blocks, a);
    }

    /** The owner of a block writes into it, behind the header. */
    method Store(p: nat, i: nat, value: nat)
      requires Valid() && p > 0 && p - 1 in LiveBlocks() && i + 1 < LiveBlocks()[p - 1]
      modifies mem
      ensures Valid() && LiveBlocks() == old(LiveBlocks())
      ensures mem[..] == old(mem[..])[p + i := value]
    {
      mem[p + i] := value;
    }

    /** From the bottom, the lengths lead exactly to the break. */
    lemma WalkLands()
      requires Valid()
      ensures WalkEnds(mem[..], bottom, top, w)
    {
      WalkFrom(mem[..], blocks, bottom, top, w, bottom);
    }

    /** Live blocks lie within the heap and do not overlap. */
    lemma LiveDisjoint(g: nat, h: nat)
      requires Valid() && g in LiveBlocks() && h in LiveBlocks() && g < h
      ensures bottom <= g && g + LiveBlocks()[g] <= h && h + LiveBlocks()[h] <= top
    {
    }

    predicate NextBusy(next: nat)
      requires Valid() && next in blocks
      reads this, mem
      ensures NextBusy(next) <==> blocks[next].busy
    {
      assert IsHeader(mem[..][next], blocks[next], w);
      Busy(mem[next], w)
    }
  }

  lemma StartSearch(blocks: Blocks, bottom: nat, top: nat, n: nat)
    requires Tiled(blocks, bottom, top) && n > 0
    ensures Searched(blocks, bottom, top, bottom, n)
  {
  }

  lemma JoinShrinks(blocks: Blocks, a: nat)
    requires a in blocks && End(blocks, a) in blocks && blocks[a].size > 0
    ensures |Joined(blocks, a)| < |blocks|
  {
    var b := End(blocks, a);
    assert Joined(blocks, a).Keys == blocks.Keys - {b};
    assert |Joined(blocks, a)| == |Joined(blocks, a).Keys| && |blocks| == |blocks.Keys|;
  }
}
