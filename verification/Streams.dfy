/** Bytes, lines of bytes, and reading them in pieces. */
module Streams {

  type Byte = c: int | 0 <= c < 256

  const NL: Byte := 10

  class Stream {
    var rest: seq<Byte>

    constructor (content: seq<Byte>)
      ensures rest == content
    {
      rest := content;
    }

    /** Between one byte and size bytes, as it happens; none only at the end. */
    method Read(size: nat) returns (bytes: seq<Byte>)
      requires size > 0
      modifies this
      ensures old(rest) == bytes + rest && |bytes| <= size
      ensures bytes == [] ==> rest == []
    {
      var n: int := *;
      if n < 1 || n > size {
        n := size;
      }
      if n > |rest| {
        n := |rest|;
      }
      bytes, rest := rest[..n], rest[n..];
    }
  }

  function Newlines(s: seq<Byte>): nat {
    if s == [] then 0 else (if s[0] == NL then 1 else 0) + Newlines(s[1..])
  }

  lemma {:induction false} NewlinesAppend(a: seq<Byte>, b: seq<Byte>)
    ensures Newlines(a + b) == Newlines(a) + Newlines(b)
    decreases |a|
  {
    if a == [] {
      assert a + b == b;
    } else {
      NewlinesAppend(a[1..], b);
      assert (a + b)[1..] == a[1..] + b;
    }
  }

  predicate Unfinished(s: seq<Byte>) {
    s != [] && s[|s| - 1] != NL
  }

  /** The number of lines, counting a last one without a newline. */
  function LineCount(s: seq<Byte>): nat {
    Newlines(s) + if Unfinished(s) then 1 else 0
  }

  lemma BlockFits(length: nat, bufsize: nat)
    requires length > 0 && bufsize > 0
    ensures length % bufsize <= length
    ensures length % bufsize == 0 ==> bufsize <= length
    ensures (length - if length % bufsize == 0 then bufsize else length % bufsize) % bufsize == 0
  {
    var q, r := length / bufsize, length % bufsize;
    assert length == q * bufsize + r;
    if r == 0 {
      assert q >= 1;
      assert length - bufsize == (q - 1) * bufsize;
      MultipleRemains(q - 1, bufsize);
    } else {
      MultipleRemains(q, bufsize);
    }
  }

  lemma MultipleRemains(q: nat, b: nat)
    requires b > 0
    ensures (q * b) % b == 0
  {
    var x := q * b;
    var d, r := x / b, x % b;
    assert x == d * b + r;
    var e := q - d;
    assert e * b == r;
    if e >= 1 {
      AtLeastOnce(e, b);
    } else if e <= -1 {
      AtLeastOnce(-e, b);
    }
  }

  lemma AtLeastOnce(e: int, b: nat)
    requires e >= 1
    ensures e * b >= b && (-e) * b == -(e * b)
  {
  }

  lemma BlockBefore(pos: nat, bufsize: nat)
    requires pos > 0 && bufsize > 0 && pos % bufsize == 0
    ensures pos >= bufsize && (pos - bufsize) % bufsize == 0
  {
    var q := pos / bufsize;
    assert pos == q * bufsize && q >= 1;
    assert pos - bufsize == (q - 1) * bufsize;
    MultipleRemains(q - 1, bufsize);
  }
}
