/** Bytes, little-endian 32-bit words, and placing byte strings in a buffer. */
module Bytes {

  type byte = x: int | 0 <= x < 256

  const TWO32: nat := 0x1_0000_0000

  function U32(n: nat): (e: seq<byte>)
    requires n < TWO32
    ensures |e| == 4
  {
    [n % 256, n / 256 % 256, n / 65536 % 256, n / 16777216]
  }

  function ReadU32(buf: seq<byte>, pos: nat): (n: nat)
    requires pos + 4 <= |buf|
    ensures n < TWO32
  {
    var b0: int, b1: int, b2: int, b3: int := buf[pos], buf[pos + 1], buf[pos + 2], buf[pos + 3];
    b0 + 256 * b1 + 65536 * b2 + 16777216 * b3
  }

  /** The buffer holds `e` at `pos`. */
  ghost predicate At(buf: seq<byte>, pos: nat, e: seq<byte>) {
    pos + |e| <= |buf| && buf[pos..pos + |e|] == e
  }

  lemma AtConcat(buf: seq<byte>, pos: nat, a: seq<byte>, b: seq<byte>)
    ensures At(buf, pos, a + b) <==> At(buf, pos, a) && At(buf, pos + |a|, b)
  {
    if pos + |a| + |b| <= |buf| {
      var w := buf[pos..pos + |a| + |b|];
      assert w[..|a|] == buf[pos..pos + |a|] && w[|a|..] == buf[pos + |a|..pos + |a| + |b|];
      assert w == w[..|a|] + w[|a|..];
      assert (a + b)[..|a|] == a && (a + b)[|a|..] == b;
    }
  }

  lemma AtSlice(buf: seq<byte>, pos: nat, e: seq<byte>, o: nat, n: nat)
    requires At(buf, pos, e) && o + n <= |e|
    ensures buf[pos + o..pos + o + n] == e[o..o + n]
  {
    assert e == e[..o] + (e[o..o + n] + e[o + n..]);
    AtConcat(buf, pos, e[..o], e[o..o + n] + e[o + n..]);
    AtConcat(buf, pos + o, e[o..o + n], e[o + n..]);
  }

  lemma AtU32(buf: seq<byte>, pos: nat, n: nat)
    requires n < TWO32 && At(buf, pos, U32(n))
    ensures pos + 4 <= |buf| && ReadU32(buf, pos) == n
  {
    hide U32;
    var e := buf[pos..pos + 4];
    assert buf[pos] == e[0] && buf[pos + 1] == e[1] && buf[pos + 2] == e[2] && buf[pos + 3] == e[3];
    ReadBack(n);
    assert ReadU32(e, 0) == ReadU32(buf, pos);
  }

  lemma ReadBack(n: nat)
    requires n < TWO32
    ensures ReadU32(U32(n), 0) == n
  {
    var q := n / 256;
    var r := q / 256;
    assert n / 65536 == r && n / 16777216 == r / 256;
  }

  /** A multiple of eight: where a double may start. */
  predicate Aligned(n: nat) {
    n % 8 == 0
  }

  lemma AlignedAdd(a: nat, b: nat)
    requires Aligned(a) && Aligned(b)
    ensures Aligned(a + b)
  {
  }

  lemma AlignedTimes(k: nat)
    ensures Aligned(8 * k)
  {
  }
}
