/** Bytes, and writing some over the bytes of a buffer or a file. */
module ByteBuffers {
  type byte = b: int | 0 <= b < 0x100

  /** c with the bytes from p on replaced by d; where d goes further than c, the result is longer. */
  function Overwrite(c: seq<byte>, p: nat, d: seq<byte>): (r: seq<byte>)
    requires p <= |c|
    ensures |r| == if p + |d| <= |c| then |c| else p + |d|
  {
    c[..p] + d + if p + |d| <= |c| then c[p + |d|..] else []
  }

  /** The bytes written stand where they were put, and all others are as they were. */
  lemma OverwriteAt(c: seq<byte>, p: nat, d: seq<byte>, i: nat)
    requires p <= |c| && i < |Overwrite(c, p, d)|
    ensures Overwrite(c, p, d)[i] == if p <= i < p + |d| then d[i - p] else c[i]
  {
  }

  lemma OverwriteTwice(c: seq<byte>, p: nat, d: seq<byte>, e: seq<byte>)
    requires p <= |c|
    ensures Overwrite(Overwrite(c, p, d), p + |d|, e) == Overwrite(c, p, d + e)
  {
  }

  lemma OverwriteOneMore(c: seq<byte>, p: nat, d: seq<byte>, n: nat)
    requires p <= |c| && n < |d|
    ensures Overwrite(Overwrite(c, p, d[..n]), p + n, [d[n]]) == Overwrite(c, p, d[..n + 1])
  {
    OverwriteTwice(c, p, d[..n], [d[n]]);
    assert d[..n + 1] == d[..n] + [d[n]];
  }

  lemma OverwriteFront(c: seq<byte>, p: nat, d: seq<byte>)
    requires p + |d| <= |c|
    ensures Overwrite(c, p, d)[..p + |d|] == c[..p] + d
  {
  }

  lemma OverwriteNothing(c: seq<byte>, p: nat)
    requires p <= |c|
    ensures Overwrite(c, p, []) == c
  {
  }
}
