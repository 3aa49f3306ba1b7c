/** Little-endian numbers in a sequence of bytes. */
module LittleEndian {

  type byte = x: int | 0 <= x < 256

  function Pow256(n: nat): (p: nat)
    ensures p > 0
  {
    if n == 0 then 1 else 256 * Pow256(n - 1)
  }

  /** The number a sequence of bytes stands for, the lowest byte first. */
  function LE(s: seq<byte>): (v: nat)
    ensures v < Pow256(|s|)
  {
    if s == [] then 0 else s[0] + 256 * LE(s[1..])
  }

  /** The n lowest bytes of a number. */
  function Bytes(v: nat, n: nat): (s: seq<byte>)
    ensures |s| == n
  {
    if n == 0 then [] else [v % 256] + Bytes(v / 256, n - 1)
  }

  function Zeros(n: nat): (s: seq<byte>)
    ensures |s| == n
  {
    seq(n, _ => 0)
  }

  lemma {:induction false} BytesReadBack(v: nat, n: nat)
    requires v < Pow256(n)
    ensures LE(Bytes(v, n)) == v
  {
    if n > 0 {
      BytesReadBack(v / 256, n - 1);
    }
  }

  /** Zero bytes above the others do not change the number. */
  lemma {:induction false} ZeroExtended(s: seq<byte>, n: nat)
    ensures LE(s + Zeros(n)) == LE(s)
  {
    if s != [] {
      assert (s + Zeros(n))[1..] == s[1..] + Zeros(n);
      ZeroExtended(s[1..], n);
    } else if n > 0 {
      assert s + Zeros(n) == Zeros(n) && Zeros(n)[1..] == [] + Zeros(n - 1);
      ZeroExtended([], n - 1);
    }
  }

  lemma Pow256Values()
    ensures Pow256(2) == 0x1_0000 && Pow256(4) == 0x1_0000_0000 && Pow256(8) == 0x1_0000_0000_0000_0000
  {
    assert Pow256(1) == 256 && Pow256(3) == 0x100_0000;
    assert Pow256(5) == 256 * Pow256(4) && Pow256(6) == 256 * Pow256(5) && Pow256(7) == 256 * Pow256(6);
  }

  /** The bytes of `data` from `at` on begin with s. */
  predicate SliceIs(data: seq<byte>, at: nat, s: seq<byte>) {
    at + |s| <= |data| && data[at..at + |s|] == s
  }

  lemma SliceParts(data: seq<byte>, at: nat, a: seq<byte>, b: seq<byte>)
    requires SliceIs(data, at, a + b)
    ensures SliceIs(data, at, a) && SliceIs(data, at + |a|, b)
  {
    assert data[at..at + |a|] == (a + b)[..|a|];
    assert data[at + |a|..at + |a| + |b|] == (a + b)[|a|..];
  }

  /** The n-byte number at an offset. */
  function Num(data: seq<byte>, at: nat, n: nat): nat
    requires at + n <= |data|
  {
    LE(data[at..at + n])
  }

  lemma NumIs(data: seq<byte>, at: nat, v: nat, n: nat)
    requires v < Pow256(n) && SliceIs(data, at, Bytes(v, n))
    ensures Num(data, at, n) == v
  {
    BytesReadBack(v, n);
  }
}
