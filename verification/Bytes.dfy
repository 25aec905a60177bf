/// Bytes, little-endian words and the result type the other modules share.
///
/// A byte is an integer below 256 and a word an integer below its power of two: the
/// source's masks and shifts appear as the remainders and quotients they compute, and
/// every wrapping operation is written out.
module Bytes {
  import Modular

  type byte = n: int | 0 <= n < 0x100
  type u16 = n: int | 0 <= n < 0x1_0000
  type u32 = n: int | 0 <= n < 0x1_0000_0000
  type u64 = n: int | 0 <= n < 0x1_0000_0000_0000_0000

  const U64_MAX: u64 := 0xFFFF_FFFF_FFFF_FFFF

  datatype Option<+T> = None | Some(value: T)

  datatype Result<+T, +E> = Ok(value: T) | Err(error: E)

  /// 256 to the n-th: one past the largest n-byte word.
  function Pow256(n: nat): (p: nat)
    ensures p > 0
  {
    if n == 0 then 1 else 256 * Pow256(n - 1)
  }

  lemma Pow256Values()
    ensures Pow256(2) == 0x1_0000
    ensures Pow256(3) == 0x100_0000
    ensures Pow256(4) == 0x1_0000_0000
    ensures Pow256(6) == 0x1_0000_0000_0000
    ensures Pow256(8) == 0x1_0000_0000_0000_0000
  {
    assert Pow256(1) == 0x100;
    assert Pow256(3) == 0x100_0000;
    assert Pow256(5) == 0x100_0000_0000;
    assert Pow256(6) == 0x1_0000_0000_0000;
    assert Pow256(7) == 0x100_0000_0000_0000;
  }

  /// The number a little-endian byte string spells.
  function LeValue(s: seq<byte>): (v: nat)
    ensures v < Pow256(|s|)
  {
    if s == [] then 0 else s[0] + 256 * LeValue(s[1..])
  }

  /// The n little-endian bytes of a number.
  function LeBytes(v: nat, n: nat): (s: seq<byte>)
    ensures |s| == n
  {
    if n == 0 then [] else [v % 256] + LeBytes(v / 256, n - 1)
  }

  lemma {:induction false} LeValueOfBytes(v: nat, n: nat)
    requires v < Pow256(n)
    ensures LeValue(LeBytes(v, n)) == v
  {
    if n > 0 {
      LeValueOfBytes(v / 256, n - 1);
      assert LeBytes(v, n)[1..] == LeBytes(v / 256, n - 1);
    }
  }

  lemma {:induction false} LeBytesOfValue(s: seq<byte>)
    ensures LeBytes(LeValue(s), |s|) == s
  {
    if s != [] {
      LeBytesOfValue(s[1..]);
      var v := LeValue(s);
      assert v % 256 == s[0] && v / 256 == LeValue(s[1..]);
    }
  }

  lemma {:induction false} LastByte(s: seq<byte>)
    requires s != []
    ensures LeValue(s) / Pow256(|s| - 1) == s[|s| - 1]
  {
    if |s| == 1 {
      assert s[1..] == [];
    } else {
      LastByte(s[1..]);
      assert Pow256(|s| - 1) == 256 * Pow256(|s| - 2);
      LastDigit(s[0], LeValue(s[1..]), Pow256(|s| - 2));
    }
  }

  lemma LastDigit(low: nat, high: nat, q: nat)
    requires low < 256 && q > 0
    ensures (low + 256 * high) / (256 * q) == high / q
  {
    Modular.DivUnique(low + 256 * high, 256, high, low);
    Modular.DivDiv(low + 256 * high, 256, q);
  }

  function Zeros(n: nat): (s: seq<byte>)
    ensures |s| == n && forall i :: 0 <= i < n ==> s[i] == 0
  {
    seq(n, _ => 0)
  }

  function Min(a: int, b: int): int { if a <= b then a else b }

  /// What follows a rewritten stretch may be split off.
  lemma Splice(s: seq<byte>, i: nat, n: nat, u: seq<byte>, t: seq<byte>)
    requires i + |u| == |s| && n <= |u|
    requires t == s[..i] + u[..n] + s[i + n..]
    ensures s[..i] + u == t[..i + n] + u[n..]
  {
    assert u == u[..n] + u[n..];
    assert t[..i + n] == s[..i] + u[..n];
  }

  lemma Cut(s: seq<byte>, i: nat, n: nat)
    requires i + n <= |s|
    ensures s == s[..i] + s[i..][..n] + s[i + n..] && s[i..][..n] == s[i..i + n] && s[i..][n..] == s[i + n..]
  {
  }

  lemma FromParts(s: seq<byte>, u: seq<byte>, n: nat)
    requires n <= |s| == |u| && u[..n] == s[..n] && u[n..] == s[n..]
    ensures u == s
  {
    assert u == u[..n] + u[n..] && s == s[..n] + s[n..];
  }

  lemma SliceOfSlice(s: seq<byte>, at: nat, len: nat, from: nat, n: nat)
    requires at + len <= |s| && from + n <= len
    ensures s[at..at + len][from..from + n] == s[at + from..at + from + n]
  {
    var u, v := s[at..at + len][from..from + n], s[at + from..at + from + n];
    assert |u| == |v| && forall k :: 0 <= k < n ==> u[k] == v[k];
  }

  lemma SliceBehind(front: seq<byte>, rest: seq<byte>, i: nat, j: nat)
    requires i <= j <= |rest|
    ensures (front + rest)[|front| + i..|front| + j] == rest[i..j]
  {
  }
}
