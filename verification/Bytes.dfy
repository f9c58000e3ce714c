/** Bytes and the little-endian fields the partitioning tools read and write. */
module Bytes {
  import opened Arith

  type byte = x: int | 0 <= x < 256

  const SECTOR := 512

  /** The `n` low bytes of `v`, least significant first: `(v >> (b*8)) & 0xFF` for b = 0..n-1. */
  function LE(v: nat, n: nat): (s: seq<byte>)
    ensures |s| == n
    decreases n
  {
    if n == 0 then [] else [v % 256] + LE(v / 256, n - 1)
  }

  lemma {:induction false} LEZero()
    ensures LE(0, 0) == []
  {
  }

  lemma {:induction false} LEStep(v: nat, n: nat, low: byte, rest: nat)
    requires n > 0 && v == low + 256 * rest
    ensures LE(v, n) == [low] + LE(rest, n - 1)
  {
    DivUnique(v, 256, rest, low);
  }

  function FromLE(s: seq<byte>): nat {
    if s == [] then 0 else s[0] + 256 * FromLE(s[1..])
  }

  function Pow256(n: nat): (p: nat)
    ensures p > 0
  {
    if n == 0 then 1 else 256 * Pow256(n - 1)
  }

  lemma {:induction false} FromLEBound(s: seq<byte>)
    ensures FromLE(s) < Pow256(|s|)
  {
    if s != [] {
      FromLEBound(s[1..]);
    }
  }

  /** Writing a field keeps exactly its value modulo the field width. */
  lemma {:induction false} FieldRoundTrip(v: nat, n: nat)
    ensures FromLE(LE(v, n)) == v % Pow256(n)
    decreases n
  {
    if n > 0 {
      var rest := LE(v / 256, n - 1);
      assert LE(v, n)[1..] == rest;
      FieldRoundTrip(v / 256, n - 1);
      ModSplit(v, Pow256(n - 1));
    }
  }

  lemma {:induction false} ModSplit(v: nat, m: nat)
    requires m > 0
    ensures v % (256 * m) == v % 256 + 256 * ((v / 256) % m)
  {
    var q, r := v / 256, v % 256;
    var a, b := q / m, q % m;
    assert q == m * a + b;
    assert v == (256 * m) * a + (256 * b + r) by {
      assert v == 256 * q + r;
    }
    assert 256 * b + r < 256 * m;
    DivUnique(v, 256 * m, a, 256 * b + r);
  }

  lemma {:induction false} PowValues()
    ensures Pow256(4) == 0x1_0000_0000 && Pow256(8) == 0x1_0000_0000_0000_0000
  {
    assert Pow256(2) == 0x1_0000;
    assert Pow256(4) == 0x1_0000 * 0x1_0000;
    assert Pow256(6) == 0x1_0000 * 0x1_0000_0000;
  }

  function ZeroBytes(n: nat): (r: seq<byte>)
    ensures |r| == n
  {
    seq(n, _ => 0)
  }

  /** `s` with the bytes of `t` laid over it from position `at`. */
  function Splice(s: seq<byte>, at: nat, t: seq<byte>): (r: seq<byte>)
    requires at + |t| <= |s|
    ensures |r| == |s|
  {
    s[..at] + t + s[at + |t|..]
  }

  lemma {:induction false} SpliceAt(s: seq<byte>, at: nat, t: seq<byte>)
    requires at + |t| <= |s|
    ensures Splice(s, at, t)[at..at + |t|] == t
    ensures forall k :: 0 <= k < |s| && !(at <= k < at + |t|) ==> Splice(s, at, t)[k] == s[k]
  {
  }

  lemma {:induction false} SpliceEmpty(s: seq<byte>, at: nat)
    requires at <= |s|
    ensures Splice(s, at, []) == s
  {
  }

  lemma {:induction false} SpliceCons(s: seq<byte>, at: nat, b: byte, t: seq<byte>)
    requires at + 1 + |t| <= |s|
    ensures Splice(s, at, [b] + t) == Splice(s[at := b], at + 1, t)
  {
  }

  /** Reading a range that an overlay does not touch. */
  lemma {:induction false} SpliceDisjoint(s: seq<byte>, at: nat, t: seq<byte>, lo: nat, hi: nat)
    requires at + |t| <= |s| && lo <= hi <= |s|
    requires hi <= at || at + |t| <= lo
    ensures Splice(s, at, t)[lo..hi] == s[lo..hi]
  {
  }

  /** An overlay inside a range is an overlay of that range. */
  lemma {:induction false} SpliceInside(s: seq<byte>, at: nat, t: seq<byte>, lo: nat, hi: nat)
    requires lo <= at && at + |t| <= hi <= |s|
    ensures Splice(s, at, t)[lo..hi] == Splice(s[lo..hi], at - lo, t)
  {
  }

  lemma {:induction false} SliceOfSlice(d: seq<byte>, lo: nat, hi: nat, a: nat, b: nat)
    requires a <= b && lo + b <= hi <= |d|
    ensures d[lo..hi][a..b] == d[lo + a..lo + b]
  {
    var x, y := d[lo..hi][a..b], d[lo + a..lo + b];
    forall i | 0 <= i < |x|
      ensures x[i] == y[i]
    {
      assert x[i] == d[lo..hi][a + i];
    }
  }

  /** What a file read returns: `n` bytes from `pos`, fewer at the end of the file. */
  function ReadAt(file: seq<byte>, pos: nat, n: nat): (r: seq<byte>)
    ensures |r| <= n
    ensures pos + n <= |file| ==> r == file[pos..pos + n]
    ensures pos + n > |file| && n > 0 ==> |r| < n
  {
    if pos >= |file| then [] else if pos + n <= |file| then file[pos..pos + n] else file[pos..]
  }
}
