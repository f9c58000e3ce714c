/** dd.py: copying a stream in input blocks of one size and output blocks of another. */
module Dd {
  import opened Arith
  import opened Bytes

  /** `s` with zeros up to a multiple of `block`. */
  function Padded(s: seq<byte>, block: nat): (r: seq<byte>)
    requires block >= 1
  {
    if |s| % block == 0 then s else s + ZeroBytes(block - |s| % block)
  }

  /** Nothing but zeros is added, and fewer than a block of them. */
  lemma {:induction false} PaddedIs(s: seq<byte>, block: nat)
    requires block >= 1
    ensures var r := Padded(s, block);
            && |s| <= |r| < |s| + block && |r| % block == 0 && r[..|s|] == s
            && forall i :: |s| <= i < |r| ==> r[i] == 0
  {
    if |s| % block != 0 {
      var q, m := |s| / block, |s| % block;
      assert |s| + (block - m) == block * (q + 1) + 0;
      DivUnique(|s| + (block - m), block, q + 1, 0);
    }
  }

  /** How many bytes there are to copy. */
  function Available(input: seq<byte>, from: nat, count: nat): nat {
    if from >= |input| then 0 else if from + count <= |input| then count else |input| - from
  }

  /** The read/write loop of dd. `count` is in bytes. */
  method Copy(input: seq<byte>, skip: nat, ibs: nat, obs: nat, count: nat) returns (output: seq<byte>)
    requires ibs >= 1 && obs >= 1
    ensures output == Padded(ReadAt(input, skip * ibs, count), obs)
    ensures var n := Available(input, skip * ibs, count);
            && n <= |output| < n + obs && |output| % obs == 0
            && (forall i :: 0 <= i < n ==> output[i] == input[skip * ibs + i])
            && (forall i :: n <= i < |output| ==> output[i] == 0)
  {
    hide ReadAt, Padded, ZeroBytes;
    output := [];
    var buffer: seq<byte> := [];
    ReadNothing(input, skip * ibs);
    var cursor := skip * ibs;
    ghost var from := cursor;
    var bytesRead := 0;
    while bytesRead < count
      invariant output + buffer == ReadAt(input, from, if bytesRead < count then bytesRead else count)
      invariant bytesRead < count ==> cursor == from + |ReadAt(input, from, bytesRead)|
      invariant |output| % obs == 0 && |buffer| < obs
      decreases count - bytesRead
    {
      var chunk := ReadAt(input, cursor, ibs);
      ghost var wanted := if count - bytesRead < ibs then count - bytesRead else ibs;
      ReadMore(input, from, bytesRead, ibs, wanted);
      cursor := cursor + |chunk|;
      if count - bytesRead < ibs {
        chunk := if |chunk| <= count - bytesRead then chunk else chunk[..count - bytesRead];
      }
      assert output + (buffer + chunk) == (output + buffer) + chunk;
      output, buffer := Drain(output, buffer + chunk, obs);
      bytesRead := bytesRead + ibs;
    }
    PadTail(output, buffer, obs);
    if |buffer| > 0 {
      output := output + (buffer + ZeroBytes(obs - |buffer|));
    }
    CopiedBytes(input, skip * ibs, count, obs);
  }

  lemma {:induction false} CopiedBytes(input: seq<byte>, from: nat, count: nat, obs: nat)
    requires obs >= 1
    ensures var r, n := Padded(ReadAt(input, from, count), obs), Available(input, from, count);
            && n <= |r| < n + obs && |r| % obs == 0
            && (forall i :: 0 <= i < n ==> r[i] == input[from + i])
            && (forall i :: n <= i < |r| ==> r[i] == 0)
  {
    hide Padded, ReadAt;
    var s := ReadAt(input, from, count);
    var r := Padded(s, obs);
    ReadShape(input, from, count);
    PaddedIs(s, obs);
    assert forall i :: 0 <= i < |s| ==> r[..|s|][i] == r[i];
  }

  lemma {:induction false} PadTail(output: seq<byte>, buffer: seq<byte>, obs: nat)
    requires obs >= 1 && |output| % obs == 0 && |buffer| < obs
    ensures Padded(output + buffer, obs) == if |buffer| > 0
            then output + (buffer + ZeroBytes(obs - |buffer|)) else output
  {
    Remainder(|output|, |buffer|, obs);
    if |buffer| == 0 {
      assert output + buffer == output;
    }
  }

  /** The inner loop writes whole output blocks until fewer than `obs` bytes are left. */
  method Drain(before: seq<byte>, pending: seq<byte>, obs: nat) returns (output: seq<byte>, buffer: seq<byte>)
    requires obs >= 1 && |before| % obs == 0
    ensures output + buffer == before + pending
    ensures |output| % obs == 0 && |buffer| < obs
  {
    output, buffer := before, pending;
    var written := 0;
    while written < |pending|
      invariant output + buffer == before + pending
      invariant |output| % obs == 0
      invariant |buffer| < obs || |buffer| == |pending| - written
      decreases |pending| - written
    {
      if obs <= |buffer| {
        Remainder(|output| + obs, 0, obs);
        BlockMore(|output|, obs);
        assert output + buffer == (output + buffer[..obs]) + buffer[obs..];
        output, buffer := output + buffer[..obs], buffer[obs..];
      }
      written := written + obs;
    }
  }

  lemma {:induction false} BlockMore(n: nat, obs: nat)
    requires obs >= 1 && n % obs == 0
    ensures (n + obs) % obs == 0
  {
    var q := n / obs;
    assert n + obs == obs * (q + 1) + 0;
    DivUnique(n + obs, obs, q + 1, 0);
  }

  lemma {:induction false} Remainder(n: nat, b: nat, obs: nat)
    requires obs >= 1
    ensures n % obs == 0 && b < obs ==> (n + b) % obs == b
  {
    if n % obs == 0 && b < obs {
      assert n + b == obs * (n / obs) + b;
      DivUnique(n + b, obs, n / obs, b);
    }
  }

  lemma {:induction false} ReadNothing(input: seq<byte>, from: nat)
    ensures ReadAt(input, from, 0) == []
  {
  }

  /** How much is read, and what. */
  lemma {:induction false} ReadShape(input: seq<byte>, from: nat, n: nat)
    ensures |ReadAt(input, from, n)| == if from >= |input| then 0 else if from + n <= |input| then n else |input| - from
    ensures forall i :: 0 <= i < |ReadAt(input, from, n)| ==>
            from + i < |input| && ReadAt(input, from, n)[i] == input[from + i]
  {
  }

  /** Reading on from where a read stopped. */
  lemma {:induction false} ReadMore(input: seq<byte>, from: nat, n: nat, ibs: nat, wanted: nat)
    requires wanted <= ibs
    ensures var chunk := ReadAt(input, from + |ReadAt(input, from, n)|, ibs);
            && ReadAt(input, from, n) + (if |chunk| <= wanted then chunk else chunk[..wanted])
                == ReadAt(input, from, n + wanted)
            && |ReadAt(input, from, n)| + |chunk| == |ReadAt(input, from, n + ibs)|
  {
    hide ReadAt;
    var head, whole := ReadAt(input, from, n), ReadAt(input, from, n + wanted);
    var chunk := ReadAt(input, from + |head|, ibs);
    ReadShape(input, from, n);
    ReadShape(input, from, n + wanted);
    ReadShape(input, from, n + ibs);
    ReadShape(input, from + |head|, ibs);
    var got := head + if |chunk| <= wanted then chunk else chunk[..wanted];
    assert |got| == |whole|;
    assert got == whole;
  }
}
