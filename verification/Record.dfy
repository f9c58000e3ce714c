/** Packed records: little-endian fields one after the other. */
module Record {
  import opened Bytes

  datatype Cell = Cell(width: nat, value: nat)

  function Encode(cs: seq<Cell>): seq<byte> {
    if cs == [] then [] else Encode(cs[..|cs| - 1]) + LE(cs[|cs| - 1].value, cs[|cs| - 1].width)
  }

  /** Where field `k` starts. */
  function Offset(cs: seq<Cell>, k: nat): nat
    requires k <= |cs|
  {
    if k == 0 then 0 else Offset(cs, k - 1) + cs[k - 1].width
  }

  lemma {:induction false} OffsetPrefix(cs: seq<Cell>, n: nat, k: nat)
    requires k <= n <= |cs|
    ensures Offset(cs[..n], k) == Offset(cs, k)
    decreases k
  {
    if k > 0 {
      OffsetPrefix(cs, n, k - 1);
    }
  }

  lemma {:induction false} OffsetMonotone(cs: seq<Cell>, j: nat, k: nat)
    requires j <= k <= |cs|
    ensures Offset(cs, j) <= Offset(cs, k)
    decreases k
  {
    if j < k {
      OffsetMonotone(cs, j, k - 1);
    }
  }

  lemma {:induction false} EncodeLength(cs: seq<Cell>)
    ensures |Encode(cs)| == Offset(cs, |cs|)
  {
    if cs != [] {
      EncodeLength(cs[..|cs| - 1]);
      OffsetPrefix(cs, |cs| - 1, |cs| - 1);
    }
  }

  /** Every field is found at its offset. */
  lemma {:induction false} EncodeRead(cs: seq<Cell>, k: nat)
    requires k < |cs|
    ensures Offset(cs, k) + cs[k].width <= |Encode(cs)|
    ensures Encode(cs)[Offset(cs, k)..Offset(cs, k) + cs[k].width] == LE(cs[k].value, cs[k].width)
  {
    var n := |cs| - 1;
    var front := cs[..n];
    EncodeLength(front);
    OffsetPrefix(cs, n, k);
    if k < n {
      EncodeRead(front, k);
      var lo, hi := Offset(cs, k), Offset(cs, k) + cs[k].width;
      assert Encode(cs)[lo..hi] == Encode(front)[lo..hi];
    }
  }

  /** Overwriting a field's bytes is updating the field. */
  lemma {:induction false} EncodeUpdate(cs: seq<Cell>, k: nat, v: nat)
    requires k < |cs|
    ensures Offset(cs, k) + cs[k].width <= |Encode(cs)|
    ensures Splice(Encode(cs), Offset(cs, k), LE(v, cs[k].width)) == Encode(cs[k := cs[k].(value := v)])
  {
    var n := |cs| - 1;
    var front := cs[..n];
    var w, t, last := cs[k].width, LE(v, cs[k].width), LE(cs[n].value, cs[n].width);
    EncodeLength(front);
    OffsetPrefix(cs, n, k);
    var cs' := cs[k := cs[k].(value := v)];
    if k < n {
      EncodeUpdate(front, k, v);
      assert cs'[..n] == front[k := front[k].(value := v)];
      SpliceFront(Encode(front), last, Offset(cs, k), t);
    } else {
      assert cs'[..n] == front;
      assert Splice(Encode(front) + last, |Encode(front)|, t) == Encode(front) + t;
    }
  }

  lemma {:induction false} SpliceFront(s: seq<byte>, u: seq<byte>, at: nat, t: seq<byte>)
    requires at + |t| <= |s|
    ensures Splice(s + u, at, t) == Splice(s, at, t) + u
  {
  }

  lemma {:induction false} SpliceBack(s: seq<byte>, u: seq<byte>, at: nat, t: seq<byte>)
    requires at + |t| <= |u|
    ensures Splice(s + u, |s| + at, t) == s + Splice(u, at, t)
  {
  }

  lemma {:induction false} SpliceAppend(s: seq<byte>, at: nat, t: seq<byte>, u: seq<byte>)
    requires at + |t| + |u| <= |s|
    ensures Splice(Splice(s, at, t), at + |t|, u) == Splice(s, at, t + u)
  {
  }

  /** ptool.py UpdatePrimaryGPT and UpdateBackupGPT. */
  method PutField(a: array<byte>, value: nat, length: nat, at: nat) returns (i: nat)
    requires at + length <= a.Length
    modifies a
    ensures i == at + length
    ensures a[..] == Splice(old(a[..]), at, LE(value, length))
  {
    hide Splice;
    i := at;
    var rest := value;
    ghost var target := Splice(a[..], at, LE(value, length));
    for b := 0 to length
      invariant i == at + b
      invariant Splice(a[..], i, LE(rest, length - b)) == target
    {
      SpliceCons(a[..], i, rest % 256, LE(rest / 256, length - b - 1));
      ghost var before := a[..];
      a[i] := rest % 256;
      assert a[..] == before[i := rest % 256];
      rest := rest / 256;
      i := i + 1;
    }
    SpliceEmpty(a[..], i);
  }

  /** A run of field writes, as the tool's straight-line sequences of UpdatePrimaryGPT calls. */
  method PutFields(a: array<byte>, cs: seq<Cell>, at: nat) returns (i: nat)
    requires at + |Encode(cs)| <= a.Length
    modifies a
    ensures i == at + |Encode(cs)|
    ensures a[..] == Splice(old(a[..]), at, Encode(cs))
  {
    i := at;
    SpliceEmpty(a[..], at);
    EncodeLength(cs);
    for k := 0 to |cs|
      invariant i == at + Offset(cs, k) && i <= a.Length
      invariant |Encode(cs[..k])| == Offset(cs, k)
      invariant a[..] == Splice(old(a[..]), at, Encode(cs[..k]))
    {
      hide Splice;
      OffsetMonotone(cs, k + 1, |cs|);
      assert cs[..k + 1][..k] == cs[..k];
      EncodeLength(cs[..k + 1]);
      OffsetPrefix(cs, k + 1, k + 1);
      SpliceAppend(old(a[..]), at, Encode(cs[..k]), LE(cs[k].value, cs[k].width));
      i := PutField(a, cs[k].value, cs[k].width, i);
    }
    assert cs[..|cs|] == cs;
  }
}
