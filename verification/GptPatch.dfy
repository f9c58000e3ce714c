/** The patch program ptool.py emits for a GPT disk, and what msp.py leaves after running it. */
module GptPatch {
  import opened Options
  import opened Bytes
  import opened Crc
  import opened Gpt
  import opened Patching

  // ----- the emitted program, DISK patches in order -----

  /** Size of the last partition, in both entry arrays, when `n` partitions are listed. */
  function LastPatches(n: nat): seq<Patch>
    requires 1 <= n <= 128
  {
    var at := 40 + (n - 1) * ENTRY;
    [Patch(Lit(2 + at / 512), at % 512, 8, Number(DiskMinus(34))),
     Patch(DiskMinus(33 - at / 512), at % 512, 8, Number(DiskMinus(34)))]
  }

  function FieldPatches(): seq<Patch> {
    [Patch(Lit(1), 48, 8, Number(DiskMinus(34))),
     Patch(DiskMinus(1), 48, 8, Number(DiskMinus(34))),
     Patch(Lit(1), 32, 8, Number(DiskMinus(1))),
     Patch(DiskMinus(1), 24, 8, Number(DiskMinus(1))),
     Patch(DiskMinus(1), 72, 8, Number(DiskMinus(33)))]
  }

  function ArrayCrcPatches(len: nat): seq<Patch> {
    [Patch(Lit(1), 88, 4, Checksum(Lit(2), len)),
     Patch(DiskMinus(1), 88, 4, Checksum(DiskMinus(33), len))]
  }

  function SealPatches(): seq<Patch> {
    [Patch(Lit(1), 16, 4, Number(Lit(0))),
     Patch(Lit(1), 16, 4, Checksum(Lit(1), HEADER)),
     Patch(DiskMinus(1), 16, 4, Number(Lit(0))),
     Patch(DiskMinus(1), 16, 4, Checksum(DiskMinus(1), HEADER))]
  }

  function GptPatches(n: nat, grow: bool, len: nat): seq<Patch>
    requires n <= 128
  {
    (if grow && n > 0 then LastPatches(n) else []) + FieldPatches() + ArrayCrcPatches(len) + SealPatches()
  }

  // ----- the parts of a GPT disk of `n` sectors -----

  /** Boot sector, primary header, primary array, partitions, backup array, backup header. */
  datatype Parts = Parts(boot: seq<byte>, h1: seq<byte>, a1: seq<byte>, data: seq<byte>, a2: seq<byte>, h2: seq<byte>)

  ghost predicate DiskOf(d: seq<byte>, n: nat) {
    n >= 67 && |d| == n * 512
  }

  function View(d: seq<byte>, n: nat): Parts
    requires n >= 67 && |d| == n * 512
  {
    Parts(d[0..512], d[512..1024], d[1024..17408], d[17408..(n - 33) * 512], d[(n - 33) * 512..(n - 1) * 512],
        d[(n - 1) * 512..n * 512])
  }

  /** Header and entry arrays as values. */
  datatype Tables = Tables(h1: Header, c1: nat, es1: seq<Entry>, h2: Header, c2: nat, es2: seq<Entry>)

  function Render(t: Tables, boot: seq<byte>, data: seq<byte>): Parts
    requires |t.es1| <= 128 && |t.es2| <= 128
  {
    Parts(boot, HeaderSector(t.h1, t.c1), ArrayBytes(t.es1), data, ArrayBytes(t.es2), HeaderSector(t.h2, t.c2))
  }

  lemma {:induction false} SpliceH1(d: seq<byte>, n: nat, off: nat, t: seq<byte>)
    requires DiskOf(d, n) && off + |t| <= 512
    ensures View(Splice(d, 512 + off, t), n) == View(d, n).(h1 := Splice(View(d, n).h1, off, t))
  {
    hide Splice;
    var at := 512 + off;
    SpliceInside(d, at, t, 512, 1024);
    SpliceDisjoint(d, at, t, 0, 512);
    SpliceDisjoint(d, at, t, 1024, 17408);
    SpliceDisjoint(d, at, t, 17408, (n - 33) * 512);
    SpliceDisjoint(d, at, t, (n - 33) * 512, (n - 1) * 512);
    SpliceDisjoint(d, at, t, (n - 1) * 512, n * 512);
  }

  lemma {:induction false} SpliceA1(d: seq<byte>, n: nat, off: nat, t: seq<byte>)
    requires DiskOf(d, n) && off + |t| <= 16384
    ensures View(Splice(d, 1024 + off, t), n) == View(d, n).(a1 := Splice(View(d, n).a1, off, t))
  {
    hide Splice;
    var at := 1024 + off;
    SpliceInside(d, at, t, 1024, 17408);
    SpliceDisjoint(d, at, t, 0, 512);
    SpliceDisjoint(d, at, t, 512, 1024);
    SpliceDisjoint(d, at, t, 17408, (n - 33) * 512);
    SpliceDisjoint(d, at, t, (n - 33) * 512, (n - 1) * 512);
    SpliceDisjoint(d, at, t, (n - 1) * 512, n * 512);
  }

  lemma {:induction false} SpliceA2(d: seq<byte>, n: nat, off: nat, t: seq<byte>)
    requires DiskOf(d, n) && off + |t| <= 16384
    ensures View(Splice(d, (n - 33) * 512 + off, t), n) == View(d, n).(a2 := Splice(View(d, n).a2, off, t))
  {
    hide Splice;
    var at := (n - 33) * 512 + off;
    SpliceInside(d, at, t, (n - 33) * 512, (n - 1) * 512);
    SpliceDisjoint(d, at, t, 0, 512);
    SpliceDisjoint(d, at, t, 512, 1024);
    SpliceDisjoint(d, at, t, 1024, 17408);
    SpliceDisjoint(d, at, t, 17408, (n - 33) * 512);
    SpliceDisjoint(d, at, t, (n - 1) * 512, n * 512);
  }

  lemma {:induction false} SpliceH2(d: seq<byte>, n: nat, off: nat, t: seq<byte>)
    requires DiskOf(d, n) && off + |t| <= 512
    ensures View(Splice(d, (n - 1) * 512 + off, t), n) == View(d, n).(h2 := Splice(View(d, n).h2, off, t))
  {
    hide Splice;
    var at := (n - 1) * 512 + off;
    SpliceInside(d, at, t, (n - 1) * 512, n * 512);
    SpliceDisjoint(d, at, t, 0, 512);
    SpliceDisjoint(d, at, t, 512, 1024);
    SpliceDisjoint(d, at, t, 1024, 17408);
    SpliceDisjoint(d, at, t, 17408, (n - 33) * 512);
    SpliceDisjoint(d, at, t, (n - 33) * 512, (n - 1) * 512);
  }

  // ----- single patches -----

  lemma {:induction false} ApplyInPlace(d: seq<byte>, n: nat, p: Patch, v: nat)
    requires DiskOf(d, n) && p.size > 0 && p.offset + p.size <= 512
    requires 1 <= Resolve(p.sector, n) < n && PatchValue(d, p.value) == Some(v)
    ensures Apply(d, p) == Some(Splice(d, Resolve(p.sector, n) * 512 + p.offset, LE(v, p.size)))
  {
    hide PatchValue, LE, Splice;
  }

  lemma {:induction false} PatchH1(d: seq<byte>, n: nat, p: Patch, v: nat) returns (d': seq<byte>)
    requires DiskOf(d, n) && p.size > 0 && p.offset + p.size <= 512
    requires p.sector == Lit(1) && PatchValue(d, p.value) == Some(v)
    ensures Apply(d, p) == Some(d') && DiskOf(d', n)
    ensures View(d', n) == View(d, n).(h1 := Splice(View(d, n).h1, p.offset, LE(v, p.size)))
  {
    hide PatchValue, LE, Splice, View, Apply;
    ApplyInPlace(d, n, p, v);
    SpliceH1(d, n, p.offset, LE(v, p.size));
    d' := Apply(d, p).value;
  }

  lemma {:induction false} PatchH2(d: seq<byte>, n: nat, p: Patch, v: nat) returns (d': seq<byte>)
    requires DiskOf(d, n) && p.size > 0 && p.offset + p.size <= 512
    requires p.sector == DiskMinus(1) && PatchValue(d, p.value) == Some(v)
    ensures Apply(d, p) == Some(d') && DiskOf(d', n)
    ensures View(d', n) == View(d, n).(h2 := Splice(View(d, n).h2, p.offset, LE(v, p.size)))
  {
    hide PatchValue, LE, Splice, View, Apply;
    ApplyInPlace(d, n, p, v);
    SpliceH2(d, n, p.offset, LE(v, p.size));
    d' := Apply(d, p).value;
  }

  /** The four checksums of the program read the parts they are meant for, through either read path. */
  lemma {:induction false} ChecksumParts(d: seq<byte>, n: nat, len: nat)
    requires DiskOf(d, n) && len <= 16384
    ensures PatchValue(d, Checksum(Lit(2), len)) == Some(Crc32(View(d, n).a1[..len]))
    ensures PatchValue(d, Checksum(DiskMinus(33), len)) == Some(Crc32(View(d, n).a2[..len]))
    ensures PatchValue(d, Checksum(Lit(1), HEADER)) == Some(Crc32(View(d, n).h1[..HEADER]))
    ensures PatchValue(d, Checksum(DiskMinus(1), HEADER)) == Some(Crc32(View(d, n).h2[..HEADER]))
  {
    hide Crc32;
    assert d[1024..1024 + len] == View(d, n).a1[..len];
    assert d[(n - 33) * 512..(n - 33) * 512 + len] == View(d, n).a2[..len];
    assert d[512..512 + HEADER] == View(d, n).h1[..HEADER];
    assert d[(n - 1) * 512..(n - 1) * 512 + HEADER] == View(d, n).h2[..HEADER];
    assert len == 0 ==> View(d, n).a1[..len] == [] && View(d, n).a2[..len] == [];
  }

  // ----- running lists -----

  /** Runs from the front. */
  lemma {:induction false} RunCons(d: seq<byte>, ps: seq<Patch>)
    requires ps != []
    ensures Run(d, ps) == if Apply(d, ps[0]).None? then None else Run(Apply(d, ps[0]).value, ps[1..])
  {
    hide Apply;
    var n := |ps| - 1;
    if n > 0 {
      RunCons(d, ps[..n]);
      assert ps[..n][1..] == ps[1..][..n - 1];
    } else {
      assert ps[..0] == [] && ps[1..] == [];
    }
  }

  lemma {:induction false} RunAppend(d: seq<byte>, ps: seq<Patch>, qs: seq<Patch>)
    ensures Run(d, ps + qs) == if Run(d, ps).None? then None else Run(Run(d, ps).value, qs)
  {
    hide Apply;
    if qs == [] {
      assert ps + qs == ps;
    } else {
      var m := |qs| - 1;
      assert (ps + qs)[..|ps + qs| - 1] == ps + qs[..m];
      RunAppend(d, ps, qs[..m]);
    }
  }

  // ----- the program -----

  ghost predicate Shows(d: seq<byte>, n: nat, t: Tables, boot: seq<byte>, data: seq<byte>) {
    && DiskOf(d, n) && |t.es1| <= 128 && |t.es2| <= 128
    && View(d, n) == Render(t, boot, data)
  }

  lemma {:induction false} RunLast(d: seq<byte>, n: nat, t: Tables, boot: seq<byte>,
                                   data: seq<byte>) returns (d': seq<byte>)
    requires Shows(d, n, t, boot, data) && 1 <= |t.es1| == |t.es2|
    ensures Run(d, LastPatches(|t.es1|)) == Some(d')
    ensures Shows(d', n, t.(es1 := WithLast(t.es1, n - 34), es2 := WithLast(t.es2, n - 34)), boot, data)
  {
    hide LE, Splice, Apply, View, ArrayBytes, HeaderSector;
    var ps := LastPatches(|t.es1|);
    var at := 40 + (|t.es1| - 1) * ENTRY;
    ApplyInPlace(d, n, ps[0], n - 34);
    SpliceA1(d, n, at, LE(n - 34, 8));
    ArrayPatch(t.es1, n - 34);
    var d1 := Apply(d, ps[0]).value;
    assert Shows(d1, n, t.(es1 := WithLast(t.es1, n - 34)), boot, data);
    ApplyInPlace(d1, n, ps[1], n - 34);
    SpliceA2(d1, n, at, LE(n - 34, 8));
    ArrayPatch(t.es2, n - 34);
    d' := Apply(d1, ps[1]).value;
    RunTwo(d, ps);
  }

  lemma {:induction false} RunTwo(d: seq<byte>, ps: seq<Patch>)
    requires |ps| == 2 && Apply(d, ps[0]).Some?
    ensures Run(d, ps) == Apply(Apply(d, ps[0]).value, ps[1])
  {
    hide Apply;
    RunCons(d, ps);
    RunCons(Apply(d, ps[0]).value, ps[1..]);
  }

  lemma {:induction false} RunFields(d: seq<byte>, n: nat, t: Tables, boot: seq<byte>,
                                     data: seq<byte>) returns (d': seq<byte>)
    requires Shows(d, n, t, boot, data)
    ensures Run(d, FieldPatches()) == Some(d')
    ensures Shows(d', n, t.(h1 := t.h1.(lastUsable := n - 34, alternate := n - 1),
                            h2 := t.h2.(lastUsable := n - 34, my := n - 1, entries := n - 33)), boot, data)
  {
    hide LE, Splice, Apply, View, ArrayBytes, HeaderSector;
    var ps := FieldPatches();
    var d1 := PatchH1(d, n, ps[0], n - 34);
    PatchLastUsable(t.h1, t.c1, n - 34);
    var d2 := PatchH2(d1, n, ps[1], n - 34);
    PatchLastUsable(t.h2, t.c2, n - 34);
    var d3 := PatchH1(d2, n, ps[2], n - 1);
    PatchAlternate(t.h1.(lastUsable := n - 34), t.c1, n - 1);
    var d4 := PatchH2(d3, n, ps[3], n - 1);
    PatchMy(t.h2.(lastUsable := n - 34), t.c2, n - 1);
    d' := PatchH2(d4, n, ps[4], n - 33);
    PatchEntries(t.h2.(lastUsable := n - 34, my := n - 1), t.c2, n - 33);
    RunCons(d, ps);
    RunCons(d1, ps[1..]);
    RunCons(d2, ps[1..][1..]);
    RunCons(d3, ps[1..][1..][1..]);
    RunCons(d4, ps[1..][1..][1..][1..]);
  }

  lemma {:induction false} RunArrayCrc(d: seq<byte>, n: nat, t: Tables, boot: seq<byte>, data: seq<byte>,
                                       len: nat) returns (d': seq<byte>)
    requires Shows(d, n, t, boot, data) && len <= ARRAY
    ensures Run(d, ArrayCrcPatches(len)) == Some(d')
    ensures Shows(d', n, t.(h1 := t.h1.(arrayCrc := Crc32(ArrayBytes(t.es1)[..len])),
                            h2 := t.h2.(arrayCrc := Crc32(ArrayBytes(t.es2)[..len]))), boot, data)
  {
    hide LE, Splice, Apply, View, ArrayBytes, HeaderSector, Crc32, PatchValue;
    var ps := ArrayCrcPatches(len);
    var v1, v2 := Crc32(ArrayBytes(t.es1)[..len]), Crc32(ArrayBytes(t.es2)[..len]);
    ChecksumParts(d, n, len);
    var d1 := PatchH1(d, n, ps[0], v1);
    PatchArrayCrc(t.h1, t.c1, v1);
    ChecksumParts(d1, n, len);
    d' := PatchH2(d1, n, ps[1], v2);
    PatchArrayCrc(t.h2, t.c2, v2);
    RunTwo(d, ps);
  }

  lemma {:induction false} RunSeal(d: seq<byte>, n: nat, t: Tables, boot: seq<byte>,
                                   data: seq<byte>) returns (d': seq<byte>)
    requires Shows(d, n, t, boot, data)
    ensures Run(d, SealPatches()) == Some(d')
    ensures Shows(d', n, t.(c1 := HeaderCrc(t.h1), c2 := HeaderCrc(t.h2)), boot, data)
  {
    hide LE, Splice, Apply, View, ArrayBytes, HeaderSector, Crc32, PatchValue;
    var ps := SealPatches();
    assert PatchValue(d, Number(Lit(0))) == Some(0) by { PlainZero(d); }
    var d1 := PatchH1(d, n, ps[0], 0);
    PatchCrc(t.h1, t.c1, 0);
    ChecksumParts(d1, n, 0);
    ZeroedPrefix(t.h1);
    var d2 := PatchH1(d1, n, ps[1], HeaderCrc(t.h1));
    PatchCrc(t.h1, 0, HeaderCrc(t.h1));
    PlainZero(d2);
    var d3 := PatchH2(d2, n, ps[2], 0);
    PatchCrc(t.h2, t.c2, 0);
    ChecksumParts(d3, n, 0);
    ZeroedPrefix(t.h2);
    d' := PatchH2(d3, n, ps[3], HeaderCrc(t.h2));
    PatchCrc(t.h2, 0, HeaderCrc(t.h2));
    RunCons(d, ps);
    RunCons(d1, ps[1..]);
    RunCons(d2, ps[1..][1..]);
    RunCons(d3, ps[1..][1..][1..]);
  }

  lemma {:induction false} PlainZero(d: seq<byte>)
    ensures PatchValue(d, Number(Lit(0))) == Some(0)
  {
  }
}
