/** From a planned layout to a disk with valid partition tables: ptool.py builds the images, msp.py
    writes and patches them. */
module GptBuild {
  import opened Options
  import opened Bytes
  import opened Crc
  import opened Record
  import opened Gpt
  import opened Patching
  import opened GptPatch

  /** The tables as built, before the size of the disk is known. */
  function BuiltTables(es: seq<Entry>, num: nat): Tables
    requires |es| <= 128 && num <= 128
  {
    var crc := Crc32(ArrayBytes(es)[..num * ENTRY]);
    var h1 := Header(1, 0, 0, 2, num, crc);
    var h2 := Header(0, 1, 0, 0, num, crc);
    Tables(h1, HeaderCrc(h1), es, h2, HeaderCrc(h2), es)
  }

  /** How many entries the header announces. */
  function NumEntries(count: nat, force128: bool): (num: nat)
    ensures count <= 128 ==> count <= num <= 128
    ensures !force128 ==> num % 4 == 0 && num < count + 4
  {
    if force128 then 128
    else if count % 4 > 0 then 4 * (count / 4) + 4 else 4 * (count / 4)
  }

  function Finished(es: seq<Entry>, n: nat, grow: bool): (r: seq<Entry>)
    requires n >= 34
    ensures |r| == |es|
  {
    if grow && es != [] then WithLast(es, n - 34) else es
  }

  /** Running the emitted patches on a freshly written disk leaves two valid, agreeing partition tables
      and nothing else changed. */
  lemma {:induction false} PatchedDiskIsValid(d: seq<byte>, n: nat, es: seq<Entry>, num: nat, grow: bool,
                                              boot: seq<byte>, data: seq<byte>)
    returns (d': seq<byte>)
    requires |es| <= num <= 128 && n * SECTOR < 0x1_0000_0000_0000_0000
    requires Shows(d, n, BuiltTables(es, num), boot, data)
    ensures Run(d, GptPatches(|es|, grow, num * ENTRY)) == Some(d')
    ensures |d'| == n * SECTOR
    ensures ValidHeader(d', 1, n - 1, 2, n - 34, num)
    ensures ValidHeader(d', n - 1, 1, n - 33, n - 34, num)
    ensures d'[1024..17408] == d'[(n - 33) * SECTOR..(n - 1) * SECTOR] == ArrayBytes(Finished(es, n, grow))
    ensures d'[0..512] == boot && d'[17408..(n - 33) * SECTOR] == data
  {
    hide LE, Splice, Apply, View, ArrayBytes, HeaderSector, Crc32, Run;
    var t, len := BuiltTables(es, num), num * ENTRY;
    var last := if grow && |es| > 0 then LastPatches(|es|) else [];
    var fs, as_, ss := FieldPatches(), ArrayCrcPatches(len), SealPatches();
    var d1 := d;
    if grow && |es| > 0 {
      d1 := RunLast(d, n, t, boot, data);
    } else {
      RunNothing(d);
    }
    var es' := Finished(es, n, grow);
    var t1 := t.(es1 := es', es2 := es');
    var d2 := RunFields(d1, n, t1, boot, data);
    var t2 := t1.(h1 := t.h1.(lastUsable := n - 34, alternate := n - 1),
        h2 := t.h2.(lastUsable := n - 34, my := n - 1, entries := n - 33));
    var d3 := RunArrayCrc(d2, n, t2, boot, data, len);
    var crc := Crc32(ArrayBytes(es')[..len]);
    var t3 := t2.(h1 := t2.h1.(arrayCrc := crc), h2 := t2.h2.(arrayCrc := crc));
    d' := RunSeal(d3, n, t3, boot, data);
    RunAppend(d, last, fs);
    RunAppend(d, last + fs, as_);
    RunAppend(d, last + fs + as_, ss);
    Conclude(d', n, t3, boot, data);
  }

  lemma {:induction false} RunNothing(d: seq<byte>)
    ensures Run(d, []) == Some(d)
  {
  }

  lemma {:induction false} Conclude(d: seq<byte>, n: nat, t: Tables, boot: seq<byte>, data: seq<byte>)
    requires Shows(d, n, t.(c1 := HeaderCrc(t.h1), c2 := HeaderCrc(t.h2)), boot, data)
    requires t.es1 == t.es2 && t.h1.num == t.h2.num <= 128 && n * SECTOR < 0x1_0000_0000_0000_0000
    requires t.h1 == Header(1, n - 1, n - 34, 2, t.h1.num, Crc32(ArrayBytes(t.es1)[..t.h1.num * ENTRY]))
    requires t.h2 == Header(n - 1, 1, n - 34, n - 33, t.h1.num, Crc32(ArrayBytes(t.es1)[..t.h1.num * ENTRY]))
    ensures ValidHeader(d, 1, n - 1, 2, n - 34, t.h1.num)
    ensures ValidHeader(d, n - 1, 1, n - 33, n - 34, t.h1.num)
    ensures d[1024..17408] == d[(n - 33) * SECTOR..(n - 1) * SECTOR] == ArrayBytes(t.es1)
    ensures d[0..512] == boot && d[17408..(n - 33) * SECTOR] == data
  {
    hide ArrayBytes, HeaderSector, Crc32, ValidHeader;
    var len := t.h1.num * ENTRY;
    Prefix(d, 1024, 17408, len);
    Prefix(d, (n - 33) * SECTOR, (n - 1) * SECTOR, len);
    SealedIsValid(d, t.h1);
    SealedIsValid(d, t.h2);
  }

  lemma {:induction false} Prefix(d: seq<byte>, lo: nat, hi: nat, len: nat)
    requires lo + len <= hi <= |d|
    ensures d[lo..hi][..len] == d[lo..lo + len]
  {
  }

  // ----- reading partitions back -----

  function FirstLba(a: seq<byte>, k: nat): nat
    requires ENTRY * k + ENTRY <= |a|
  {
    FromLE(a[ENTRY * k + 32..ENTRY * k + 40])
  }

  function LastLba(a: seq<byte>, k: nat): nat
    requires ENTRY * k + ENTRY <= |a|
  {
    FromLE(a[ENTRY * k + 40..ENTRY * k + 48])
  }

  /** The entry array gives back the sectors it was built from. */
  lemma {:induction false} ArrayRead(es: seq<Entry>, k: nat)
    requires |es| <= 128 && k < |es|
    requires es[k].first < 0x1_0000_0000_0000_0000 && es[k].last < 0x1_0000_0000_0000_0000
    ensures FirstLba(ArrayBytes(es), k) == es[k].first
    ensures LastLba(ArrayBytes(es), k) == es[k].last
  {
    hide LE, FromLE, Encode, Table, EntryCells, EntryBytes;
    var a, b := ArrayBytes(es), EntryBytes(es[k]);
    TableSlot(es, k);
    assert a[ENTRY * k..ENTRY * k + ENTRY] == b;
    SliceOfSlice(a, ENTRY * k, ENTRY * k + ENTRY, 32, 40);
    SliceOfSlice(a, ENTRY * k, ENTRY * k + ENTRY, 40, 48);
    EntryRead(es[k]);
    FieldValue(es[k].first, 8);
    FieldValue(es[k].last, 8);
  }

  lemma {:induction false} EntryRead(e: Entry)
    ensures EntryBytes(e)[32..40] == LE(e.first, 8) && EntryBytes(e)[40..48] == LE(e.last, 8)
  {
    EntryOffsets(e);
    EncodeRead(EntryCells(e), 2);
    EncodeRead(EntryCells(e), 3);
  }

  // ----- building the images -----

  /** The end of the boot sector: disk signature, most significant byte first, and the protective partition. */
  function BootCells(signature: nat): (cs: seq<Cell>)
    ensures |cs| == 13
  {
    [Cell(1, signature / 0x100_0000), Cell(1, signature / 0x1_0000), Cell(1, signature / 0x100), Cell(1, signature),
        Cell(2, 0),
     Cell(4, 0x10000), Cell(1, 0xEE), Cell(3, 0xFFFFFF), Cell(4, 1), Cell(4, 0xFFFFFFFF), Cell(24, 0), Cell(24, 0),
         Cell(2, 0xAA55)]
  }

  lemma {:induction false} BootOffsets(signature: nat)
    ensures var cs := BootCells(signature);
            Offset(cs, 6) == 10 && Offset(cs, 8) == 14 && Offset(cs, 9) == 18 && Offset(cs, 12) == 70 &&
                |Encode(cs)| == 72
  {
    var cs := BootCells(signature);
    EncodeLength(cs);
    assert Offset(cs, 1) == 1;
    assert Offset(cs, 2) == 2;
    assert Offset(cs, 3) == 3;
    assert Offset(cs, 4) == 4;
    assert Offset(cs, 5) == 6;
    assert Offset(cs, 6) == 10;
    assert Offset(cs, 7) == 11;
    assert Offset(cs, 8) == 14;
    assert Offset(cs, 9) == 18;
    assert Offset(cs, 10) == 22;
    assert Offset(cs, 11) == 46;
    assert Offset(cs, 12) == 70;
  }

  function Boot(signature: nat): (s: seq<byte>)
    ensures |s| == SECTOR
  {
    BootOffsets(signature);
    ZeroBytes(440) + Encode(BootCells(signature))
  }

  /** The boot sector byte by byte: the disk signature from its most significant byte, one partition of type 0xEE from
      sector 1 over the largest size, and the magic. */
  lemma {:induction false} BootProtects(signature: nat)
    ensures var s := Boot(signature);
            && (forall i :: 0 <= i < 440 ==> s[i] == 0)
            && s[440..446] == [signature / 0x100_0000 % 256, signature / 0x1_0000 % 256, signature / 0x100 % 256,
                               signature % 256, 0, 0]
            && s[446..462] == [0, 0, 1, 0, 0xEE, 0xFF, 0xFF, 0xFF, 1, 0, 0, 0, 0xFF, 0xFF, 0xFF, 0xFF]
            && (forall i :: 462 <= i < 510 ==> s[i] == 0)
            && s[510..512] == [0x55, 0xAA]
  {
    hide Encode;
    BootEncoded(signature);
    BootOffsets(signature);
  }

  lemma {:induction false} BootEncoded(signature: nat)
    ensures Encode(BootCells(signature))
         == [signature / 0x100_0000 % 256, signature / 0x1_0000 % 256, signature / 0x100 % 256, signature % 256, 0, 0]
            + [0, 0, 1, 0, 0xEE, 0xFF, 0xFF, 0xFF, 1, 0, 0, 0, 0xFF, 0xFF, 0xFF, 0xFF] + ZeroBytes(48) + [0x55, 0xAA]
  {
    hide LE, Encode;
    var cs := BootCells(signature);
    BootStart(signature);
    BootMiddle(signature);
    BootEnd(signature);
    assert cs[..13] == cs;
  }

  /** One cell more. */
  lemma {:induction false} EncodeNext(cs: seq<Cell>, k: nat, c: Cell)
    requires k < |cs| && cs[k] == c
    ensures Encode(cs[..k + 1]) == Encode(cs[..k]) + LE(c.value, c.width)
  {
    hide LE;
    assert cs[..k + 1][..k] == cs[..k];
  }

  lemma {:induction false} BootStart(signature: nat)
    ensures Encode(BootCells(signature)[..5])
         == [signature / 0x100_0000 % 256, signature / 0x1_0000 % 256, signature / 0x100 % 256, signature % 256, 0, 0]
  {
    hide LE, Encode;
    var cs := BootCells(signature);
    NoCells(cs);
    EncodeNext(cs, 0, Cell(1, signature / 0x100_0000));
    EncodeNext(cs, 1, Cell(1, signature / 0x1_0000));
    EncodeNext(cs, 2, Cell(1, signature / 0x100));
    EncodeNext(cs, 3, Cell(1, signature));
    EncodeNext(cs, 4, Cell(2, 0));
    OneByte(signature / 0x100_0000);
    OneByte(signature / 0x1_0000);
    OneByte(signature / 0x100);
    OneByte(signature);
    LEZero();
    LEStep(0, 1, 0, 0);
    LEStep(0, 2, 0, 0);
  }

  lemma {:induction false} NoCells(cs: seq<Cell>)
    ensures Encode(cs[..0]) == []
  {
  }

  lemma {:induction false} OneByte(v: nat)
    ensures LE(v, 1) == [v % 256]
  {
    assert LE(v / 256, 0) == [];
  }

  lemma {:induction false} BootMiddle(signature: nat)
    ensures Encode(BootCells(signature)[..10])
         == Encode(BootCells(signature)[..5])
            + [0, 0, 1, 0, 0xEE, 0xFF, 0xFF, 0xFF, 1, 0, 0, 0, 0xFF, 0xFF, 0xFF, 0xFF]
  {
    hide LE, Encode;
    var cs := BootCells(signature);
    EncodeNext(cs, 5, Cell(4, 0x10000));
    EncodeNext(cs, 6, Cell(1, 0xEE));
    EncodeNext(cs, 7, Cell(3, 0xFFFFFF));
    EncodeNext(cs, 8, Cell(4, 1));
    EncodeNext(cs, 9, Cell(4, 0xFFFFFFFF));
    SmallFields();
    FullFields();
    OneByte(0xEE);
  }

  lemma {:induction false} SmallFields()
    ensures LE(0x10000, 4) == [0, 0, 1, 0] && LE(1, 4) == [1, 0, 0, 0]
  {
    hide LE;
    LEZero();
    LEStep(0x10000, 4, 0, 0x100);
    LEStep(0x100, 3, 0, 1);
    LEStep(1, 2, 1, 0);
    LEStep(0, 1, 0, 0);
    LEStep(1, 4, 1, 0);
    LEStep(0, 3, 0, 0);
    LEStep(0, 2, 0, 0);
  }

  lemma {:induction false} FullFields()
    ensures LE(0xFFFFFF, 3) == [0xFF, 0xFF, 0xFF] && LE(0xFFFFFFFF, 4) == [0xFF, 0xFF, 0xFF, 0xFF]
  {
    hide LE;
    OneByte(0xFF);
    LEStep(0xFFFFFFFF, 4, 0xFF, 0xFFFFFF);
    LEStep(0xFFFFFF, 3, 0xFF, 0xFFFF);
    LEStep(0xFFFF, 2, 0xFF, 0xFF);
  }

  lemma {:induction false} BootEnd(signature: nat)
    ensures Encode(BootCells(signature)[..13]) == Encode(BootCells(signature)[..10]) + ZeroBytes(48) + [0x55, 0xAA]
  {
    hide LE, Encode;
    var cs := BootCells(signature);
    EncodeNext(cs, 10, Cell(24, 0));
    EncodeNext(cs, 11, Cell(24, 0));
    EncodeNext(cs, 12, Cell(2, 0xAA55));
    LEOfZero(24);
    assert ZeroBytes(24) + ZeroBytes(24) == ZeroBytes(48);
    LEStep(0xAA55, 2, 0x55, 0xAA);
    OneByte(0xAA);
  }

  lemma {:induction false} LEOfZero(n: nat)
    ensures LE(0, n) == ZeroBytes(n)
    decreases n
  {
    if n > 0 {
      LEOfZero(n - 1);
    }
  }

  /** The image files: gpt_main is a boot sector, the header and the array; gpt_backup the array and the header. */
  method BuildImages(es: seq<Entry>, num: nat, signature: nat) returns (primary: array<byte>, backup: array<byte>)
    requires |es| <= 128 && num <= 128
    ensures fresh(primary) && fresh(backup)
    ensures var t := BuiltTables(es, num);
            && primary[..] == Boot(signature) + HeaderSector(t.h1, t.c1) + ArrayBytes(es)
            && backup[..] == ArrayBytes(es) + HeaderSector(t.h2, t.c2)
  {
    hide LE, Splice, Encode, HeaderSector, ArrayBytes, Crc32, Table, Boot;
    ghost var a := ArrayBytes(es);
    primary := BuildArray(es);
    var arrayCrc := CalcCRC32(primary[1024..], num * ENTRY);
    assert primary[1024..] == a;
    var h1 := Header(1, 0, 0, 2, num, arrayCrc);
    var _ := PutHeader(primary, h1, a);
    var crc := CalcCRC32(primary[SECTOR..], HEADER);
    ZeroedPrefix(h1);
    assert primary[SECTOR..][..HEADER] == HeaderSector(h1, 0)[..HEADER];
    PatchCrc(h1, 0, crc);
    SpliceMiddle(ZeroBytes(SECTOR), HeaderSector(h1, 0), a, 16, LE(crc, 4));
    var _ := PutField(primary, crc, 4, SECTOR + 16);

    backup := CopyBackup(primary, HeaderSector(h1, crc), a);
    FixBackup(backup, a, h1, crc);
    PutBoot(primary, signature, HeaderSector(h1, crc) + a);
    assert Boot(signature) + (HeaderSector(h1, crc) + a) == Boot(signature) + HeaderSector(h1, crc) + a;
  }

  /** The entry array of the primary image, then its header. */
  method CopyBackup(primary: array<byte>, ghost h: seq<byte>, ghost a: seq<byte>) returns (backup: array<byte>)
    requires |h| == SECTOR && |a| == ARRAY && primary[..] == ZeroBytes(SECTOR) + h + a
    ensures fresh(backup) && backup[..] == a + h
    ensures primary[..] == ZeroBytes(SECTOR) + (h + a)
  {
    backup := new byte[33 * SECTOR](_ => 0xFF);
    forall k | 0 <= k < 32 * SECTOR {
      backup[k] := primary[2 * SECTOR + k];
    }
    forall k | 32 * SECTOR <= k < 33 * SECTOR {
      backup[k] := primary[k - 31 * SECTOR];
    }
    assert backup[..] == a + h;
  }

  /** The protective MBR. */
  method PutBoot(primary: array<byte>, signature: nat, ghost rest: seq<byte>)
    requires primary[..] == ZeroBytes(SECTOR) + rest
    modifies primary
    ensures primary[..] == Boot(signature) + rest
  {
    hide LE, Encode;
    BootOffsets(signature);
    ghost var e := Encode(BootCells(signature));
    SpliceMiddle([], ZeroBytes(SECTOR), rest, 440, e);
    assert [] + ZeroBytes(SECTOR) + rest == ZeroBytes(SECTOR) + rest;
    assert Splice(ZeroBytes(SECTOR), 440, e) == Boot(signature);
    assert [] + Boot(signature) + rest == Boot(signature) + rest;
    var _ := PutFields(primary, BootCells(signature), 440);
  }

  /** The primary image with the first `j` entries in place. */
  ghost function Partial(es: seq<Entry>, j: nat): (s: seq<byte>)
    requires j <= |es| <= 128
    ensures |s| == 34 * SECTOR
  {
    ZeroBytes(1024) + Table(es[..j]) + ZeroBytes(ARRAY - ENTRY * j)
  }

  lemma {:induction false} PartialNext(es: seq<Entry>, j: nat)
    requires j < |es| <= 128
    ensures Splice(Partial(es, j), 1024 + ENTRY * j, EntryBytes(es[j])) == Partial(es, j + 1)
  {
    hide EntryBytes;
    assert es[..j + 1][..j] == es[..j];
    OverZeros(ZeroBytes(1024) + Table(es[..j]), ARRAY - ENTRY * j, EntryBytes(es[j]));
  }

  method BuildArray(es: seq<Entry>) returns (primary: array<byte>)
    requires |es| <= 128
    ensures fresh(primary) && primary[..] == ZeroBytes(1024) + ArrayBytes(es)
  {
    hide LE, Encode, Splice, EntryCells, Partial, ArrayBytes, EntryBytes;
    primary := new byte[34 * SECTOR](_ => 0);
    var i := 2 * SECTOR;
    assert primary[..] == ZeroBytes(34 * SECTOR);
    PartialEnds(es);
    for j := 0 to |es|
      invariant i == 1024 + ENTRY * j
      invariant primary[..] == Partial(es, j)
    {
      EntryOffsets(es[j]);
      EntryEncoded(es[j]);
      // ptool pads `i` to a sector at every fourth entry; with 512-byte sectors it is there already
      assert j % 4 == 0 ==> i % SECTOR == 0;
      PartialNext(es, j);
      i := PutFields(primary, EntryCells(es[j]), i);
    }
  }

  lemma {:induction false} PartialEnds(es: seq<Entry>)
    requires |es| <= 128
    ensures Partial(es, 0) == ZeroBytes(34 * SECTOR)
    ensures Partial(es, |es|) == ZeroBytes(1024) + ArrayBytes(es)
  {
    assert es[..|es|] == es && es[..0] == [];
  }

  lemma {:induction false} EntryEncoded(e: Entry)
    ensures EntryBytes(e) == Encode(EntryCells(e))
  {
  }

  lemma {:induction false} OverZeros(s: seq<byte>, n: nat, t: seq<byte>)
    requires |t| <= n
    ensures Splice(s + ZeroBytes(n), |s|, t) == s + t + ZeroBytes(n - |t|)
  {
  }

  lemma {:induction false} SpliceMiddle(s: seq<byte>, u: seq<byte>, r: seq<byte>, at: nat, t: seq<byte>)
    requires at + |t| <= |u|
    ensures Splice(s + u + r, |s| + at, t) == s + Splice(u, at, t) + r
  {
  }

  method PutHeader(primary: array<byte>, h: Header, ghost a: seq<byte>) returns (i: nat)
    requires |a| == ARRAY && primary[..] == ZeroBytes(1024) + a
    modifies primary
    ensures primary[..] == ZeroBytes(SECTOR) + HeaderSector(h, 0) + a
  {
    hide LE, Encode;
    HeaderOffsets(HeaderCells(h, 0));
    ghost var cs := HeaderCells(h, 0);
    assert primary[..] == ZeroBytes(SECTOR) + ZeroBytes(SECTOR) + a;
    SpliceMiddle(ZeroBytes(SECTOR), ZeroBytes(SECTOR), a, 0, Encode(cs));
    assert Splice(ZeroBytes(SECTOR), 0, Encode(cs)) == Padded(cs);
    i := PutFields(primary, HeaderCells(h, 0), SECTOR);
  }

  /** The backup header is the primary one with its own location fields and checksum. */
  method FixBackup(backup: array<byte>, ghost a: seq<byte>, ghost h: Header, ghost crc: nat)
    requires |a| == ARRAY && backup[..] == a + HeaderSector(h, crc)
    modifies backup
    ensures var h2 := h.(my := 0, alternate := 1, entries := 0);
            backup[..] == a + HeaderSector(h2, HeaderCrc(h2))
  {
    hide LE, Splice, Encode, HeaderSector, Crc32;
    ghost var h0 := h.(my := 0);
    ghost var h1 := h0.(alternate := 1);
    ghost var h2 := h1.(entries := 0);
    var i := 32 * SECTOR + 16;
    PatchCrc(h, crc, 0);
    SpliceBack(a, HeaderSector(h, crc), 16, LE(0, 4));
    i := PutField(backup, 0, 4, i);
    PatchReserved(h);
    SpliceBack(a, HeaderSector(h, 0), 20, LE(0, 4));
    i := PutField(backup, 0, 4, i);
    PatchMy(h, 0, 0);
    SpliceBack(a, HeaderSector(h, 0), 24, LE(0, 8));
    i := PutField(backup, 0, 8, i);
    PatchAlternate(h0, 0, 1);
    SpliceBack(a, HeaderSector(h0, 0), 32, LE(1, 8));
    i := PutField(backup, 1, 8, i);
    i := i + 8 + 8 + 16;
    PatchEntries(h1, 0, 0);
    SpliceBack(a, HeaderSector(h1, 0), 72, LE(0, 8));
    i := PutField(backup, 0, 8, i);
    var newCrc := CalcCRC32(backup[32 * SECTOR..], HEADER);
    ZeroedPrefix(h2);
    assert backup[32 * SECTOR..][..HEADER] == HeaderSector(h2, 0)[..HEADER];
    i := 32 * SECTOR + 16;
    PatchCrc(h2, 0, newCrc);
    SpliceBack(a, HeaderSector(h2, 0), 16, LE(newCrc, 4));
    i := PutField(backup, newCrc, 4, i);
  }

  lemma {:induction false} PatchReserved(h: Header)
    ensures Splice(HeaderSector(h, 0), 20, LE(0, 4)) == HeaderSector(h, 0)
  {
    hide Encode, Splice, LE, Offset, Padded;
    HeaderOffsets(HeaderCells(h, 0));
    PaddedUpdate(HeaderCells(h, 0), 4, 0);
    assert HeaderCells(h, 0)[4 := Cell(4, 0)] == HeaderCells(h, 0);
  }

  /** A disk on which both image files were written shows the built tables. */
  lemma {:induction false} WrittenDiskShows(d: seq<byte>, n: nat, es: seq<Entry>, num: nat, boot: seq<byte>)
    requires DiskOf(d, n) && |es| <= 128 && num <= 128 && |boot| == SECTOR
    requires var t := BuiltTables(es, num);
             && d[0..17408] == boot + HeaderSector(t.h1, t.c1) + ArrayBytes(es)
             && d[(n - 33) * SECTOR..n * SECTOR] == ArrayBytes(es) + HeaderSector(t.h2, t.c2)
    ensures Shows(d, n, BuiltTables(es, num), boot, d[17408..(n - 33) * SECTOR])
  {
    hide HeaderSector, ArrayBytes, Crc32;
    var t := BuiltTables(es, num);
    var p, b := d[0..17408], d[(n - 33) * SECTOR..n * SECTOR];
    assert d[0..512] == p[0..512] == boot;
    assert d[512..1024] == p[512..1024] == HeaderSector(t.h1, t.c1);
    assert d[1024..17408] == p[1024..17408] == ArrayBytes(es);
    assert d[(n - 33) * SECTOR..(n - 1) * SECTOR] == b[..ARRAY] == ArrayBytes(es);
    assert d[(n - 1) * SECTOR..n * SECTOR] == b[ARRAY..] == HeaderSector(t.h2, t.c2);
  }
}
