/** The MBR and the chain of extended boot records that ptool.py writes for more than four partitions. */
module Ebr {
  import opened Options
  import opened Bytes
  import opened Record
  import opened Patching

  const EXTENDED := 5
  const TABLE := 0x1BE
  const LAST_ENTRY := 0x1EE
  const TWO32 := 0x1_0000_0000

  /** A logical partition: where it was placed and its table attributes. */
  datatype Logical = Logical(start: nat, size: nat, bootable: bool, kind: byte)

  // ----- table entries -----

  function PartitionCells(bootable: bool, kind: byte, start: nat, size: nat): (cs: seq<Cell>)
    ensures |cs| == 6
  {
    [Cell(1, if bootable then 0x80 else 0), Cell(3, 0), Cell(1, kind), Cell(3, 0), Cell(4, start), Cell(4, size)]
  }

  lemma {:induction false} PartitionOffsets(cs: seq<Cell>)
    requires |cs| == 6 && cs[0].width == 1 && cs[1].width == 3 && cs[2].width == 1 && cs[3].width == 3
    requires cs[4].width == 4 && cs[5].width == 4
    ensures Offset(cs, 0) == 0 && Offset(cs, 1) == 1 && Offset(cs, 2) == 4 && Offset(cs, 3) == 5
    ensures Offset(cs, 4) == 8 && Offset(cs, 5) == 12 && |Encode(cs)| == 16
  {
    EncodeLength(cs);
    assert Offset(cs, 1) == 1;
    assert Offset(cs, 2) == 4;
    assert Offset(cs, 3) == 5;
    assert Offset(cs, 4) == 8;
    assert Offset(cs, 5) == 12;
  }

  function EntryBytes(bootable: bool, kind: byte, start: nat, size: nat): (s: seq<byte>)
    ensures |s| == 16
  {
    PartitionOffsets(PartitionCells(bootable, kind, start, size));
    Encode(PartitionCells(bootable, kind, start, size))
  }

  /** Reading an entry back gives its type, and start and size modulo 2^32. */
  lemma {:induction false} EntryRead(bootable: bool, kind: byte, start: nat, size: nat)
    ensures var e := EntryBytes(bootable, kind, start, size);
            FromLE(e[4..5]) == kind && FromLE(e[8..12]) == start % TWO32 && FromLE(e[12..16]) == size % TWO32
  {
    hide LE, FromLE, Encode, Offset, Pow256;
    var cs := PartitionCells(bootable, kind, start, size);
    PartitionOffsets(cs);
    EncodeRead(cs, 2);
    EncodeRead(cs, 4);
    EncodeRead(cs, 5);
    FieldRoundTrip(kind, 1);
    FieldRoundTrip(start, 4);
    FieldRoundTrip(size, 4);
    PowValues();
    PowOne();
  }

  lemma {:induction false} PowOne()
    ensures Pow256(1) == 256
  {
  }

  // ----- the records -----

  /** Record `k` of `count`: its logical partition relative to the record's own sector, and the next
      record relative to the start of the extended partition. */
  function RecordEntries(l: Logical, base: nat, k: nat, count: nat): (s: seq<byte>)
    requires base + k <= l.start
    ensures |s| == 66
  {
    EntryBytes(l.bootable, l.kind, l.start - base - k, l.size)
    + (if k + 1 == count then EntryBytes(false, 0, 0, 0) else EntryBytes(false, EXTENDED, k + 1, 1))
    + EntryBytes(false, 0, 0, 0) + EntryBytes(false, 0, 0, 0) + [0x55, 0xAA]
  }

  function RecordSector(l: Logical, base: nat, k: nat, count: nat): (s: seq<byte>)
    requires base + k <= l.start
    ensures |s| == SECTOR
  {
    ZeroBytes(TABLE) + RecordEntries(l, base, k, count)
  }

  ghost predicate Beyond(ls: seq<Logical>, base: nat) {
    forall k :: 0 <= k < |ls| ==> base + |ls| <= ls[k].start
  }

  /** The first `m` sectors of the EBR file. */
  function Chain(ls: seq<Logical>, base: nat, m: nat): (s: seq<byte>)
    requires m <= |ls| && Beyond(ls, base)
    ensures |s| == m * SECTOR
  {
    if m == 0 then [] else Chain(ls, base, m - 1) + RecordSector(ls[m - 1], base, m - 1, |ls|)
  }

  lemma {:induction false} ChainSector(ls: seq<Logical>, base: nat, m: nat, k: nat)
    requires k < m <= |ls| && Beyond(ls, base)
    ensures Chain(ls, base, m)[k * SECTOR..(k + 1) * SECTOR] == RecordSector(ls[k], base, k, |ls|)
    decreases m
  {
    hide RecordSector;
    if k < m - 1 {
      ChainSector(ls, base, m - 1, k);
      assert Chain(ls, base, m)[k * SECTOR..(k + 1) * SECTOR] == Chain(ls, base, m - 1)[k * SECTOR..(k + 1) * SECTOR];
    }
  }

  // ----- a reader -----

  /** What a reader takes from a record: its partition relative to the record, and the record that follows,
      announced by an entry of type 5 and relative to the extended partition. */
  datatype Link = Link(offset: nat, size: nat, more: bool, next: nat)

  function ReadRecord(s: seq<byte>): Link
    requires |s| == SECTOR
  {
    Link(FromLE(s[0x1C6..0x1CA]), FromLE(s[0x1CA..0x1CE]), FromLE(s[0x1D2..0x1D3]) == EXTENDED, FromLE(s[0x1D6..0x1DA]))
  }

  /** Follows the chain from the record at sector `at`, reading at most `limit` records. */
  function ReadChain(disk: seq<byte>, base: nat, at: nat, limit: nat): Option<seq<(nat, nat)>>
    decreases limit
  {
    if limit == 0 || (at + 1) * SECTOR > |disk| then None
    else
      var r := ReadRecord(disk[at * SECTOR..(at + 1) * SECTOR]);
      if !r.more then Some([(at + r.offset, r.size)])
      else
        var rest := ReadChain(disk, base, base + r.next, limit - 1);
        if rest.None? then None else Some([(at + r.offset, r.size)] + rest.value)
  }

  /** The reader starts at the last entry of the MBR. */
  function ReadDisk(disk: seq<byte>, limit: nat): Option<seq<(nat, nat)>>
    requires |disk| >= SECTOR
  {
    if FromLE(disk[LAST_ENTRY + 4..LAST_ENTRY + 5]) != EXTENDED then None
    else
      var base := FromLE(disk[LAST_ENTRY + 8..LAST_ENTRY + 12]);
      ReadChain(disk, base, base, limit)
  }

  /** What a reader can recover from record `k`: the fields hold 32 bits. */
  function Recovered(ls: seq<Logical>, base: nat, k: nat): (r: seq<(nat, nat)>)
    requires k <= |ls| && Beyond(ls, base)
    ensures |r| == |ls| - k
    decreases |ls| - k
  {
    if k == |ls| then []
    else [(base + k + (ls[k].start - base - k) % TWO32, ls[k].size % TWO32)] + Recovered(ls, base, k + 1)
  }

  lemma {:induction false} SectorRead(l: Logical, base: nat, k: nat, count: nat)
    requires base + k <= l.start && k < count < TWO32
    ensures ReadRecord(RecordSector(l, base, k, count))
         == Link((l.start - base - k) % TWO32, l.size % TWO32, k + 1 < count, if k + 1 < count then k + 1 else 0)
  {
    hide FromLE, EntryBytes;
    var s := RecordSector(l, base, k, count);
    var e0 := EntryBytes(l.bootable, l.kind, l.start - base - k, l.size);
    var e1 := if k + 1 == count then EntryBytes(false, 0, 0, 0) else EntryBytes(false, EXTENDED, k + 1, 1);
    assert s[TABLE..TABLE + 16] == e0 && s[TABLE + 16..TABLE + 32] == e1;
    assert s[0x1C6..0x1CA] == e0[8..12] && s[0x1CA..0x1CE] == e0[12..16];
    assert s[0x1D2..0x1D3] == e1[4..5] && s[0x1D6..0x1DA] == e1[8..12];
    EntryRead(l.bootable, l.kind, l.start - base - k, l.size);
    EntryRead(false, 0, 0, 0);
    EntryRead(false, EXTENDED, k + 1, 1);
  }

  /** The chain is read completely, in order, and ends after the last record. */
  lemma {:induction false} ChainRead(disk: seq<byte>, ls: seq<Logical>, base: nat, k: nat, limit: nat)
    requires Beyond(ls, base) && k < |ls| < TWO32 && limit >= |ls| - k
    requires (base + |ls|) * SECTOR <= |disk|
    requires disk[base * SECTOR..(base + |ls|) * SECTOR] == Chain(ls, base, |ls|)
    ensures ReadChain(disk, base, base + k, limit) == Some(Recovered(ls, base, k))
    decreases |ls| - k
  {
    hide ReadRecord, RecordSector, Chain, ReadChain, Recovered;
    ChainSector(ls, base, |ls|, k);
    SliceOfSlice(disk, base * SECTOR, (base + |ls|) * SECTOR, k * SECTOR, (k + 1) * SECTOR);
    SectorRead(ls[k], base, k, |ls|);
    ReadChainStep(disk, base, base + k, limit);
    RecoveredStep(ls, base, k);
    if k + 1 < |ls| {
      ChainRead(disk, ls, base, k + 1, limit - 1);
    } else {
      RecoveredStep(ls, base, k + 1);
      assert Recovered(ls, base, k) == [(base + k + (ls[k].start - base - k) % TWO32, ls[k].size % TWO32)];
    }
  }

  lemma {:induction false} ReadChainStep(disk: seq<byte>, base: nat, at: nat, limit: nat)
    requires limit > 0 && (at + 1) * SECTOR <= |disk|
    ensures var r := ReadRecord(disk[at * SECTOR..(at + 1) * SECTOR]);
            ReadChain(disk, base, at, limit)
            == if !r.more then Some([(at + r.offset, r.size)])
               else
                 var rest := ReadChain(disk, base, base + r.next, limit - 1);
                 if rest.None? then None else Some([(at + r.offset, r.size)] + rest.value)
  {
    hide ReadRecord;
  }

  lemma {:induction false} RecoveredStep(ls: seq<Logical>, base: nat, k: nat)
    requires k <= |ls| && Beyond(ls, base)
    ensures k == |ls| ==> Recovered(ls, base, k) == []
    ensures k < |ls| ==>
              Recovered(ls, base, k)
              == [(base + k + (ls[k].start - base - k) % TWO32, ls[k].size % TWO32)] + Recovered(ls, base, k + 1)
  {
  }

  function Pairs(ls: seq<Logical>): (r: seq<(nat, nat)>)
    ensures |r| == |ls|
    ensures forall k :: 0 <= k < |ls| ==> r[k] == (ls[k].start, ls[k].size)
  {
    seq(|ls|, k requires 0 <= k < |ls| => (ls[k].start, ls[k].size))
  }

  lemma {:induction false} RecoveredAt(ls: seq<Logical>, base: nat, k: nat, i: nat)
    requires k <= i < |ls| && Beyond(ls, base)
    ensures Recovered(ls, base, k)[i - k] == (base + i + (ls[i].start - base - i) % TWO32, ls[i].size % TWO32)
    decreases i - k
  {
    if k < i {
      RecoveredAt(ls, base, k + 1, i);
    }
  }

  lemma {:induction false} ModFits(v: nat)
    ensures v % TWO32 == v <==> v < TWO32
  {
  }

  /** Round trip: a reader of the finished disk gets exactly the placed logical partitions, in order, and stops
      after the last one, if and only if every offset and size fits its 32-bit field. */
  lemma {:induction false} ChainRoundTrip(disk: seq<byte>, ls: seq<Logical>, base: nat, extSize: nat)
    requires Beyond(ls, base) && 1 <= |ls| && base + |ls| < TWO32
    requires SECTOR <= base * SECTOR && (base + |ls|) * SECTOR <= |disk|
    requires disk[LAST_ENTRY..LAST_ENTRY + 16] == EntryBytes(false, EXTENDED, base, extSize)
    requires disk[base * SECTOR..(base + |ls|) * SECTOR] == Chain(ls, base, |ls|)
    ensures ReadDisk(disk, |ls|).Some?
    ensures ReadDisk(disk, |ls|).value == Pairs(ls)
        <==> forall k :: 0 <= k < |ls| ==> ls[k].start - base - k < TWO32 && ls[k].size < TWO32
  {
    hide FromLE, Chain, EntryBytes, ReadChain;
    var e := EntryBytes(false, EXTENDED, base, extSize);
    EntryRead(false, EXTENDED, base, extSize);
    SliceOfSlice(disk, LAST_ENTRY, LAST_ENTRY + 16, 4, 5);
    SliceOfSlice(disk, LAST_ENTRY, LAST_ENTRY + 16, 8, 12);
    ChainRead(disk, ls, base, 0, |ls|);
    var got := Recovered(ls, base, 0);
    forall i | 0 <= i < |ls|
      ensures got[i] == Pairs(ls)[i] <==> ls[i].start - base - i < TWO32 && ls[i].size < TWO32
    {
      RecoveredAt(ls, base, 0, i);
      ModFits(ls[i].start - base - i);
      ModFits(ls[i].size);
    }
    if got == Pairs(ls) {
      assert forall k :: 0 <= k < |ls| ==> got[k] == Pairs(ls)[k];
    }
  }

  /** A disk with an MBR and the one-record chain of `l`, in sector 1. */
  ghost function OneRecordDisk(l: Logical): (d: seq<byte>)
    requires Beyond([l], 1)
    ensures |d| == 2 * SECTOR
  {
    ZeroBytes(LAST_ENTRY) + EntryBytes(false, EXTENDED, 1, 1) + ZeroBytes(2) + Chain([l], 1, 1)
  }

  /** For instance a partition that starts 2^32 sectors after sector 2 is read back as starting there. */
  lemma {:induction false} StartOverflows()
    ensures var l := Logical(TWO32 + 2, 1, false, 0);
            Beyond([l], 1) && ReadDisk(OneRecordDisk(l), 1) == Some([(2, 1)])
  {
    hide FromLE, EntryBytes, ReadChain, Chain;
    var l := Logical(TWO32 + 2, 1, false, 0);
    var d := OneRecordDisk(l);
    assert d[LAST_ENTRY..LAST_ENTRY + 16] == EntryBytes(false, EXTENDED, 1, 1);
    assert d[SECTOR..2 * SECTOR] == Chain([l], 1, 1);
    EntryRead(false, EXTENDED, 1, 1);
    SliceOfSlice(d, LAST_ENTRY, LAST_ENTRY + 16, 4, 5);
    SliceOfSlice(d, LAST_ENTRY, LAST_ENTRY + 16, 8, 12);
    ChainRead(d, [l], 1, 0, 1);
    assert Recovered([l], 1, 0) == [(2, 1)];
  }

  // ----- building -----

  /** ptool.py UpdatePartitionTable. */
  method UpdatePartitionTable(bootable: bool, kind: byte, start: nat, size: nat, offset: nat, table: seq<byte>)
    returns (r: seq<byte>)
    requires offset + 16 <= |table|
    ensures r == Splice(table, offset, EntryBytes(bootable, kind, start, size))
  {
    hide LE, Splice, Overlay;
    var cs := PartitionCells(bootable, kind, start, size);
    PartitionOffsets(cs);
    r := table;
    SpliceEmpty(table, offset);
    var at := offset;
    for k := 0 to 6
      invariant at == offset + Offset(cs, k) && |r| == |table|
      invariant |Encode(cs[..k])| == Offset(cs, k) && Offset(cs, k) <= 16
      invariant r == Splice(table, offset, Encode(cs[..k]))
    {
      OffsetMonotone(cs, k + 1, 6);
      assert cs[..k + 1][..k] == cs[..k];
      EncodeLength(cs[..k + 1]);
      OffsetPrefix(cs, k + 1, k + 1);
      SpliceAppend(table, offset, Encode(cs[..k]), LE(cs[k].value, cs[k].width));
      OverlayIsSplice(r, at, cs[k].value, cs[k].width);
      r := PutBytes(r, at, cs[k].value, cs[k].width);
      at := at + cs[k].width;
    }
    assert cs[..6] == cs;
  }

  lemma {:induction false} OverlayIsSplice(s: seq<byte>, at: nat, v: nat, size: nat)
    requires at + size <= |s|
    ensures Overlay(s, at, v, size) == Splice(s, at, LE(v, size))
  {
    if size == 0 {
      SpliceEmpty(s, at);
    }
  }

  /** One round of CreateExtendedBootRecords: fill the blank sector at `offset` with record `k`. */
  method BuildRecord(blank: seq<byte>, l: Logical, base: nat, k: nat, count: nat, offset: nat) returns (ebr: seq<byte>)
    requires offset + SECTOR <= |blank| && base + k <= l.start
    ensures ebr == Splice(blank, offset + TABLE, RecordEntries(l, base, k, count))
  {
    hide Splice, EntryBytes;
    ghost var e0 := EntryBytes(l.bootable, l.kind, l.start - base - k, l.size);
    ghost var e1 := if k + 1 == count then EntryBytes(false, 0, 0, 0) else EntryBytes(false, EXTENDED, k + 1, 1);
    ghost var none := EntryBytes(false, 0, 0, 0);
    ghost var at := offset + TABLE;
    var i := offset + TABLE;
    ebr := UpdatePartitionTable(l.bootable, l.kind, l.start - base - k, l.size, i, blank);
    i := i + 16;
    if k + 1 == count {
      ebr := UpdatePartitionTable(false, 0, 0, 0, i, ebr);
    } else {
      ebr := UpdatePartitionTable(false, EXTENDED, k + 1, 1, i, ebr);
    }
    i := i + 16;
    SpliceAppend(blank, at, e0, e1);
    ebr := UpdatePartitionTable(false, 0, 0, 0, i, ebr);
    i := i + 16;
    SpliceAppend(blank, at, e0 + e1, none);
    ebr := UpdatePartitionTable(false, 0, 0, 0, i, ebr);
    i := i + 16;
    SpliceAppend(blank, at, e0 + e1 + none, none);
    Magic(blank, at, e0 + e1 + none + none);
    ebr := ebr[i := 0x55];
    i := i + 1;
    ebr := ebr[i := 0xAA];
  }

  /** The record loop of CreateExtendedBootRecords, for partitions already placed. */
  method BuildChain(ls: seq<Logical>, base: nat) returns (ebr: seq<byte>)
    requires Beyond(ls, base)
    ensures ebr == Chain(ls, base, |ls|)
  {
    hide Splice, RecordEntries;
    ebr := [];
    var offset := 0;
    for k := 0 to |ls|
      invariant ebr == Chain(ls, base, k) && offset == k * SECTOR
    {
      var blank := ebr + ZeroBytes(SECTOR);
      NextRecord(ls, base, k, ebr, blank, RecordEntries(ls[k], base, k, |ls|));
      ebr := BuildRecord(blank, ls[k], base, k, |ls|, offset);
      offset := offset + SECTOR;
    }
  }

  lemma {:induction false} Magic(s: seq<byte>, at: nat, t: seq<byte>)
    requires at + |t| + 2 <= |s|
    ensures Splice(s, at, t)[at + |t| := 0x55][at + |t| + 1 := 0xAA] == Splice(s, at, t + [0x55, 0xAA])
  {
  }

  lemma {:induction false} NextRecord(ls: seq<Logical>, base: nat, k: nat, before: seq<byte>, blank: seq<byte>,
                                      es: seq<byte>)
    requires k < |ls| && Beyond(ls, base) && before == Chain(ls, base, k)
    requires blank == before + ZeroBytes(SECTOR) && es == RecordEntries(ls[k], base, k, |ls|)
    ensures Splice(blank, k * SECTOR + TABLE, es) == Chain(ls, base, k + 1)
  {
    hide RecordEntries;
    SpliceBack(before, ZeroBytes(SECTOR), TABLE, es);
    assert Splice(ZeroBytes(SECTOR), TABLE, es) == ZeroBytes(TABLE) + es;
  }
}
