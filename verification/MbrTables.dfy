/** What the bytes of an MBR and of the extended boot records hold, offset by offset. */
module MbrTables {
  import opened Bytes
  import opened Record
  import opened Ebr

  /** Boot flag and partition type. */
  datatype Kind = Kind(bootable: bool, kind: byte)

  /** The records carry the kinds of their partitions. */
  ghost predicate Typed(ls: seq<Ebr.Logical>, kinds: seq<Kind>) {
    |ls| == |kinds| && forall k :: 0 <= k < |ls| ==> ls[k].bootable == kinds[k].bootable && ls[k].kind == kinds[k].kind
  }

  /** The first half of an entry at byte `at`: boot flag, three zeros, type, three zeros. */
  ghost predicate ShowsKind(d: seq<byte>, at: nat, k: Kind) {
    at + 8 <= |d| && d[at..at + 8] == [if k.bootable then 0x80 else 0, 0, 0, 0, k.kind, 0, 0, 0]
  }

  /** Four bytes of `v`, the least significant first. */
  function Word(v: nat): seq<byte> {
    [v % 256, v / 256 % 256, v / 256 / 256 % 256, v / 256 / 256 / 256 % 256]
  }

  /** Sector 0 outside the four entries: zeros, the signature from its most significant byte, and the magic. */
  ghost predicate Framed(d: seq<byte>, signature: nat) {
    && |d| >= 512
    && (forall i :: 0 <= i < 440 ==> d[i] == 0)
    && d[440..446] == [signature / 0x100_0000 % 256, signature / 0x1_0000 % 256, signature / 0x100 % 256,
                       signature % 256, 0, 0]
    && d[510..512] == [0x55, 0xAA]
  }

  /** Entries from number `count` on are empty. */
  ghost predicate UnusedZero(d: seq<byte>, count: nat) {
    |d| >= 512 && forall i :: 446 + 16 * count <= i < 510 ==> d[i] == 0
  }

  /** Sector 0 differs in the entries at most. */
  ghost predicate FrameSame(d: seq<byte>, d': seq<byte>) {
    && |d| == |d'| >= 512
    && forall i :: (0 <= i < 446 || 510 <= i < 512) ==> d'[i] == d[i]
  }

  lemma {:induction false} FramedStays(d: seq<byte>, d': seq<byte>, signature: nat)
    requires Framed(d, signature) && FrameSame(d, d')
    ensures Framed(d', signature)
  {
    assert d'[440..446] == d[440..446] && d'[510..512] == d[510..512];
  }

  lemma {:induction false} FramedPrefix(d: seq<byte>, mbr: seq<byte>, signature: nat)
    requires |mbr| == SECTOR <= |d| && d[..SECTOR] == mbr && Framed(mbr, signature)
    ensures Framed(d, signature)
  {
    assert forall i :: 0 <= i < 512 ==> d[i] == mbr[i];
    assert d[440..446] == mbr[440..446] && d[510..512] == mbr[510..512];
  }

  /** The sector at byte `at` is record `k` of `count`: zeros, the entry of its partition, the entry of the next record
      (type 5, `k + 1` sectors into the extended partition, one sector) or an empty one, two empty entries, the
      magic. */
  ghost predicate RecordShows(d: seq<byte>, at: nat, k: nat, count: nat, kind: Kind) {
    && at + 512 <= |d|
    && (forall i :: at <= i < at + 446 ==> d[i] == 0)
    && ShowsKind(d, at + 446, kind)
    && d[at + 462..at + 478]
       == (if k + 1 < count then [0, 0, 0, 0, 5, 0, 0, 0] + Word(k + 1) + [1, 0, 0, 0] else ZeroBytes(16))
    && (forall i :: at + 478 <= i < at + 510 ==> d[i] == 0)
    && d[at + 510..at + 512] == [0x55, 0xAA]
  }

  // ----- the encoded entries -----

  lemma {:induction false} WordBytes(v: nat)
    ensures LE(v, 4) == Word(v)
  {
    hide LE;
    LEZero();
    LEStep(v, 4, v % 256, v / 256);
    LEStep(v / 256, 3, v / 256 % 256, v / 256 / 256);
    LEStep(v / 256 / 256, 2, v / 256 / 256 % 256, v / 256 / 256 / 256);
    LELast(v / 256 / 256 / 256);
  }

  lemma {:induction false} LELast(v: nat)
    ensures LE(v, 1) == [v % 256]
  {
    assert LE(v / 256, 0) == [];
  }

  lemma {:induction false} ThreeZeros()
    ensures LE(0, 3) == [0, 0, 0]
  {
    hide LE;
    LEZero();
    LEStep(0, 3, 0, 0);
    LEStep(0, 2, 0, 0);
    LEStep(0, 1, 0, 0);
  }

  lemma {:induction false} CellNext(cs: seq<Cell>, k: nat)
    requires k < |cs|
    ensures Encode(cs[..k + 1]) == Encode(cs[..k]) + LE(cs[k].value, cs[k].width)
  {
    hide LE;
    assert cs[..k + 1][..k] == cs[..k];
  }

  lemma {:induction false} FirstHalf(bootable: bool, kind: byte, start: nat, size: nat)
    ensures Encode(PartitionCells(bootable, kind, start, size)[..4])
         == [if bootable then 0x80 else 0, 0, 0, 0, kind, 0, 0, 0]
  {
    hide LE, Encode;
    var cs := PartitionCells(bootable, kind, start, size);
    Nothing(cs);
    CellNext(cs, 0);
    CellNext(cs, 1);
    CellNext(cs, 2);
    CellNext(cs, 3);
    LELast(if bootable then 0x80 else 0);
    LELast(kind);
    ThreeZeros();
  }

  lemma {:induction false} Nothing(cs: seq<Cell>)
    ensures Encode(cs[..0]) == []
  {
  }

  /** A table entry byte by byte. */
  lemma {:induction false} EntryLiteral(bootable: bool, kind: byte, start: nat, size: nat)
    ensures Ebr.EntryBytes(bootable, kind, start, size)
         == [if bootable then 0x80 else 0, 0, 0, 0, kind, 0, 0, 0] + Word(start) + Word(size)
  {
    hide LE, Encode;
    var cs := PartitionCells(bootable, kind, start, size);
    FirstHalf(bootable, kind, start, size);
    CellNext(cs, 4);
    CellNext(cs, 5);
    WordBytes(start);
    WordBytes(size);
    assert cs[..6] == cs;
  }

  lemma {:induction false} EmptyEntry()
    ensures Ebr.EntryBytes(false, 0, 0, 0) == ZeroBytes(16)
  {
    hide Ebr.EntryBytes;
    EntryLiteral(false, 0, 0, 0);
    assert Word(0) == [0, 0, 0, 0];
  }

  /** An entry found in a sector shows its kind. */
  lemma {:induction false} EntryShows(d: seq<byte>, at: nat, bootable: bool, kind: byte, start: nat, size: nat)
    requires at + 16 <= |d| && d[at..at + 16] == Ebr.EntryBytes(bootable, kind, start, size)
    ensures ShowsKind(d, at, Kind(bootable, kind))
    ensures d[at + 8..at + 12] == Word(start) && d[at + 12..at + 16] == Word(size)
  {
    hide Ebr.EntryBytes;
    EntryLiteral(bootable, kind, start, size);
    SliceOfSlice(d, at, at + 16, 0, 8);
    SliceOfSlice(d, at, at + 16, 8, 12);
    SliceOfSlice(d, at, at + 16, 12, 16);
  }

  /** A record found on a disk shows all its bytes. */
  lemma {:induction false} SectorShows(d: seq<byte>, at: nat, l: Ebr.Logical, base: nat, k: nat, count: nat)
    requires at + 512 <= |d| && base + k <= l.start && k < count
    requires d[at..at + 512] == RecordSector(l, base, k, count)
    ensures RecordShows(d, at, k, count, Kind(l.bootable, l.kind))
  {
    hide Ebr.EntryBytes;
    var s := RecordSector(l, base, k, count);
    var e0 := Ebr.EntryBytes(l.bootable, l.kind, l.start - base - k, l.size);
    var none := Ebr.EntryBytes(false, 0, 0, 0);
    var e1 := if k + 1 == count then none else Ebr.EntryBytes(false, EXTENDED, k + 1, 1);
    assert s == ZeroBytes(446) + e0 + e1 + none + none + [0x55, 0xAA];
    EmptyEntry();
    EntryLiteral(false, EXTENDED, k + 1, 1);
    assert Word(1) == [1, 0, 0, 0];
    hide RecordSector;
    SliceOfSlice(d, at, at + 512, 446, 462);
    assert s[446..462] == e0 && s[462..478] == e1;
    EntryShows(d, at + 446, l.bootable, l.kind, l.start - base - k, l.size);
    SliceOfSlice(d, at, at + 512, 462, 478);
    SliceOfSlice(d, at, at + 512, 510, 512);
    forall i | at <= i < at + 446 || at + 478 <= i < at + 510
      ensures d[i] == 0
    {
      assert d[i] == d[at..at + 512][i - at];
    }
  }
}
