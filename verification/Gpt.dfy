/** The GPT that ptool.py builds: header and entry array of UEFI Specification sections 5.3.2 and 5.3.3,
    in 512-byte sectors, at most 128 entries. */
module Gpt {
  import opened Bytes
  import opened Crc
  import opened Record

  const ENTRY := 128
  const ARRAY := 16384
  const HEADER := 92

  const SIGNATURE := 0x5452415020494645
  const REVISION := 0x00010000
  const DISK_GUID := 0x200C003DB32B6EA04BF2BBE298101B32

  datatype Header = Header(my: nat, alternate: nat, lastUsable: nat, entries: nat, num: nat, arrayCrc: nat)

  datatype Entry = Entry(typeGuid: nat, uniqueGuid: nat, first: nat, last: nat, attributes: nat, name: seq<byte>)

  // ----- header -----

  function HeaderCells(h: Header, crc: nat): seq<Cell> {
    [Cell(8, SIGNATURE), Cell(4, REVISION), Cell(4, HEADER), Cell(4, crc), Cell(4, 0),
     Cell(8, h.my), Cell(8, h.alternate), Cell(8, 34), Cell(8, h.lastUsable), Cell(16, DISK_GUID),
     Cell(8, h.entries), Cell(4, h.num), Cell(4, ENTRY), Cell(4, h.arrayCrc)]
  }

  lemma {:induction false} HeaderOffsets(cs: seq<Cell>)
    requires |cs| == 14 && cs[0].width == 8 && cs[1].width == 4 && cs[2].width == 4 && cs[3].width == 4
    requires cs[4].width == 4 && cs[5].width == 8 && cs[6].width == 8 && cs[7].width == 8 && cs[8].width == 8
    requires cs[9].width == 16 && cs[10].width == 8 && cs[11].width == 4 && cs[12].width == 4 && cs[13].width == 4
    ensures Offset(cs, 0) == 0 && Offset(cs, 1) == 8 && Offset(cs, 2) == 12 && Offset(cs, 3) == 16
    ensures Offset(cs, 4) == 20 && Offset(cs, 5) == 24 && Offset(cs, 6) == 32 && Offset(cs, 7) == 40
    ensures Offset(cs, 8) == 48 && Offset(cs, 9) == 56 && Offset(cs, 10) == 72 && Offset(cs, 11) == 80
    ensures Offset(cs, 12) == 84 && Offset(cs, 13) == 88 && Offset(cs, 14) == HEADER
    ensures |Encode(cs)| == HEADER
  {
    EncodeLength(cs);
    assert Offset(cs, 1) == 8;
    assert Offset(cs, 2) == 12;
    assert Offset(cs, 3) == 16;
    assert Offset(cs, 4) == 20;
    assert Offset(cs, 5) == 24;
    assert Offset(cs, 6) == 32;
    assert Offset(cs, 7) == 40;
    assert Offset(cs, 8) == 48;
    assert Offset(cs, 9) == 56;
    assert Offset(cs, 10) == 72;
    assert Offset(cs, 11) == 80;
    assert Offset(cs, 12) == 84;
    assert Offset(cs, 13) == 88;
  }

  /** A record padded to a sector. */
  function Padded(cs: seq<Cell>): (s: seq<byte>)
    requires |Encode(cs)| <= SECTOR
    ensures |s| == SECTOR
  {
    Encode(cs) + ZeroBytes(SECTOR - |Encode(cs)|)
  }

  function HeaderSector(h: Header, crc: nat): (s: seq<byte>)
    ensures |s| == SECTOR
  {
    HeaderOffsets(HeaderCells(h, crc));
    Padded(HeaderCells(h, crc))
  }

  /** The checksum a header should carry: over its 92 bytes with the checksum field zero. */
  function HeaderCrc(h: Header): nat {
    Crc32(Encode(HeaderCells(h, 0)))
  }

  /** Overwriting field `k` of a padded record. */
  lemma {:induction false} PaddedUpdate(cs: seq<Cell>, k: nat, v: nat)
    requires k < |cs| && |Encode(cs)| <= SECTOR
    ensures Offset(cs, k) + cs[k].width <= |Encode(cs)| == |Encode(cs[k := cs[k].(value := v)])|
    ensures Splice(Padded(cs), Offset(cs, k), LE(v, cs[k].width)) == Padded(cs[k := cs[k].(value := v)])
  {
    hide Splice, LE, Encode;
    EncodeUpdate(cs, k, v);
    SpliceFront(Encode(cs), ZeroBytes(SECTOR - |Encode(cs)|), Offset(cs, k), LE(v, cs[k].width));
  }

  lemma {:induction false} PaddedRead(cs: seq<Cell>, k: nat)
    requires k < |cs| && |Encode(cs)| <= SECTOR
    ensures Offset(cs, k) + cs[k].width <= |Encode(cs)|
    ensures Padded(cs)[Offset(cs, k)..Offset(cs, k) + cs[k].width] == LE(cs[k].value, cs[k].width)
  {
    hide LE, Encode;
    EncodeRead(cs, k);
  }

  // What writing at each of ptool's byte offsets does to a header.

  lemma {:induction false} PatchCrc(h: Header, crc: nat, v: nat)
    ensures Splice(HeaderSector(h, crc), 16, LE(v, 4)) == HeaderSector(h, v)
  {
    hide Encode, Splice, LE, Offset, Padded;
    HeaderOffsets(HeaderCells(h, crc));
    PaddedUpdate(HeaderCells(h, crc), 3, v);
    assert HeaderCells(h, crc)[3 := Cell(4, v)] == HeaderCells(h, v);
  }

  lemma {:induction false} PatchMy(h: Header, crc: nat, v: nat)
    ensures Splice(HeaderSector(h, crc), 24, LE(v, 8)) == HeaderSector(h.(my := v), crc)
  {
    hide Encode, Splice, LE, Offset, Padded;
    HeaderOffsets(HeaderCells(h, crc));
    PaddedUpdate(HeaderCells(h, crc), 5, v);
    assert HeaderCells(h, crc)[5 := Cell(8, v)] == HeaderCells(h.(my := v), crc);
  }

  lemma {:induction false} PatchAlternate(h: Header, crc: nat, v: nat)
    ensures Splice(HeaderSector(h, crc), 32, LE(v, 8)) == HeaderSector(h.(alternate := v), crc)
  {
    hide Encode, Splice, LE, Offset, Padded;
    HeaderOffsets(HeaderCells(h, crc));
    PaddedUpdate(HeaderCells(h, crc), 6, v);
    assert HeaderCells(h, crc)[6 := Cell(8, v)] == HeaderCells(h.(alternate := v), crc);
  }

  lemma {:induction false} PatchLastUsable(h: Header, crc: nat, v: nat)
    ensures Splice(HeaderSector(h, crc), 48, LE(v, 8)) == HeaderSector(h.(lastUsable := v), crc)
  {
    hide Encode, Splice, LE, Offset, Padded;
    HeaderOffsets(HeaderCells(h, crc));
    PaddedUpdate(HeaderCells(h, crc), 8, v);
    assert HeaderCells(h, crc)[8 := Cell(8, v)] == HeaderCells(h.(lastUsable := v), crc);
  }

  lemma {:induction false} PatchEntries(h: Header, crc: nat, v: nat)
    ensures Splice(HeaderSector(h, crc), 72, LE(v, 8)) == HeaderSector(h.(entries := v), crc)
  {
    hide Encode, Splice, LE, Offset, Padded;
    HeaderOffsets(HeaderCells(h, crc));
    PaddedUpdate(HeaderCells(h, crc), 10, v);
    assert HeaderCells(h, crc)[10 := Cell(8, v)] == HeaderCells(h.(entries := v), crc);
  }

  lemma {:induction false} PatchArrayCrc(h: Header, crc: nat, v: nat)
    ensures Splice(HeaderSector(h, crc), 88, LE(v, 4)) == HeaderSector(h.(arrayCrc := v), crc)
  {
    hide Encode, Splice, LE, Offset, Padded;
    HeaderOffsets(HeaderCells(h, crc));
    PaddedUpdate(HeaderCells(h, crc), 13, v);
    assert HeaderCells(h, crc)[13 := Cell(4, v)] == HeaderCells(h.(arrayCrc := v), crc);
  }

  // ----- entries -----

  function NameCells(name: seq<byte>): (cs: seq<Cell>)
    ensures |cs| == 36
    ensures forall i :: 0 <= i < 36 ==> cs[i].width == 2
  {
    seq(36, i requires 0 <= i => Cell(2, if i < |name| then name[i] else 0))
  }

  function EntryCells(e: Entry): (cs: seq<Cell>)
    ensures |cs| == 41
  {
    [Cell(16, e.typeGuid), Cell(16, e.uniqueGuid), Cell(8, e.first), Cell(8, e.last), Cell(8, e.attributes)]
    + NameCells(e.name)
  }

  lemma {:induction false} EntryOffsets(e: Entry)
    ensures var cs := EntryCells(e);
            Offset(cs, 2) == 32 && Offset(cs, 3) == 40 && Offset(cs, 4) == 48 && |Encode(cs)| == ENTRY
  {
    var cs := EntryCells(e);
    assert Offset(cs, 1) == 16;
    assert Offset(cs, 2) == 32;
    assert Offset(cs, 3) == 40;
    assert Offset(cs, 4) == 48;
    NameOffset(cs, 41);
    EncodeLength(cs);
  }

  lemma {:induction false} NameOffset(cs: seq<Cell>, k: nat)
    requires |cs| == 41 && 5 <= k <= 41 && Offset(cs, 4) == 48 && cs[4].width == 8
    requires forall i :: 5 <= i < 41 ==> cs[i].width == 2
    ensures Offset(cs, k) == 56 + 2 * (k - 5)
  {
    if k > 5 {
      NameOffset(cs, k - 1);
    }
  }

  function EntryBytes(e: Entry): (s: seq<byte>)
    ensures |s| == ENTRY
  {
    EntryOffsets(e);
    Encode(EntryCells(e))
  }

  function Table(es: seq<Entry>): (s: seq<byte>)
    ensures |s| == ENTRY * |es|
  {
    if es == [] then [] else Table(es[..|es| - 1]) + EntryBytes(es[|es| - 1])
  }

  /** The 32 sectors of the entry array. */
  function ArrayBytes(es: seq<Entry>): (s: seq<byte>)
    requires |es| <= 128
    ensures |s| == ARRAY
  {
    Table(es) + ZeroBytes(ARRAY - ENTRY * |es|)
  }

  lemma {:induction false} TableSlot(es: seq<Entry>, k: nat)
    requires k < |es|
    ensures Table(es)[ENTRY * k..ENTRY * k + ENTRY] == EntryBytes(es[k])
  {
    hide EntryBytes;
    var n := |es| - 1;
    if k < n {
      TableSlot(es[..n], k);
      assert Table(es)[ENTRY * k..ENTRY * k + ENTRY] == Table(es[..n])[ENTRY * k..ENTRY * k + ENTRY];
    }
  }

  function WithLast(es: seq<Entry>, v: nat): (r: seq<Entry>)
    requires es != []
    ensures |r| == |es|
  {
    es[|es| - 1 := es[|es| - 1].(last := v)]
  }

  /** Patching the last-sector field of the last entry. */
  lemma {:induction false} ArrayPatch(es: seq<Entry>, v: nat)
    requires 1 <= |es| <= 128
    ensures Splice(ArrayBytes(es), ENTRY * (|es| - 1) + 40, LE(v, 8)) == ArrayBytes(WithLast(es, v))
  {
    var n := |es| - 1;
    var e, t := es[n], LE(v, 8);
    EntryPatch(e, v);
    EntryOffsets(e);
    var pad := ZeroBytes(ARRAY - ENTRY * |es|);
    SpliceFront(Table(es), pad, ENTRY * n + 40, t);
    SpliceBack(Table(es[..n]), EntryBytes(e), 40, t);
    assert WithLast(es, v)[..n] == es[..n];
  }

  lemma {:induction false} EntryPatch(e: Entry, v: nat)
    ensures Splice(EntryBytes(e), 40, LE(v, 8)) == EntryBytes(e.(last := v))
  {
    var cs := EntryCells(e);
    EntryOffsets(e);
    EncodeUpdate(cs, 3, v);
    assert cs[3 := Cell(8, v)] == EntryCells(e.(last := v));
  }

  // ----- reading a disk -----

  /** A header at sector `lba` that a reader accepts, naming the other header and its entry array. */
  ghost predicate ValidHeader(disk: seq<byte>, lba: nat, alternate: nat, entries: nat, lastUsable: nat, num: nat) {
    && (lba + 1) * 512 <= |disk|
    && entries * 512 + num * 128 <= |disk|
    && var s := disk[lba * 512..(lba + 1) * 512];
       && s[0..8] == [0x45, 0x46, 0x49, 0x20, 0x50, 0x41, 0x52, 0x54]
       && s[8..12] == [0, 0, 1, 0]
       && FromLE(s[12..16]) == 92
       && FromLE(s[16..20]) == Crc32(s[0..16] + [0, 0, 0, 0] + s[20..92])
       && s[20..24] == [0, 0, 0, 0]
       && FromLE(s[24..32]) == lba
       && FromLE(s[32..40]) == alternate
       && FromLE(s[40..48]) == 34
       && FromLE(s[48..56]) == lastUsable
       && s[56..72] == [0x32, 0x1B, 0x10, 0x98, 0xE2, 0xBB, 0xF2, 0x4B,
                         0xA0, 0x6E, 0x2B, 0xB3, 0x3D, 0x00, 0x0C, 0x20]
       && FromLE(s[72..80]) == entries
       && FromLE(s[80..84]) == num
       && FromLE(s[84..88]) == 128
       && FromLE(s[88..92]) == Crc32(disk[entries * 512..entries * 512 + num * 128])
       && forall i :: 92 <= i < 512 ==> s[i] == 0
  }

  lemma {:induction false} SignatureBytes()
    ensures LE(SIGNATURE, 8) == [0x45, 0x46, 0x49, 0x20, 0x50, 0x41, 0x52, 0x54]
  {
    hide LE;
    LEStep(0x5452415020494645, 8, 0x45, 0x54524150204946);
    LEStep(0x54524150204946, 7, 0x46, 0x545241502049);
    LEStep(0x545241502049, 6, 0x49, 0x5452415020);
    LEStep(0x5452415020, 5, 0x20, 0x54524150);
    LEStep(0x54524150, 4, 0x50, 0x545241);
    LEStep(0x545241, 3, 0x41, 0x5452);
    LEStep(0x5452, 2, 0x52, 0x54);
    LEStep(0x54, 1, 0x54, 0x0);
    LEZero();
  }

  lemma {:induction false} RevisionBytes()
    ensures LE(REVISION, 4) == [0x00, 0x00, 0x01, 0x00]
  {
    hide LE;
    LEStep(0x10000, 4, 0x00, 0x100);
    LEStep(0x100, 3, 0x00, 0x1);
    LEStep(0x1, 2, 0x01, 0x0);
    LEStep(0x0, 1, 0x00, 0x0);
    LEZero();
  }

  lemma {:induction false} ReservedBytes()
    ensures LE(0, 4) == [0x00, 0x00, 0x00, 0x00]
  {
    hide LE;
    LEStep(0x0, 4, 0x00, 0x0);
    LEStep(0x0, 3, 0x00, 0x0);
    LEStep(0x0, 2, 0x00, 0x0);
    LEStep(0x0, 1, 0x00, 0x0);
    LEZero();
  }

  lemma {:induction false} DiskGuidBytes()
    ensures LE(DISK_GUID, 16) ==
            [0x32, 0x1B, 0x10, 0x98, 0xE2, 0xBB, 0xF2, 0x4B, 0xA0, 0x6E, 0x2B, 0xB3, 0x3D, 0x00, 0x0C, 0x20]
  {
    hide LE;
    LEStep(0x200C003DB32B6EA04BF2BBE298101B32, 16, 0x32, 0x200C003DB32B6EA04BF2BBE298101B);
    LEStep(0x200C003DB32B6EA04BF2BBE298101B, 15, 0x1B, 0x200C003DB32B6EA04BF2BBE29810);
    LEStep(0x200C003DB32B6EA04BF2BBE29810, 14, 0x10, 0x200C003DB32B6EA04BF2BBE298);
    LEStep(0x200C003DB32B6EA04BF2BBE298, 13, 0x98, 0x200C003DB32B6EA04BF2BBE2);
    LEStep(0x200C003DB32B6EA04BF2BBE2, 12, 0xE2, 0x200C003DB32B6EA04BF2BB);
    LEStep(0x200C003DB32B6EA04BF2BB, 11, 0xBB, 0x200C003DB32B6EA04BF2);
    LEStep(0x200C003DB32B6EA04BF2, 10, 0xF2, 0x200C003DB32B6EA04B);
    LEStep(0x200C003DB32B6EA04B, 9, 0x4B, 0x200C003DB32B6EA0);
    LEStep(0x200C003DB32B6EA0, 8, 0xA0, 0x200C003DB32B6E);
    LEStep(0x200C003DB32B6E, 7, 0x6E, 0x200C003DB32B);
    LEStep(0x200C003DB32B, 6, 0x2B, 0x200C003DB3);
    LEStep(0x200C003DB3, 5, 0xB3, 0x200C003D);
    LEStep(0x200C003D, 4, 0x3D, 0x200C00);
    LEStep(0x200C00, 3, 0x00, 0x200C);
    LEStep(0x200C, 2, 0x0C, 0x20);
    LEStep(0x20, 1, 0x20, 0x0);
    LEZero();
  }

  lemma {:induction false} WithoutChecksum(s: seq<byte>)
    requires |s| == SECTOR
    ensures Splice(s, 16, [0, 0, 0, 0])[..HEADER] == s[0..16] + [0, 0, 0, 0] + s[20..92]
  {
  }

  lemma {:induction false} PaddedZeros(cs: seq<Cell>)
    requires |Encode(cs)| == HEADER
    ensures forall i :: 92 <= i < 512 ==> Padded(cs)[i] == 0
  {
    hide Encode;
  }

  lemma {:induction false} FieldValue(v: nat, n: nat)
    requires (n == 8 && v < 0x1_0000_0000_0000_0000) || (n == 4 && v < 0x1_0000_0000)
    ensures FromLE(LE(v, n)) == v
  {
    hide FromLE, LE, Pow256;
    PowValues();
    FieldRoundTrip(v, n);
  }

  lemma {:induction false} PaddedValue(cs: seq<Cell>, k: nat)
    requires k < |cs| && |Encode(cs)| <= SECTOR
    requires (cs[k].width == 8 && cs[k].value < 0x1_0000_0000_0000_0000) ||
            (cs[k].width == 4 && cs[k].value < 0x1_0000_0000)
    ensures Offset(cs, k) + cs[k].width <= |Encode(cs)|
    ensures FromLE(Padded(cs)[Offset(cs, k)..Offset(cs, k) + cs[k].width]) == cs[k].value
  {
    hide LE, Encode, FromLE;
    PaddedRead(cs, k);
    FieldValue(cs[k].value, cs[k].width);
  }

  /** A sealed header sector over a matching entry array is valid. */
  lemma {:induction false} SealedIsValid(disk: seq<byte>, h: Header)
    requires (h.my + 1) * SECTOR <= |disk| && h.entries * SECTOR + h.num * ENTRY <= |disk|
    requires disk[h.my * SECTOR..(h.my + 1) * SECTOR] == HeaderSector(h, HeaderCrc(h))
    requires h.arrayCrc == Crc32(disk[h.entries * SECTOR..h.entries * SECTOR + h.num * ENTRY])
    requires |disk| < 0x1_0000_0000_0000_0000 && h.alternate * SECTOR <= |disk| && h.lastUsable * SECTOR <= |disk|
    requires h.num <= 128
    ensures ValidHeader(disk, h.my, h.alternate, h.entries, h.lastUsable, h.num)
  {
    hide Encode, Splice, LE, Offset, Crc32, FromLE, Padded;
    var crc := HeaderCrc(h);
    var s, cs := HeaderSector(h, crc), HeaderCells(h, crc);
    HeaderOffsets(cs);
    CrcFits(Encode(HeaderCells(h, 0)));
    CrcFits(disk[h.entries * SECTOR..h.entries * SECTOR + h.num * ENTRY]);
    SignatureBytes();
    RevisionBytes();
    ReservedBytes();
    DiskGuidBytes();
    PaddedRead(cs, 0);
    PaddedRead(cs, 1);
    PaddedRead(cs, 4);
    PaddedRead(cs, 9);
    PaddedZeros(cs);
    PaddedValue(cs, 2);
    PaddedValue(cs, 3);
    PaddedValue(cs, 5);
    PaddedValue(cs, 6);
    PaddedValue(cs, 7);
    PaddedValue(cs, 8);
    PaddedValue(cs, 10);
    PaddedValue(cs, 11);
    PaddedValue(cs, 12);
    PaddedValue(cs, 13);
    PatchCrc(h, crc, 0);
    ZeroedPrefix(h);
    WithoutChecksum(s);
  }

  lemma {:induction false} ZeroedPrefix(h: Header)
    ensures HeaderSector(h, 0)[..HEADER] == Encode(HeaderCells(h, 0))
  {
    HeaderOffsets(HeaderCells(h, 0));
  }
}
