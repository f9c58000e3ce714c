/** The whole MBR path for more than four partitions in one run: ptool.py plans, builds the MBR and the EBR chain and
    emits the sizes of the extended and of the last partition as patches; msp.py writes the files and applies them. */
module MbrProvision {
  import opened Options
  import opened Bytes
  import opened Ebr
  import opened MbrDisk
  import opened MbrTables
  import opened Layout
  import opened Planner
  import opened Patching
  import GptPatch

  /** Placed partitions with their table attributes. */
  method Describe(ps: seq<Placed>, kinds: seq<Kind>) returns (ls: seq<Ebr.Logical>)
    requires |ps| == |kinds|
    ensures Describes(ls, ps) && Typed(ls, kinds)
  {
    ls := [];
    for k := 0 to |ps|
      invariant |ls| == k && forall j :: 0 <= j < k ==> ls[j].start == ps[j].first && ls[j].size == ps[j].size
      invariant forall j :: 0 <= j < k ==> ls[j].bootable == kinds[j].bootable && ls[j].kind == kinds[j].kind
    {
      ls := ls + [Ebr.Logical.Logical(ps[k].first, ps[k].size, kinds[k].bootable, kinds[k].kind)];
    }
  }

  function Slot(j: nat): nat {
    TABLE + 16 * j
  }

  ghost predicate HasEntry(s: seq<byte>, j: nat, l: Ebr.Logical)
    requires j < 4 && |s| >= SECTOR
  {
    s[Slot(j)..Slot(j) + 16] == Ebr.EntryBytes(l.bootable, l.kind, l.start, l.size)
  }

  /** The MBR sector of CreateMasterBootRecord. */
  method BuildPrimaries(ls: seq<Ebr.Logical>, signature: nat) returns (mbr: seq<byte>)
    requires |ls| <= 4
    ensures |mbr| == SECTOR
    ensures forall j :: 0 <= j < |ls| ==> HasEntry(mbr, j, ls[j])
    ensures Framed(mbr, signature) && UnusedZero(mbr, |ls|)
  {
    hide Splice, Ebr.EntryBytes, Framed, UnusedZero, HasEntry;
    mbr := ZeroBytes(SECTOR);
    mbr := mbr[440 := signature / 0x100_0000 % 256][441 := signature / 0x1_0000 % 256];
    mbr := mbr[442 := signature / 0x100 % 256][443 := signature % 256];
    mbr := mbr[510 := 0x55][511 := 0xAA];
    FrameBuilt(mbr, signature);
    for j := 0 to |ls|
      invariant |mbr| == SECTOR && Framed(mbr, signature) && UnusedZero(mbr, j)
      invariant forall i :: 0 <= i < j ==> HasEntry(mbr, i, ls[i])
    {
      EntryAdded(mbr, ls, j, signature);
      mbr := UpdatePartitionTable(ls[j].bootable, ls[j].kind, ls[j].start, ls[j].size, Slot(j), mbr);
    }
  }

  lemma {:induction false} FrameBuilt(mbr: seq<byte>, signature: nat)
    requires |mbr| == SECTOR
    requires mbr == ZeroBytes(SECTOR)[440 := signature / 0x100_0000 % 256][441 := signature / 0x1_0000 % 256]
                    [442 := signature / 0x100 % 256][443 := signature % 256][510 := 0x55][511 := 0xAA]
    ensures Framed(mbr, signature) && UnusedZero(mbr, 0)
  {
  }

  lemma {:induction false} EntryAdded(mbr: seq<byte>, ls: seq<Ebr.Logical>, j: nat, signature: nat)
    requires |mbr| == SECTOR && j < |ls| <= 4 && Framed(mbr, signature) && UnusedZero(mbr, j)
    requires forall i :: 0 <= i < j ==> HasEntry(mbr, i, ls[i])
    ensures var r := Splice(mbr, Slot(j), Ebr.EntryBytes(ls[j].bootable, ls[j].kind, ls[j].start, ls[j].size));
            && Framed(r, signature) && UnusedZero(r, j + 1)
            && forall i :: 0 <= i <= j ==> HasEntry(r, i, ls[i])
  {
    hide Splice, Ebr.EntryBytes;
    var e := Ebr.EntryBytes(ls[j].bootable, ls[j].kind, ls[j].start, ls[j].size);
    var r := Splice(mbr, Slot(j), e);
    SpliceAt(mbr, Slot(j), e);
    FramedStays(mbr, r, signature);
    forall i | 0 <= i < j
      ensures HasEntry(r, i, ls[i])
    {
      SpliceDisjoint(mbr, Slot(j), e, Slot(i), Slot(i) + 16);
      assert HasEntry(mbr, i, ls[i]);
    }
  }

  /** The MBR sector with three primaries and the entry of the extended partition. */
  method BuildMbr(ls: seq<Ebr.Logical>, base: nat, extSize: nat, signature: nat) returns (mbr: seq<byte>)
    requires |ls| == 3
    ensures |mbr| == SECTOR && Framed(mbr, signature)
    ensures forall j :: 0 <= j < 3 ==> HasEntry(mbr, j, ls[j])
    ensures mbr[LAST_ENTRY..LAST_ENTRY + 16] == Ebr.EntryBytes(false, EXTENDED, base, extSize)
  {
    hide Splice, Ebr.EntryBytes, Framed, UnusedZero;
    mbr := BuildPrimaries(ls, signature);
    ghost var x := Ebr.EntryBytes(false, EXTENDED, base, extSize);
    ghost var r := Splice(mbr, LAST_ENTRY, x);
    SpliceAt(mbr, LAST_ENTRY, x);
    FramedStays(mbr, r, signature);
    forall i | 0 <= i < 3
      ensures HasEntry(r, i, ls[i])
    {
      SpliceDisjoint(mbr, LAST_ENTRY, x, Slot(i), Slot(i) + 16);
    }
    mbr := UpdatePartitionTable(false, EXTENDED, base, extSize, LAST_ENTRY, mbr);
  }

  /** Start and size of a primary partition, as read from the MBR. */
  function ReadPrimary(disk: seq<byte>, j: nat): (nat, nat)
    requires j < 4 && |disk| >= SECTOR
  {
    (FromLE(disk[Slot(j) + 8..Slot(j) + 12]), FromLE(disk[Slot(j) + 12..Slot(j) + 16]))
  }

  lemma {:induction false} PrimaryRead(disk: seq<byte>, j: nat, l: Ebr.Logical)
    requires j < 4 && |disk| >= SECTOR && HasEntry(disk, j, l)
    ensures ReadPrimary(disk, j) == (l.start % TWO32, l.size % TWO32)
    ensures ReadPrimary(disk, j) == (l.start, l.size) <==> l.start < TWO32 && l.size < TWO32
  {
    hide FromLE, Ebr.EntryBytes;
    EntryRead(l.bootable, l.kind, l.start, l.size);
    SliceOfSlice(disk, Slot(j), Slot(j) + 16, 8, 12);
    SliceOfSlice(disk, Slot(j), Slot(j) + 16, 12, 16);
    ModFits(l.start);
    ModFits(l.size);
  }

  /** Patching the size field of an entry. */
  lemma {:induction false} PatchSize(bootable: bool, kind: byte, start: nat, size: nat, v: nat)
    ensures Splice(Ebr.EntryBytes(bootable, kind, start, size), 12, LE(v, 4))
            == Ebr.EntryBytes(bootable, kind, start, v)
  {
    hide LE, Splice, Record.Encode, Record.Offset;
    var cs := PartitionCells(bootable, kind, start, size);
    PartitionOffsets(cs);
    Record.EncodeUpdate(cs, 5, v);
    assert cs[5 := Record.Cell(4, v)] == PartitionCells(bootable, kind, start, v);
  }

  // ----- the tables on a disk -----

  ghost predicate OnDisk(d: seq<byte>, n: nat, prim: seq<Ebr.Logical>, base: nat, extSize: nat, ls: seq<Ebr.Logical>) {
    && |d| == n * SECTOR && 1 <= base && base + |ls| <= n && |prim| == 3 && Beyond(ls, base)
    && (forall j :: 0 <= j < 3 ==> HasEntry(d, j, prim[j]))
    && d[LAST_ENTRY..LAST_ENTRY + 16] == Ebr.EntryBytes(false, EXTENDED, base, extSize)
    && d[base * SECTOR..(base + |ls|) * SECTOR] == Chain(ls, base, |ls|)
  }

  /** Only the tables differ. */
  ghost predicate RestKept(d: seq<byte>, d': seq<byte>, base: nat, count: nat) {
    && |d| == |d'|
    && forall k :: SECTOR <= k < |d| && !(base * SECTOR <= k < (base + count) * SECTOR) ==> d'[k] == d[k]
  }

  lemma {:induction false} MbrOnDisk(d: seq<byte>, n: nat, mbr: seq<byte>, prim: seq<Ebr.Logical>, base: nat,
                                     extSize: nat, ls: seq<Ebr.Logical>)
    requires |d| == n * SECTOR && 1 <= base && base + |ls| <= n && |prim| == 3 && Beyond(ls, base)
    requires |mbr| == SECTOR && d[..SECTOR] == mbr && forall j :: 0 <= j < 3 ==> HasEntry(mbr, j, prim[j])
    requires mbr[LAST_ENTRY..LAST_ENTRY + 16] == Ebr.EntryBytes(false, EXTENDED, base, extSize)
    requires d[base * SECTOR..(base + |ls|) * SECTOR] == Chain(ls, base, |ls|)
    ensures OnDisk(d, n, prim, base, extSize, ls)
  {
    hide Ebr.EntryBytes, Chain;
    forall j | 0 <= j < 3
      ensures HasEntry(d, j, prim[j])
    {
      SliceOfSlice(d, 0, SECTOR, Slot(j), Slot(j) + 16);
      assert d[0..SECTOR] == mbr;
      assert HasEntry(mbr, j, prim[j]);
    }
    SliceOfSlice(d, 0, SECTOR, LAST_ENTRY, LAST_ENTRY + 16);
    assert d[0..SECTOR] == mbr;
  }

  /** The patch that sets the size of the extended partition. */
  function SizePatch(base: nat): Patch {
    Patch(Lit(0), 0x1FA, 4, Number(DiskMinus(base)))
  }

  /** The patch that sets the size of the last logical partition, in the last record. `free` is the sector after the
      partition before it. */
  function LastPatch(base: nat, count: nat, free: nat): Patch
    requires base + count >= 1
  {
    Patch(Lit(base + count - 1), 0x1CA, 4, Number(DiskMinus(free + 1)))
  }

  lemma {:induction false} ExtendedSized(d: seq<byte>, n: nat, prim: seq<Ebr.Logical>, base: nat, extSize: nat,
                                         ls: seq<Ebr.Logical>)
      returns (d': seq<byte>)
    requires OnDisk(d, n, prim, base, extSize, ls)
    ensures Apply(d, SizePatch(base)) == Some(d')
    ensures OnDisk(d', n, prim, base, n - base, ls) && RestKept(d, d', base, |ls|) && FrameSame(d, d')
  {
    hide Ebr.EntryBytes, Chain, LE, Splice;
    var t := LE(n - base, 4);
    WindowWrite(d, 0, SECTOR, 0x1FA, n - base, 4);
    d' := Splice(d, 0x1FA, t);
    SpliceAt(d, 0x1FA, t);
    forall j | 0 <= j < 3
      ensures HasEntry(d', j, prim[j])
    {
      SpliceDisjoint(d, 0x1FA, t, Slot(j), Slot(j) + 16);
      assert HasEntry(d, j, prim[j]);
    }
    SpliceInside(d, 0x1FA, t, LAST_ENTRY, LAST_ENTRY + 16);
    PatchSize(false, EXTENDED, base, extSize, n - base);
    SpliceDisjoint(d, 0x1FA, t, base * SECTOR, (base + |ls|) * SECTOR);
  }

  function WithLastSize(ls: seq<Ebr.Logical>, v: nat): (r: seq<Ebr.Logical>)
    requires ls != []
    ensures |r| == |ls|
  {
    ls[|ls| - 1 := ls[|ls| - 1].(size := v)]
  }

  lemma {:induction false} ChainPrefix(ls: seq<Ebr.Logical>, ls': seq<Ebr.Logical>, base: nat, m: nat)
    requires |ls| == |ls'| && m <= |ls| && Beyond(ls, base) && Beyond(ls', base) && forall k :: 0 <= k < m ==>
            ls[k] == ls'[k]
    ensures Chain(ls, base, m) == Chain(ls', base, m)
    decreases m
  {
    hide RecordSector;
    if m > 0 {
      ChainPrefix(ls, ls', base, m - 1);
    }
  }

  lemma {:induction false} RecordSized(l: Ebr.Logical, base: nat, k: nat, count: nat, v: nat)
    requires base + k <= l.start
    ensures Splice(RecordSector(l, base, k, count), 0x1CA, LE(v, 4)) == RecordSector(l.(size := v), base, k, count)
  {
    hide LE, Splice, Ebr.EntryBytes;
    var e, t := Ebr.EntryBytes(l.bootable, l.kind, l.start - base - k, l.size), LE(v, 4);
    var whole := RecordSector(l, base, k, count);
    var rest := whole[TABLE + 16..];
    PatchSize(l.bootable, l.kind, l.start - base - k, l.size, v);
    assert whole == (ZeroBytes(TABLE) + e) + rest;
    Record.SpliceFront(ZeroBytes(TABLE) + e, rest, 0x1CA, t);
    Record.SpliceBack(ZeroBytes(TABLE), e, 12, t);
    var e' := Ebr.EntryBytes(l.bootable, l.kind, l.start - base - k, v);
    assert RecordSector(l.(size := v), base, k, count) == (ZeroBytes(TABLE) + e') + rest;
  }

  lemma {:induction false} ChainSized(ls: seq<Ebr.Logical>, base: nat, v: nat)
    requires ls != [] && Beyond(ls, base)
    ensures Beyond(WithLastSize(ls, v), base)
    ensures Splice(Chain(ls, base, |ls|), (|ls| - 1) * SECTOR + 0x1CA, LE(v, 4))
            == Chain(WithLastSize(ls, v), base, |ls|)
  {
    hide LE, Splice, RecordSector;
    var m := |ls| - 1;
    var ls' := WithLastSize(ls, v);
    ChainPrefix(ls, ls', base, m);
    RecordSized(ls[m], base, m, |ls|, v);
    Record.SpliceBack(Chain(ls, base, m), RecordSector(ls[m], base, m, |ls|), 0x1CA, LE(v, 4));
  }

  lemma {:induction false} LastSized(d: seq<byte>, n: nat, prim: seq<Ebr.Logical>, base: nat, extSize: nat,
                                     ls: seq<Ebr.Logical>, free: nat)
      returns (d': seq<byte>)
    requires OnDisk(d, n, prim, base, extSize, ls) && ls != [] && free < n
    ensures Apply(d, LastPatch(base, |ls|, free)) == Some(d')
    ensures OnDisk(d', n, prim, base, extSize, WithLastSize(ls, n - free - 1)) && RestKept(d, d', base, |ls|)
    ensures FrameSame(d, d')
  {
    hide Ebr.EntryBytes, Chain, LE, Splice;
    var v := n - free - 1;
    var at, t := (base + |ls| - 1) * SECTOR + 0x1CA, LE(v, 4);
    d' := Splice(d, at, t);
    SpliceAt(d, at, t);
    ChainSized(ls, base, v);
    SpliceInside(d, at, t, base * SECTOR, (base + |ls|) * SECTOR);
    SpliceDisjoint(d, at, t, LAST_ENTRY, LAST_ENTRY + 16);
    forall j | 0 <= j < 3
      ensures HasEntry(d', j, prim[j])
    {
      SpliceDisjoint(d, at, t, Slot(j), Slot(j) + 16);
      assert HasEntry(d, j, prim[j]);
    }
  }

  /** The patch program: both sizes are set, and only in the tables. */
  lemma {:induction false} Patched(d: seq<byte>, n: nat, prim: seq<Ebr.Logical>, base: nat, extSize: nat,
                                   ls: seq<Ebr.Logical>, free: nat)
      returns (d': seq<byte>)
    requires OnDisk(d, n, prim, base, extSize, ls) && ls != [] && free < n
    ensures Run(d, [SizePatch(base), LastPatch(base, |ls|, free)]) == Some(d')
    ensures OnDisk(d', n, prim, base, n - base, WithLastSize(ls, n - free - 1)) && RestKept(d, d', base, |ls|)
    ensures FrameSame(d, d')
  {
    hide Apply, Chain, Ebr.EntryBytes, HasEntry;
    var d1 := ExtendedSized(d, n, prim, base, extSize, ls);
    d' := LastSized(d1, n, prim, base, n - base, ls, free);
    GptPatch.RunTwo(d, [SizePatch(base), LastPatch(base, |ls|, free)]);
  }

  /** What the tables say besides starts and sizes: the kinds of the primaries, the extended partition from its first
      record to the end of the disk, and in every record the kind of its partition and the link to the next. */
  ghost predicate TablesShow(d: seq<byte>, n: nat, kinds: seq<Kind>, base: nat, count: nat)
    requires |kinds| == 3 + count
  {
    && base <= n && |d| >= SECTOR
    && (forall j :: 0 <= j < 3 ==> ShowsKind(d, 446 + 16 * j, kinds[j]))
    && ShowsKind(d, 494, Kind(false, 5)) && d[502..506] == Word(base) && d[506..510] == Word(n - base)
    && forall k :: 0 <= k < count ==> RecordAt(d, base, k, count, kinds)
  }

  ghost predicate RecordAt(d: seq<byte>, base: nat, k: nat, count: nat, kinds: seq<Kind>)
    requires |kinds| == 3 + count && k < count
  {
    RecordShows(d, (base + k) * 512, k, count, kinds[3 + k])
  }

  lemma {:induction false} DiskShows(d: seq<byte>, n: nat, prim: seq<Ebr.Logical>, base: nat, ls: seq<Ebr.Logical>,
                                     kinds: seq<Kind>)
    requires base <= n && OnDisk(d, n, prim, base, n - base, ls) && |kinds| == 3 + |ls|
    requires Typed(prim, kinds[..3]) && Typed(ls, kinds[3..])
    ensures TablesShow(d, n, kinds, base, |ls|)
  {
    hide Ebr.EntryBytes, Chain, RecordSector, RecordShows, ShowsKind;
    forall j | 0 <= j < 3
      ensures ShowsKind(d, 446 + 16 * j, kinds[j])
    {
      assert HasEntry(d, j, prim[j]);
      EntryShows(d, Slot(j), prim[j].bootable, prim[j].kind, prim[j].start, prim[j].size);
      assert kinds[..3][j] == kinds[j] == Kind(prim[j].bootable, prim[j].kind);
    }
    EntryShows(d, LAST_ENTRY, false, EXTENDED, base, n - base);
    forall k | 0 <= k < |ls|
      ensures RecordAt(d, base, k, |ls|, kinds)
    {
      ChainSector(ls, base, |ls|, k);
      SliceOfSlice(d, base * SECTOR, (base + |ls|) * SECTOR, k * SECTOR, (k + 1) * SECTOR);
      SectorShows(d, (base + k) * 512, ls[k], base, k, |ls|);
      assert kinds[3..][k] == kinds[3 + k] == Kind(ls[k].bootable, ls[k].kind);
    }
  }

  // ----- the plan -----

  lemma {:induction false} TablesPlaced(qs: seq<Request>, boundary: nat, alignBoundary: nat, grow: bool)
    requires boundary >= 1 && |qs| > 4
    ensures var p := MbrPlan(qs, boundary, alignBoundary, grow);
            |p.placed| == 5 + (|qs| - 3) && p.placed[4].first == ExtendedBegins(qs, boundary)
  {
    hide WpUpdate;
    MbrPlanCount(qs, boundary, alignBoundary, grow);
    WalkPrefix(Mode.Logical(alignBoundary), boundary, ExtendedStart(qs, boundary), LogicalRequests(qs[3..], grow),
        |qs| - 3, 4);
  }

  lemma {:induction false} PrimariesFit(p: Plan, boundary: nat, prim: seq<Ebr.Logical>)
    requires boundary >= 1 && Geometry(p, boundary) && |p.placed| >= 5 && p.placed[4].first < TWO32
    requires Describes(prim, p.placed[1..4])
    ensures |prim| == 3 && forall j :: 0 <= j < 3 ==> prim[j].start < TWO32 && prim[j].size < TWO32
  {
    forall j | 0 <= j < 3
      ensures prim[j].start < TWO32 && prim[j].size < TWO32
    {
      assert p.placed[1 + j].first + p.placed[1 + j].size <= p.placed[4].first;
    }
  }

  /** The sector after the last partition but one, where the search for the last one's place begins. */
  function FreeForLast(placed: seq<Placed>): nat
    requires |placed| >= 2
  {
    placed[|placed| - 2].first + placed[|placed| - 2].size
  }

  /** Size of partition `k`: the last one is sized from the disk, counted from the sector that was free before its start
      was moved. */
  function SizeOnDisk(p: Plan, k: nat, n: nat): int
    requires 2 <= |p.placed| && k < |p.placed|
  {
    if k + 1 == |p.placed| then n - FreeForLast(p.placed) - 1 else p.placed[k].size
  }

  ghost predicate PrimariesReadBack(d: seq<byte>, p: Plan)
    requires |p.placed| >= 5 && |d| >= SECTOR
  {
    forall j :: 0 <= j < 3 ==> ReadPrimary(d, j) == (p.placed[1 + j].first, p.placed[1 + j].size)
  }

  ghost predicate LogicalsReadBack(d: seq<byte>, p: Plan, count: nat, n: nat)
    requires |p.placed| == 5 + count && |d| >= SECTOR
  {
    var r := ReadDisk(d, count);
    && r.Some? && |r.value| == count
    && forall k :: 0 <= k < count ==> r.value[k].0 == p.placed[5 + k].first && r.value[k].1 == SizeOnDisk(p, 5 + k, n)
  }

  /** A reader of the disk finds the placed primaries, and following the chain exactly the placed logical partitions,
      the last one with the size patched in. */
  ghost predicate ReadsBack(d: seq<byte>, p: Plan, count: nat, n: nat)
    requires |p.placed| == 5 + count && |d| >= SECTOR
  {
    PrimariesReadBack(d, p) && LogicalsReadBack(d, p, count, n)
  }

  /** Every logical partition's distance from its record, and its size, fit their 32-bit fields. */
  ghost predicate FieldsFit(p: Plan, count: nat, n: nat)
    requires |p.placed| == 5 + count
  {
    forall i :: 5 <= i < 5 + count ==>
        p.placed[i].first - p.placed[4].first - (i - 5) < TWO32 && SizeOnDisk(p, i, n) < TWO32
  }

  /** Tables that lie within reach of a 32-bit sector number read back as placed if and only if their fields fit. */
  lemma {:induction false} TablesReadBack(boundary: nat, p: Plan, count: nat, d: seq<byte>, n: nat,
                                          prim: seq<Ebr.Logical>,
                                          extSize: nat, ls: seq<Ebr.Logical>)
    requires boundary >= 1 && Geometry(p, boundary) && count >= 1 && |p.placed| == 5 + count
    requires Describes(prim, p.placed[1..4]) && Describes(ls, p.placed[5..]) && FreeForLast(p.placed) < n
    requires OnDisk(d, n, prim, p.placed[4].first, extSize, WithLastSize(ls, n - FreeForLast(p.placed) - 1))
    requires p.placed[4].first + count < TWO32
    ensures |d| >= SECTOR && (ReadsBack(d, p, count, n) <==> FieldsFit(p, count, n))
  {
    hide Geometry, OnDisk, PrimariesReadBack, LogicalsReadBack, FieldsFit;
    PrimaryTable(boundary, p, d, n, prim, extSize, WithLastSize(ls, n - FreeForLast(p.placed) - 1));
    LogicalTable(p, d, n, prim, extSize, ls, count);
  }

  lemma {:induction false} PrimaryTable(boundary: nat, p: Plan, d: seq<byte>, n: nat, prim: seq<Ebr.Logical>,
                                        extSize: nat,
                                        ls: seq<Ebr.Logical>)
    requires boundary >= 1 && Geometry(p, boundary) && |p.placed| >= 5 && p.placed[4].first < TWO32
    requires Describes(prim, p.placed[1..4]) && OnDisk(d, n, prim, p.placed[4].first, extSize, ls)
    ensures |d| >= SECTOR && PrimariesReadBack(d, p)
  {
    hide ReadPrimary, Chain, Ebr.EntryBytes, Geometry, HasEntry;
    PrimariesFit(p, boundary, prim);
    forall j | 0 <= j < 3
      ensures ReadPrimary(d, j) == (p.placed[1 + j].first, p.placed[1 + j].size)
    {
      PrimaryRead(d, j, prim[j]);
    }
  }

  lemma {:induction false} LogicalTable(p: Plan, d: seq<byte>, n: nat, prim: seq<Ebr.Logical>, extSize: nat,
                                        ls: seq<Ebr.Logical>, count: nat)
    requires count >= 1 && |p.placed| == 5 + count && Describes(ls, p.placed[5..])
    requires FreeForLast(p.placed) < n && p.placed[4].first + count < TWO32
    requires OnDisk(d, n, prim, p.placed[4].first, extSize, WithLastSize(ls, n - FreeForLast(p.placed) - 1))
    ensures |d| >= SECTOR && (LogicalsReadBack(d, p, count, n) <==> FieldsFit(p, count, n))
  {
    hide ReadDisk, Chain, Ebr.EntryBytes, HasEntry;
    var base, ls' := p.placed[4].first, WithLastSize(ls, n - FreeForLast(p.placed) - 1);
    assert forall k :: 0 <= k < count ==>
        ls'[k].start == p.placed[5 + k].first && ls'[k].size == SizeOnDisk(p, 5 + k, n);
    ChainRoundTrip(d, ls', base, extSize);
    FieldsMatch(ls', p, count, n);
    PairsMatch(ReadDisk(d, count).value, ls', p, count, n);
  }

  lemma {:induction false} FieldsMatch(ls: seq<Ebr.Logical>, p: Plan, count: nat, n: nat)
    requires |p.placed| == 5 + count && |ls| == count && count >= 1
    requires forall k :: 0 <= k < count ==>
            ls[k].start == p.placed[5 + k].first && ls[k].size == SizeOnDisk(p, 5 + k, n)
    ensures FieldsFit(p, count, n) <==>
            forall k :: 0 <= k < |ls| ==> ls[k].start - p.placed[4].first - k < TWO32 && ls[k].size < TWO32
  {
    hide SizeOnDisk;
    forall i | 5 <= i < 5 + count
      ensures p.placed[i].first == ls[i - 5].start && SizeOnDisk(p, i, n) == ls[i - 5].size
    {
      assert p.placed[5 + (i - 5)] == p.placed[i];
    }
  }

  lemma {:induction false} PairsMatch(r: seq<(nat, nat)>, ls: seq<Ebr.Logical>, p: Plan, count: nat, n: nat)
    requires |p.placed| == 5 + count && |ls| == count && count >= 1
    requires forall k :: 0 <= k < count ==>
            ls[k].start == p.placed[5 + k].first && ls[k].size == SizeOnDisk(p, 5 + k, n)
    ensures r == Pairs(ls) <==>
            |r| == count && forall k :: 0 <= k < count ==>
                r[k].0 == p.placed[5 + k].first && r[k].1 == SizeOnDisk(p, 5 + k, n)
  {
    hide SizeOnDisk;
    if |r| == count && forall k :: 0 <= k < count ==>
        r[k].0 == p.placed[5 + k].first && r[k].1 == SizeOnDisk(p, 5 + k, n) {
      assert forall k :: 0 <= k < count ==> r[k] == Pairs(ls)[k];
    }
  }

  /** Partition `i` of the plan has sector `x` on a disk of `n` sectors. */
  ghost predicate HasSector(p: Plan, i: nat, n: nat, x: nat)
    requires 2 <= |p.placed| && i < |p.placed|
  {
    p.placed[i].first <= x < p.placed[i].first + SizeOnDisk(p, i, n)
  }

  /** Read-only partitions and tables are protected; writable ones are not if the plan is clear. */
  ghost predicate ProtectionKept(p: Plan, n: nat)
    requires 2 <= |p.placed|
  {
    && (forall i, x: nat :: 0 <= i < |p.placed| && p.placed[i].readonly && HasSector(p, i, n, x) ==>
        Protected(p.regions, x))
    && (Clear(p) ==> forall i, x: nat :: 0 <= i < |p.placed| && !p.placed[i].readonly && HasSector(p, i, n, x) ==>
          !Protected(p.regions, x))
  }

  lemma {:induction false} ProtectionFollows(qs: seq<Request>, boundary: nat, alignBoundary: nat, grow: bool, n: nat)
    requires boundary >= 1 && |qs| > 4 && Plain(qs)
    ensures var p := MbrPlan(qs, boundary, alignBoundary, grow);
            |p.placed| == 5 + (|qs| - 3) && ProtectionKept(p, n)
  {
    hide MbrPlan, Geometry, Clear, NeverTrapped, Protected;
    TablesPlaced(qs, boundary, alignBoundary, grow);
    MbrLayout(qs, boundary, alignBoundary, grow);
    var p := MbrPlan(qs, boundary, alignBoundary, grow);
    OnlyLastGrown(qs, boundary, alignBoundary, grow);
    var last := |p.placed| - 1;
    forall i, x: nat | 0 <= i < |p.placed| && HasSector(p, i, n, x)
      ensures p.placed[i].readonly ==> Protected(p.regions, x)
      ensures !p.placed[i].readonly && Clear(p) ==> !Protected(p.regions, x)
    {
      if p.placed[i].readonly {
        var k :| 0 <= k < |p.regions| && Inside(p.placed[i], p.regions[k]);
        InRegion(p.regions, k, x);
      } else if Clear(p) {
        ClearIsUnprotected(p, x);
        assert Holds(p.placed[i], x, x);
      }
    }
  }

  lemma {:induction false} InRegion(rs: seq<Region>, k: nat, x: nat)
    requires k < |rs| && rs[k].start <= x <= rs[k].end
    ensures Protected(rs, x)
  {
  }

  /** The partition that is sized by the patch is the last one, and is marked so. */
  lemma {:induction false} OnlyLastGrown(qs: seq<Request>, boundary: nat, alignBoundary: nat, grow: bool)
    requires boundary >= 1 && |qs| > 4 && Plain(qs)
    ensures var p := MbrPlan(qs, boundary, alignBoundary, grow);
            |p.placed| >= 2 && forall i :: 0 <= i < |p.placed| ==> (p.placed[i].grown <==> i == |p.placed| - 1)
  {
    hide Choose, WpUpdate, Geometry, Covered, Clear;
    var mode, start, rs := Mode.Logical(alignBoundary), ExtendedStart(qs, boundary), LogicalRequests(qs[3..], grow);
    ExtendedSound(qs, boundary, alignBoundary);
    WalkNoneGrown(mode, boundary, start, rs, |rs| - 1);
  }

  /** For every list of more than four partitions and every disk that holds their tables, the run succeeds exactly when
      there is a sector left for the last partition. Then the tables show signature, magic, kinds and links; they read
      back as what was placed, if and only if their fields fit; what they give to read-only partitions is protected, and
      to writable ones not; and no sector but the tables is touched. */
  method Provision(disk: DiskFile, n: nat, qs: seq<Request>, kinds: seq<Kind>, boundary: nat, alignBoundary: nat,
                   grow: bool, extSize: nat, signature: nat) returns (wp: WriteProtectTable, ok: bool)
    requires boundary >= 1 && |qs| > 4 && |kinds| == |qs| && Plain(qs) && |disk.bytes| == n * SECTOR
    requires ExtendedBegins(qs, boundary) + (|qs| - 3) <= n
    modifies disk
    ensures var p, count := MbrPlan(qs, boundary, alignBoundary, grow), |qs| - 3;
            && wp.regions == p.regions && |p.placed| == 5 + count && ProtectionKept(p, n)
            && (ok <==> FreeForLast(p.placed) < n)
            && (ok ==>
                  && |disk.bytes| == n * SECTOR && |disk.bytes| >= SECTOR
                  && RestKept(old(disk.bytes), disk.bytes, ExtendedBegins(qs, boundary), count)
                  && Framed(disk.bytes, signature)
                  && TablesShow(disk.bytes, n, kinds, ExtendedBegins(qs, boundary), count)
                  && (ExtendedBegins(qs, boundary) + count < TWO32 ==>
                        (ReadsBack(disk.bytes, p, count, n) <==> FieldsFit(p, count, n))))
  {
    hide MbrPlan, ExtendedBegins, ReadsBack, OnDisk, Run, Chain, Splice, HasEntry, Ebr.EntryBytes, FieldsFit,
        ProtectionKept;
    hide Geometry, Covered, Clear, NeverTrapped, GrowsReadonly, Framed, TablesShow;
    ghost var p := MbrPlan(qs, boundary, alignBoundary, grow);
    wp := new WriteProtectTable(boundary, FirstRegion(boundary));
    var placed := wp.PlaceMbr(qs, alignBoundary, grow);
    TablesPlaced(qs, boundary, alignBoundary, grow);
    BaseAtLeastOne(qs, boundary);
    ProtectionFollows(qs, boundary, alignBoundary, grow, n);
    MbrLayout(qs, boundary, alignBoundary, grow);
    var base := placed[4].first;
    var prim := Describe(placed[1..4], kinds[..3]);
    var ls := Describe(placed[5..], kinds[3..]);
    LogicalsBeyond(qs, boundary, alignBoundary, grow, ls);
    BuildTables(disk, n, prim, base, extSize, signature, ls);
    var free := FreeForLast(placed);
    if free < n {
      ghost var d' := Finished(disk.bytes, n, prim, extSize, ls, kinds, signature, boundary, p);
    } else {
      NoSectorLeft(disk.bytes, n, prim, base, extSize, ls, free);
    }
    ok := disk.PerformPatching([SizePatch(base), LastPatch(base, |ls|, free)]);
  }

  /** What the patch program leaves of freshly written tables. */
  lemma {:induction false} Finished(d: seq<byte>, n: nat, prim: seq<Ebr.Logical>, extSize: nat, ls: seq<Ebr.Logical>,
                                    kinds: seq<Kind>, signature: nat, boundary: nat, p: Plan)
      returns (d': seq<byte>)
    requires boundary >= 1 && Geometry(p, boundary) && |ls| >= 1 && |p.placed| == 5 + |ls| && |kinds| == 3 + |ls|
    requires Describes(prim, p.placed[1..4]) && Describes(ls, p.placed[5..]) && FreeForLast(p.placed) < n
    requires Typed(prim, kinds[..3]) && Typed(ls, kinds[3..])
    requires OnDisk(d, n, prim, p.placed[4].first, extSize, ls) && Framed(d, signature)
    ensures var base, count := p.placed[4].first, |ls|;
            && Run(d, [SizePatch(base), LastPatch(base, count, FreeForLast(p.placed))]) == Some(d')
            && |d'| == n * SECTOR && |d'| >= SECTOR && RestKept(d, d', base, count) && Framed(d', signature)
            && TablesShow(d', n, kinds, base, count)
            && (base + count < TWO32 ==> (ReadsBack(d', p, count, n) <==> FieldsFit(p, count, n)))
  {
    hide Geometry, Framed, TablesShow, ReadsBack, FieldsFit, Run, Chain, Ebr.EntryBytes, HasEntry;
    var base, free := p.placed[4].first, FreeForLast(p.placed);
    d' := Patched(d, n, prim, base, extSize, ls, free);
    FramedStays(d, d', signature);
    DiskShows(d', n, prim, base, WithLastSize(ls, n - free - 1), kinds);
    if base + |ls| < TWO32 {
      TablesReadBack(boundary, p, |ls|, d', n, prim, n - base, ls);
    }
  }

  /** MBR and chain built and written. */
  method BuildTables(disk: DiskFile, n: nat, prim: seq<Ebr.Logical>, base: nat, extSize: nat, signature: nat,
                     ls: seq<Ebr.Logical>)
    requires |disk.bytes| == n * SECTOR && 1 <= base && base + |ls| <= n && |prim| == 3 && Beyond(ls, base)
    modifies disk
    ensures OnDisk(disk.bytes, n, prim, base, extSize, ls) && RestKept(old(disk.bytes), disk.bytes, base, |ls|)
    ensures Framed(disk.bytes, signature)
  {
    hide OnDisk, Chain, HasEntry, Ebr.EntryBytes, Framed;
    var mbr := BuildMbr(prim, base, extSize, signature);
    var chain := BuildChain(ls, base);
    WriteTables(disk, n, mbr, chain, base);
    MbrOnDisk(disk.bytes, n, mbr, prim, base, extSize, ls);
    FramedPrefix(disk.bytes, mbr, signature);
  }

  /** Without a sector for the last partition its size is negative and msp gives up. */
  lemma {:induction false} NoSectorLeft(d: seq<byte>, n: nat, prim: seq<Ebr.Logical>, base: nat, extSize: nat,
                                        ls: seq<Ebr.Logical>, free: nat)
    requires OnDisk(d, n, prim, base, extSize, ls) && ls != [] && free >= n
    ensures Run(d, [SizePatch(base), LastPatch(base, |ls|, free)]).None?
  {
    hide Chain, Ebr.EntryBytes, HasEntry, Splice, LE;
    var d1 := ExtendedSized(d, n, prim, base, extSize, ls);
    assert Apply(d1, LastPatch(base, |ls|, free)).None?;
    GptPatch.RunTwo(d, [SizePatch(base), LastPatch(base, |ls|, free)]);
  }

  // ----- where the last partition ends -----

  /** How far the start of the last partition is moved from the free sector, for its request `q`. */
  function LastMove(p: Plan, q: Request, boundary: nat, alignBoundary: nat): nat
    requires 2 <= |p.placed| && p.regions != []
  {
    var free := FreeForLast(p.placed);
    if q.align then Till(free, alignBoundary) else if free <= LastEnd(p.regions) then Till(free, boundary) else 0
  }

  lemma {:induction false} LastStart(qs: seq<Request>, boundary: nat, alignBoundary: nat, grow: bool)
    requires boundary >= 1 && |qs| > 4
    ensures var p := MbrPlan(qs, boundary, alignBoundary, grow);
            && |p.placed| == 5 + (|qs| - 3)
            && p.placed[|p.placed| - 1].first == FreeForLast(p.placed) + LastMove(p, qs[|qs| - 1], boundary,
                alignBoundary)
  {
    hide WpUpdate, Till;
    var mode, start, rs := Mode.Logical(alignBoundary), ExtendedStart(qs, boundary), LogicalRequests(qs[3..], grow);
    MbrPlanCount(qs, boundary, alignBoundary, grow);
    var m := |rs| - 1;
    var before := Walk(mode, boundary, start, rs, m);
    assert before == Advance(mode, boundary, Walk(mode, boundary, start, rs, m - 1), rs[m - 1]);
    assert MbrPlan(qs, boundary, alignBoundary, grow) == Advance(mode, boundary, before, rs[m]);
    assert rs[m].align == qs[|qs| - 1].align && !rs[m].readonly;
  }

  /** The last partition, as the disk gives it, ends within the disk exactly when the free sector needs no move, or
      one of a single sector, to its boundary: its size is computed before the start is moved. */
  lemma {:induction false} LastFitsExactly(qs: seq<Request>, boundary: nat, alignBoundary: nat, grow: bool,
                                           d: seq<byte>, n: nat)
    requires boundary >= 1 && |qs| > 4 && |d| >= SECTOR
    requires |MbrPlan(qs, boundary, alignBoundary, grow).placed| == 5 + (|qs| - 3)
    requires ReadsBack(d, MbrPlan(qs, boundary, alignBoundary, grow), |qs| - 3, n)
    ensures var last := ReadDisk(d, |qs| - 3).value[|qs| - 4];
            var p := MbrPlan(qs, boundary, alignBoundary, grow);
            last.0 + last.1 <= n <==> LastMove(p, qs[|qs| - 1], boundary, alignBoundary) <= 1
  {
    hide ReadDisk, ReadPrimary, MbrPlan, LastMove;
    LastStart(qs, boundary, alignBoundary, grow);
  }

  /** A layout in which it does not: an aligned last partition is moved from sector 72 to 128, so on every disk it
      ends 55 sectors past the end. */
  lemma {:induction false} LastOverruns(d: seq<byte>, n: nat)
    requires |d| >= SECTOR
    ensures var a, b := Request(false, false, 8, 0, false), Request(false, true, 8, 0, false);
            var p := MbrPlan([a, a, a, a, b], 64, 64, true);
            && |p.placed| == 7 && p.placed[6].first + SizeOnDisk(p, 6, n) == n + 55
            && (ReadsBack(d, p, 2, n) ==> var last := ReadDisk(d, 2).value[1]; last.0 + last.1 == n + 55)
  {
    hide ReadDisk, ReadPrimary;
    var a, b := Request(false, false, 8, 0, false), Request(false, true, 8, 0, false);
    MovedLast([a, a, a, a, b], a, b);
  }

  lemma {:induction false} MovedLast(qs: seq<Request>, a: Request, b: Request)
    requires a == Request(false, false, 8, 0, false) && b == Request(false, true, 8, 0, false) && qs == [a, a, a, a, b]
    ensures var p := MbrPlan(qs, 64, 64, true);
            |p.placed| == 7 && p.placed[6].first == 128 && FreeForLast(p.placed) == 72
  {
    var w := [FirstRegion(64)];
    var start := ExtendedStart(qs, 64);
    ThreePrimaries(qs[..3], a);
    assert start.first == 27 && start.regions == w && |start.placed| == 5;
    var rs := LogicalRequests(qs[3..], true);
    assert rs == [a, b.(size := 0, grown := true)];
    var mode := Mode.Logical(64);
    assert Walk(mode, 64, start, rs, 0) == start;
    assert Choose(mode, 64, 27, 63, a) == 64;
    var one := Walk(mode, 64, start, rs, 1);
    assert one.first == 72 && one.regions == w && one.placed == start.placed + [Placed(64, 8, false, false)];
    assert Choose(mode, 64, 72, 63, rs[1]) == 128;
    assert Walk(mode, 64, start, rs, 2) == Advance(mode, 64, one, rs[1]);
  }

  lemma {:induction false} ThreePrimaries(qs: seq<Request>, a: Request)
    requires qs == [a, a, a] && a.size == 8
    ensures var p := PrimaryPlan(qs, 64, false);
            p.first == 25 && p.regions == [FirstRegion(64)] && |p.placed| == 4
  {
    var start, r := MbrStart(64), a.(readonly := true);
    var rs := PrimaryRequests(qs, false);
    assert rs[0] == r && rs[1] == r && rs[2] == r;
    hide PrimaryRequests, Advance;
    var one := PlacePrimary(start, r);
    var two := PlacePrimary(one, r);
    var three := PlacePrimary(two, r);
    assert Walk(Primary, 64, start, rs, 0) == start;
    assert Walk(Primary, 64, start, rs, 1) == one;
    assert Walk(Primary, 64, start, rs, 2) == two;
    assert Walk(Primary, 64, start, rs, 3) == three;
  }

  lemma {:induction false} PlacePrimary(p: Plan, q: Request) returns (r: Plan)
    requires q.readonly && q.size == 8 && 1 <= p.first <= 56 && p.regions == [FirstRegion(64)]
    ensures r == Advance(Primary, 64, p, q) && r.first == p.first + 8 && r.regions == p.regions
    ensures |r.placed| == |p.placed| + 1
  {
    r := Advance(Primary, 64, p, q);
  }

  /** The MBR at sector 0, the EBR file at the start of the extended partition. */
  method WriteTables(disk: DiskFile, n: nat, mbr: seq<byte>, chain: seq<byte>, base: nat)
    requires |disk.bytes| == n * SECTOR && |mbr| == SECTOR && 1 <= base && base * SECTOR + |chain| <= n * SECTOR
    modifies disk
    ensures |disk.bytes| == n * SECTOR
    ensures disk.bytes[..SECTOR] == mbr && disk.bytes[base * SECTOR..base * SECTOR + |chain|] == chain
    ensures forall k :: SECTOR <= k < n * SECTOR && !(base * SECTOR <= k < base * SECTOR + |chain|) ==>
            disk.bytes[k] == old(disk.bytes)[k]
  {
    hide Splice;
    ghost var d0 := disk.bytes;
    SpliceAt(d0, 0, mbr);
    disk.Seek(0);
    disk.Write(mbr);
    ghost var d1 := disk.bytes;
    SpliceAt(d1, base * SECTOR, chain);
    SpliceDisjoint(d1, base * SECTOR, chain, 0, SECTOR);
    disk.Seek(base * SECTOR);
    disk.Write(chain);
  }
}
