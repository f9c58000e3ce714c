/** The MBR path for at most four partitions, all of them primary, in one run. */
module MbrPrimaries {
  import opened Options
  import opened Bytes
  import opened Ebr
  import opened MbrDisk
  import opened MbrTables
  import opened MbrProvision
  import opened Layout
  import opened Planner
  import opened Patching

  ghost predicate TableOf(d: seq<byte>, n: nat, ls: seq<Ebr.Logical>) {
    && n >= 1 && |d| == n * SECTOR && |ls| <= 4
    && forall j :: 0 <= j < |ls| ==> HasEntry(d, j, ls[j])
  }

  /** Only sector 0 differs. */
  ghost predicate SectorZeroOnly(d: seq<byte>, d': seq<byte>) {
    |d| == |d'| && forall k :: SECTOR <= k < |d| ==> d'[k] == d[k]
  }

  /** The patch that sets the size of the last of `count` primaries, which starts at `first`. */
  function GrowPatch(count: nat, first: nat): Patch
    requires count >= 1
  {
    Patch(Lit(0), 0x1CA + 16 * (count - 1), 4, Number(DiskMinus(first)))
  }

  /** The patch sets the size to the distance from the end of the disk; it fails if that is negative. */
  lemma {:induction false} LastGrown(d: seq<byte>, n: nat, ls: seq<Ebr.Logical>)
    requires TableOf(d, n, ls) && ls != []
    ensures var last := ls[|ls| - 1];
            var r := Run(d, [GrowPatch(|ls|, last.start)]);
            && (r.Some? <==> last.start <= n)
            && (r.Some? ==>
                  && TableOf(r.value, n, WithLastSize(ls, n - last.start)) && SectorZeroOnly(d, r.value)
                  && FrameSame(d, r.value) && (UnusedZero(d, |ls|) ==> UnusedZero(r.value, |ls|)))
  {
    hide Ebr.EntryBytes, LE, Splice;
    var m := |ls| - 1;
    var last, patch := ls[m], GrowPatch(|ls|, ls[m].start);
    assert [patch][..0] == [];
    assert Run(d, [patch]) == Apply(d, patch);
    if last.start <= n {
      var at, t := 0x1CA + 16 * m, LE(n - last.start, 4);
      WindowWrite(d, 0, SECTOR, at, n - last.start, 4);
      SpliceAt(d, at, t);
      SpliceInside(d, at, t, Slot(m), Slot(m) + 16);
      PatchSize(last.bootable, last.kind, last.start, last.size, n - last.start);
      assert HasEntry(d, m, last);
      forall j | 0 <= j < m
        ensures HasEntry(Splice(d, at, t), j, ls[j])
      {
        SpliceDisjoint(d, at, t, Slot(j), Slot(j) + 16);
        assert HasEntry(d, j, ls[j]);
      }
    }
  }

  /** Size of primary `j` on a disk of `n` sectors. */
  function SizeOnDisk(p: Plan, j: nat, n: nat): int
    requires 1 + j < |p.placed|
  {
    if p.placed[1 + j].grown then n - p.placed[1 + j].first else p.placed[1 + j].size
  }

  /** A reader of the MBR finds every primary where it was placed. */
  ghost predicate ReadsBack(d: seq<byte>, p: Plan, count: nat, n: nat)
    requires count <= 4 && |p.placed| == 1 + count && |d| >= SECTOR
  {
    forall j :: 0 <= j < count ==>
      ReadPrimary(d, j).0 == p.placed[1 + j].first && ReadPrimary(d, j).1 == SizeOnDisk(p, j, n)
  }

  ghost predicate FieldsFit(p: Plan, count: nat, n: nat)
    requires |p.placed| == 1 + count
  {
    forall i :: 1 <= i < |p.placed| ==> p.placed[i].first < TWO32 && SizeOnDisk(p, i - 1, n) < TWO32
  }

  /** Every sector the MBR gives to a partition is protected. */
  ghost predicate AllProtected(d: seq<byte>, count: nat, rs: seq<Region>)
    requires count <= 4 && |d| >= SECTOR
  {
    forall j, x: nat :: 0 <= j < count && InTable(d, j, x) ==> Protected(rs, x)
  }

  ghost predicate InTable(d: seq<byte>, j: nat, x: nat)
    requires j < 4 && |d| >= SECTOR
  {
    ReadPrimary(d, j).0 <= x < ReadPrimary(d, j).0 + ReadPrimary(d, j).1
  }

  lemma {:induction false} TableReadsBack(d: seq<byte>, n: nat, ls: seq<Ebr.Logical>, p: Plan, count: nat)
    requires TableOf(d, n, ls) && |ls| == count && |p.placed| == 1 + count
    requires forall j :: 0 <= j < count ==> ls[j].start == p.placed[1 + j].first && ls[j].size == SizeOnDisk(p, j, n)
    ensures |d| >= SECTOR && (ReadsBack(d, p, count, n) <==> FieldsFit(p, count, n))
  {
    hide ReadPrimary, HasEntry, SizeOnDisk;
    forall j | 0 <= j < count
      ensures ReadPrimary(d, j) == (ls[j].start, ls[j].size) <==> ls[j].start < TWO32 && ls[j].size < TWO32
    {
      PrimaryRead(d, j, ls[j]);
    }
    forall i | 1 <= i < |p.placed|
      ensures p.placed[i].first == ls[i - 1].start && SizeOnDisk(p, i - 1, n) == ls[i - 1].size
    {
      assert p.placed[1 + (i - 1)] == p.placed[i];
    }
  }

  /** The sectors of a table that reads back are those of the plan, with a grown last partition up to the end of the
      disk. */
  lemma {:induction false} TableProtection(d: seq<byte>, p: Plan, count: nat, n: nat)
    requires count <= 4 && |p.placed| == 1 + count && |d| >= SECTOR && ReadsBack(d, p, count, n)
    requires p.regions != [] && Covered(p) && p.placed[0] == Placed(0, 1, true, false)
    requires forall i :: 0 <= i < |p.placed| ==> p.placed[i].readonly
    ensures AllProtected(d, count, p.regions) <==> ReadonlyProtected(p, n - 1)
  {
    hide ReadPrimary, Protected, Covered;
    forall j, x: nat | 0 <= j < count
      ensures InTable(d, j, x) <==> Holds(p.placed[1 + j], n - 1, x)
    {
      assert ReadPrimary(d, j).0 == p.placed[1 + j].first && ReadPrimary(d, j).1 == SizeOnDisk(p, j, n);
    }
    if AllProtected(d, count, p.regions) {
      forall i, x: nat | 0 <= i < |p.placed| && p.placed[i].readonly && Holds(p.placed[i], n - 1, x)
        ensures Protected(p.regions, x)
      {
        if i == 0 {
          FirstSector(p, x);
        } else {
          assert p.placed[1 + (i - 1)] == p.placed[i];
          assert InTable(d, i - 1, x);
        }
      }
    }
    if ReadonlyProtected(p, n - 1) {
      forall j, x: nat | 0 <= j < count && InTable(d, j, x)
        ensures Protected(p.regions, x)
      {
        assert Holds(p.placed[1 + j], n - 1, x);
      }
    }
  }

  lemma {:induction false} FirstSector(p: Plan, x: nat)
    requires p.placed != [] && p.placed[0] == Placed(0, 1, true, false) && Covered(p) && x == 0
    ensures Protected(p.regions, x)
  {
    var k :| 0 <= k < |p.regions| && Inside(p.placed[0], p.regions[k]);
    assert p.regions[k].start <= x <= p.regions[k].end;
  }

  /** All that was placed is read-only, and only a last partition is grown. */
  lemma {:induction false} PrimariesPlaced(qs: seq<Request>, boundary: nat, alignBoundary: nat, grow: bool)
    requires boundary >= 1 && |qs| <= 4 && Plain(qs)
    ensures var p := MbrPlan(qs, boundary, alignBoundary, grow);
            && |p.placed| == 1 + |qs| && p.placed[0] == Placed(0, 1, true, false)
            && forall i :: 0 <= i < |p.placed| ==>
                 p.placed[i].readonly && (p.placed[i].grown <==> grow && qs != [] && i == |qs|)
  {
    hide Choose, WpUpdate, Walk;
    var start, rs := MbrStart(boundary), PrimaryRequests(qs, grow);
    var p := MbrPlan(qs, boundary, alignBoundary, grow);
    WalkPrefix(Primary, boundary, start, rs, |qs|, 0);
    forall i | 0 <= i < |p.placed|
      ensures p.placed[i].readonly && (p.placed[i].grown <==> grow && qs != [] && i == |qs|)
    {
      if i > 0 {
        PlacedAt(Primary, boundary, start, rs, |qs|, i - 1);
        assert |start.placed| + (i - 1) == i;
      }
    }
  }

  /** For every list of at most four partitions and every disk the run succeeds exactly when a grown last partition
      starts on the disk. Then only sector 0 is touched; it shows signature, magic and kinds; every partition reads
      back as placed if and only if its fields fit; and the sectors given to the partitions, all of which are
      read-only, are protected if and only if none is grown past the region. */
  method Provision(disk: DiskFile, n: nat, qs: seq<Request>, kinds: seq<Kind>, boundary: nat, alignBoundary: nat,
                   grow: bool, signature: nat) returns (wp: WriteProtectTable, ok: bool)
    requires boundary >= 1 && |qs| <= 4 && |kinds| == |qs| && Plain(qs) && n >= 1 && |disk.bytes| == n * SECTOR
    modifies disk
    ensures var p, count := MbrPlan(qs, boundary, alignBoundary, grow), |qs|;
            && wp.regions == p.regions && |p.placed| == 1 + count
            && (ok <==> (grow && qs != [] ==> p.placed[count].first <= n))
            && (ok ==>
                  && |disk.bytes| >= SECTOR && SectorZeroOnly(old(disk.bytes), disk.bytes)
                  && Framed(disk.bytes, signature) && UnusedZero(disk.bytes, count)
                  && (forall j :: 0 <= j < count ==> ShowsKind(disk.bytes, 446 + 16 * j, kinds[j]))
                  && (ReadsBack(disk.bytes, p, count, n) <==> FieldsFit(p, count, n))
                  && (FieldsFit(p, count, n) ==>
                        (AllProtected(disk.bytes, count, p.regions) <==>
                           !(grow && qs != []) || n - 1 < p.placed[count].first || n - 1 <= LastEnd(p.regions))))
  {
    hide MbrPlan, Geometry, Covered, Clear, NeverTrapped, GrowsReadonly, Splice, Run, ReadsBack;
    hide FieldsFit, AllProtected, HasEntry, ReadonlyProtected, Framed, UnusedZero, ShowsKind;
    ghost var p := MbrPlan(qs, boundary, alignBoundary, grow);
    MbrLayout(qs, boundary, alignBoundary, grow);
    PrimariesPlaced(qs, boundary, alignBoundary, grow);
    wp := new WriteProtectTable(boundary, FirstRegion(boundary));
    var placed := wp.PlaceMbr(qs, alignBoundary, grow);
    var ls := Describe(placed[1..], kinds);
    WritePrimaries(disk, n, ls, signature);
    ghost var ls' := ls;
    if grow && qs != [] {
      LastGrown(disk.bytes, n, ls);
      ghost var before := disk.bytes;
      ok := disk.PerformPatching([GrowPatch(|ls|, ls[|ls| - 1].start)]);
      if !ok {
        return;
      }
      ls' := WithLastSize(ls, n - ls[|ls| - 1].start);
      FramedStays(before, disk.bytes, signature);
    }
    ok := true;
    KindsShown(disk.bytes, n, ls', kinds);
    TableReadsBack(disk.bytes, n, ls', p, |qs|);
    if FieldsFit(p, |qs|, n) {
      TableProtection(disk.bytes, p, |qs|, n);
    }
  }

  lemma {:induction false} KindsShown(d: seq<byte>, n: nat, ls: seq<Ebr.Logical>, kinds: seq<Kind>)
    requires TableOf(d, n, ls) && Typed(ls, kinds)
    ensures forall j :: 0 <= j < |ls| ==> ShowsKind(d, 446 + 16 * j, kinds[j])
  {
    hide Ebr.EntryBytes, ShowsKind;
    forall j | 0 <= j < |ls|
      ensures ShowsKind(d, 446 + 16 * j, kinds[j])
    {
      assert HasEntry(d, j, ls[j]);
      EntryShows(d, Slot(j), ls[j].bootable, ls[j].kind, ls[j].start, ls[j].size);
      assert kinds[j] == Kind(ls[j].bootable, ls[j].kind);
    }
  }

  /** The MBR built and written to sector 0. */
  method WritePrimaries(disk: DiskFile, n: nat, ls: seq<Ebr.Logical>, signature: nat)
    requires n >= 1 && |disk.bytes| == n * SECTOR && |ls| <= 4
    modifies disk
    ensures TableOf(disk.bytes, n, ls) && SectorZeroOnly(old(disk.bytes), disk.bytes)
    ensures Framed(disk.bytes, signature) && UnusedZero(disk.bytes, |ls|)
  {
    hide Splice, Ebr.EntryBytes, Framed;
    var mbr := BuildPrimaries(ls, signature);
    SpliceAt(disk.bytes, 0, mbr);
    disk.Seek(0);
    disk.Write(mbr);
    assert disk.bytes[..SECTOR] == mbr;
    assert forall i :: 0 <= i < SECTOR ==> disk.bytes[i] == mbr[i];
    FramedPrefix(disk.bytes, mbr, signature);
    forall j | 0 <= j < |ls|
      ensures HasEntry(disk.bytes, j, ls[j])
    {
      SliceOfSlice(disk.bytes, 0, SECTOR, Slot(j), Slot(j) + 16);
      assert HasEntry(mbr, j, ls[j]);
    }
  }
}
