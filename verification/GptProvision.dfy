/** The whole GPT path in one run: ptool.py plans, builds images and emits patches; msp.py writes the images and applies
    the patches. */
module GptProvision {
  import opened Options
  import opened Bytes
  import opened Gpt
  import opened GptPatch
  import opened GptBuild
  import opened GptEntry
  import opened GptDisk
  import opened Layout
  import opened Planner
  import opened Patching

  /** With sequential GUIDs the unique GUID is the number of the partition, from 1. */
  function Numbered(l: Label, k: nat, sequential: bool): Label {
    if sequential then l.(uniqueGuid := k + 1) else l
  }

  /** Every entry is made from the label of its partition. */
  ghost predicate AllMade(es: seq<Entry>, qs: seq<Request>, labels: seq<Label>, sequential: bool) {
    |es| == |qs| == |labels|
    && forall k :: 0 <= k < |es| ==> MadeFrom(es[k], Numbered(labels[k], k, sequential), qs[k].readonly)
  }

  /** The entries of the placed partitions; the one for the table itself, if any, is skipped. */
  method ListEntries(placed: seq<Placed>, qs: seq<Request>, labels: seq<Label>, sequential: bool)
      returns (es: seq<Entry>)
    requires |qs| == |labels| <= |placed|
    requires forall i :: 0 <= i < |placed| ==> placed[i].first + placed[i].size >= 1
    ensures Lists(es, placed[|placed| - |labels|..]) && AllMade(es, qs, labels, sequential)
  {
    es := [];
    var skip := |placed| - |labels|;
    for k := 0 to |labels|
      invariant |es| == k
      invariant forall j :: 0 <= j < k ==>
              es[j].first == placed[skip + j].first && es[j].last + 1 == placed[skip + j].first + placed[skip + j].size
      invariant forall j :: 0 <= j < k ==> MadeFrom(es[j], Numbered(labels[j], j, sequential), qs[j].readonly)
    {
      var p, l := placed[skip + k], labels[k];
      var uniqueGuid := if sequential then k + 1 else l.uniqueGuid;
      var attributes := Attributes(l, qs[k].readonly);
      es := es + [Entry(l.typeGuid, uniqueGuid, p.first, p.first + p.size - 1, attributes, l.name)];
    }
  }

  /** Every entry of the finished array shows the label of its partition. */
  ghost predicate AllLabelled(a: seq<byte>, qs: seq<Request>, labels: seq<Label>, sequential: bool)
    requires |labels| == |qs|
  {
    forall k :: 0 <= k < |qs| ==> Labelled(a, k, Numbered(labels[k], k, sequential), qs[k].readonly)
  }

  /** Sizing the last partition changes no label. */
  lemma {:induction false} FinishedLabelled(es: seq<Entry>, qs: seq<Request>, labels: seq<Label>, sequential: bool,
                                            n: nat, grow: bool)
    requires |es| <= 128 && n >= 34 && AllMade(es, qs, labels, sequential)
    ensures AllLabelled(ArrayBytes(Finished(es, n, grow)), qs, labels, sequential)
  {
    hide ArrayBytes, Labelled, Attributes;
    forall k | 0 <= k < |qs|
      ensures Labelled(ArrayBytes(Finished(es, n, grow)), k, Numbered(labels[k], k, sequential), qs[k].readonly)
    {
      ArrayLabelled(Finished(es, n, grow), k, Numbered(labels[k], k, sequential), qs[k].readonly);
    }
  }

  lemma {:induction false} PlacedFrom(mode: Mode, boundary: nat, p: Plan, qs: seq<Request>, k: nat)
    requires boundary >= 1 && p.regions != [] && k <= |qs| && p.first >= 1
    requires forall i :: 0 <= i < |p.placed| ==> p.placed[i].first + p.placed[i].size >= 1
    ensures var r := Walk(mode, boundary, p, qs, k);
            r.first >= 1 && forall i :: 0 <= i < |r.placed| ==> r.placed[i].first + r.placed[i].size >= 1
    decreases k
  {
    hide Choose, WpUpdate;
    if k > 0 {
      PlacedFrom(mode, boundary, p, qs, k - 1);
    }
  }

  /** Both images written: gpt_main at sector 0, gpt_backup 33 sectors before the end. */
  method WriteImages(disk: DiskFile, n: nat, primary: array<byte>, backup: array<byte>)
    requires DiskOf(disk.bytes, n) && primary.Length == 34 * SECTOR && backup.Length == 33 * SECTOR
    modifies disk
    ensures DiskOf(disk.bytes, n)
    ensures disk.bytes[0..17408] == primary[..] && disk.bytes[(n - 33) * SECTOR..n * SECTOR] == backup[..]
    ensures disk.bytes[17408..(n - 33) * SECTOR] == old(disk.bytes)[17408..(n - 33) * SECTOR]
  {
    hide Splice;
    ghost var d0 := disk.bytes;
    disk.Seek(0);
    SpliceReads(d0, 0, primary[..]);
    SpliceDisjoint(d0, 0, primary[..], 17408, (n - 33) * SECTOR);
    disk.Write(primary[..]);
    ghost var d1 := disk.bytes;
    disk.Seek((n - 33) * SECTOR);
    SpliceReads(d1, (n - 33) * SECTOR, backup[..]);
    SpliceDisjoint(d1, (n - 33) * SECTOR, backup[..], 0, 17408);
    SpliceDisjoint(d1, (n - 33) * SECTOR, backup[..], 17408, (n - 33) * SECTOR);
    disk.Write(backup[..]);
  }

  lemma {:induction false} SpliceReads(d: seq<byte>, at: nat, t: seq<byte>)
    requires at + |t| <= |d|
    ensures Splice(d, at, t)[at..at + |t|] == t
  {
  }

  /** What the finished entry array says of protection, for a plan whose own table is covered: read-only partitions are
      protected unless the last one is grown beyond the last region; writable partitions are free if the plan is clear,
      as it is when every read-only partition but the last has sectors, and on a disk with room for all only then. */
  ghost predicate ProtectionKept(a: seq<byte>, qs: seq<Request>, p: Plan, grow: bool, n: nat)
    requires ENTRY * |qs| <= |a| && p.regions != []
  {
    && (ReadonlyHeld(a, qs, p.regions) <==>
          !(grow && qs != [] && qs[|qs| - 1].readonly) || n - 34 < p.first || n - 34 <= LastEnd(p.regions))
    && (Clear(p) ==> WritableFree(a, qs, p.regions))
    && (p.first <= n - 34 && WritableFree(a, qs, p.regions) ==> Clear(p))
    && ((forall i :: 0 <= i < |qs| - 1 && qs[i].readonly ==> qs[i].size >= 1) ==> Clear(p))
  }

  lemma {:induction false} ProtectionFollows(qs: seq<Request>, boundary: nat, alignPerf: bool, protectTable: bool,
                                             grow: bool, p: Plan, es: seq<Entry>, n: nat)
    requires boundary >= 1 && (protectTable ==> boundary >= GPT_SECTORS) && Plain(qs)
    requires p == GptPlan(qs, boundary, alignPerf, protectTable, grow) && Implements(es, p, |qs|)
    requires 34 <= n < TWO64
    ensures ProtectionKept(ArrayBytes(Finished(es, n, grow)), qs, p, grow, n)
  {
    hide GptPlan, ArrayBytes, ReadonlyHeld, WritableFree, Clear;
    FinishedTableRespectsProtection(qs, boundary, alignPerf, protectTable, grow, p, es, n);
    if forall i :: 0 <= i < |qs| - 1 && qs[i].readonly ==> qs[i].size >= 1 {
      GptWritableStaysWritable(qs, boundary, alignPerf, protectTable, grow);
    }
  }

  /** On every disk and for every list of at most 128 partitions the run succeeds and leaves two valid partition
      tables with identical entry arrays. Every entry shows the label of its partition and reads back as it was placed,
      apart from the others if the plan fits the disk, and has usable sectors exactly when the requests and the plan
      allow it (`Fits`); protection is kept as far as `ProtectionKept` says; and nothing else is
      touched. */
  method Provision(disk: DiskFile, n: nat, qs: seq<Request>, labels: seq<Label>, boundary: nat, alignPerf: bool,
                   protectTable: bool, grow: bool, force128: bool, sequential: bool, signature: nat)
      returns (wp: WriteProtectTable, ok: bool)
    requires DiskOf(disk.bytes, n) && n * SECTOR < TWO64
    requires |qs| == |labels| <= 128 && Plain(qs) && boundary >= 1
    requires GptPlan(qs, boundary, alignPerf, protectTable, grow).first < TWO64
    modifies disk
    ensures ok && DiskOf(disk.bytes, n)
    ensures var num := NumEntries(|qs|, force128);
            ValidHeader(disk.bytes, 1, n - 1, 2, n - 34, num) && ValidHeader(disk.bytes, n - 1, 1, n - 33, n - 34, num)
    ensures disk.bytes[0..SECTOR] == Boot(signature)
    ensures disk.bytes[1024..17408] == disk.bytes[(n - 33) * SECTOR..(n - 1) * SECTOR]
    ensures var a, p := disk.bytes[1024..17408], GptPlan(qs, boundary, alignPerf, protectTable, grow);
            && wp.regions == p.regions && AllReadBack(a, p, |qs|, n) && AllLabelled(a, qs, labels, sequential)
            && (p.first <= n - 33 ==> Arranged(a, |qs|, n)) && (Proper(a, |qs|, n) <==> Fits(qs, grow, p, n))
            && (protectTable && boundary < GPT_SECTORS ==> !Protected(wp.regions, 33))
            && ((protectTable ==> boundary >= GPT_SECTORS) ==> ProtectionKept(a, qs, p, grow, n))
    ensures disk.bytes[17408..(n - 33) * SECTOR] == old(disk.bytes)[17408..(n - 33) * SECTOR]
  {
    hide GptPlan, ValidHeader, ArrayBytes, ProtectionKept, Boot, Finished;
    hide AllReadBack, Arranged, Proper, Fits, Protected, AllMade, AllLabelled;
    wp := new WriteProtectTable(boundary, if protectTable then FirstRegion(boundary) else PLACEHOLDER);
    var placed := wp.PlaceGpt(qs, alignPerf, protectTable, grow);
    ghost var p := GptPlan(qs, boundary, alignPerf, protectTable, grow);
    PlanPlaces(qs, boundary, alignPerf, protectTable, grow);
    var es := ListEntries(placed, qs, labels, sequential);
    FinishedLabelled(es, qs, labels, sequential, n, grow);
    var num := NumEntries(|es|, force128);
    FinishedTableReadsBack(qs, boundary, alignPerf, protectTable, grow, p, es, n);
    if protectTable ==> boundary >= GPT_SECTORS {
      ProtectionFollows(qs, boundary, alignPerf, protectTable, grow, p, es, n);
    } else {
      TableProtected(qs, boundary, alignPerf, grow);
    }
    ok := WriteTables(disk, n, es, num, grow, signature);
  }

  /** Images built and written, patches emitted and applied, for given entries. */
  method WriteTables(disk: DiskFile, n: nat, es: seq<Entry>, num: nat, grow: bool, signature: nat) returns (ok: bool)
    requires DiskOf(disk.bytes, n) && n * SECTOR < TWO64 && |es| <= num <= 128
    modifies disk
    ensures ok && DiskOf(disk.bytes, n)
    ensures ValidHeader(disk.bytes, 1, n - 1, 2, n - 34, num) && ValidHeader(disk.bytes, n - 1, 1, n - 33, n - 34, num)
    ensures disk.bytes[0..SECTOR] == Boot(signature)
    ensures disk.bytes[1024..17408] == ArrayBytes(Finished(es, n, grow))
    ensures disk.bytes[(n - 33) * SECTOR..(n - 1) * SECTOR] == ArrayBytes(Finished(es, n, grow))
    ensures disk.bytes[17408..(n - 33) * SECTOR] == old(disk.bytes)[17408..(n - 33) * SECTOR]
  {
    hide ValidHeader, HeaderSector, ArrayBytes, Run, BuiltTables, GptPatches, Shows, Boot;
    var primary, backup := BuildImages(es, num, signature);
    ImageLengths(primary, backup, es, num, signature);
    WriteImages(disk, n, primary, backup);
    ghost var data := disk.bytes[17408..(n - 33) * SECTOR];
    WrittenDiskShows(disk.bytes, n, es, num, Boot(signature));
    ghost var d' := PatchedDiskIsValid(disk.bytes, n, es, num, grow, Boot(signature), data);
    ok := disk.PerformPatching(GptPatches(|es|, grow, num * ENTRY));
  }

  lemma {:induction false} PlanPlaces(qs: seq<Request>, boundary: nat, alignPerf: bool, protectTable: bool, grow: bool)
    requires boundary >= 1
    ensures var p := GptPlan(qs, boundary, alignPerf, protectTable, grow);
            forall i :: 0 <= i < |p.placed| ==> p.placed[i].first + p.placed[i].size >= 1
  {
    hide Walk, WpUpdate;
    PlacedFrom(Mode.Gpt(alignPerf), boundary, GptStart(boundary, protectTable), GptRequests(qs, grow), |qs|);
  }

  lemma {:induction false} ImageLengths(primary: array<byte>, backup: array<byte>, es: seq<Entry>, num: nat,
                                        signature: nat)
    requires |es| <= 128 && num <= 128
    requires var t := BuiltTables(es, num);
             && primary[..] == Boot(signature) + HeaderSector(t.h1, t.c1) + ArrayBytes(es)
             && backup[..] == ArrayBytes(es) + HeaderSector(t.h2, t.c2)
    ensures primary.Length == 34 * SECTOR && backup.Length == 33 * SECTOR
  {
    hide HeaderSector, ArrayBytes, BuiltTables, Boot;
    assert |primary[..]| == 34 * SECTOR && |backup[..]| == 33 * SECTOR;
  }
}
