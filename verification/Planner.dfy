/** ptool.py's two partitioners, CreateGPTPartitionTable and CreateMBRPartitionTable, as layouts:
    the object that holds hash_w, and what the resulting layouts guarantee. */
module Planner {
  import opened Layout

  const GPT_SECTORS := 34

  // ----- the GPT layout -----

  /** A last partition that fills the disk is planned with no sectors and sized by a patch. */
  function GptRequests(qs: seq<Request>, grow: bool): (r: seq<Request>)
    ensures |r| == |qs|
  {
    if grow && qs != [] then qs[|qs| - 1 := qs[|qs| - 1].(size := 0, grown := true)] else qs
  }

  function GptStart(boundary: nat, protectTable: bool): (p: Plan)
    requires boundary >= 1
    ensures p.regions != []
  {
    if protectTable then
      Plan(GPT_SECTORS, WpUpdate([FirstRegion(boundary)], GPT_SECTORS, 0, boundary),
          [Placed(0, GPT_SECTORS, true, false)])
    else
      Plan(GPT_SECTORS, [PLACEHOLDER], [])
  }

  function GptPlan(qs: seq<Request>, boundary: nat, alignPerf: bool, protectTable: bool, grow: bool): (p: Plan)
    requires boundary >= 1
    ensures p.regions != [] && |p.placed| >= |qs|
  {
    Walk(Gpt(alignPerf), boundary, GptStart(boundary, protectTable), GptRequests(qs, grow), |qs|)
  }

  // ----- the MBR layout -----

  /** Every primary partition is read-only. One that is last on the disk is sized when the disk is patched if `grow`
      says so, but keeps its planned size. */
  function PrimaryRequests(qs: seq<Request>, grow: bool): (r: seq<Request>)
    ensures |r| == |qs|
    ensures forall i :: 0 <= i < |r| ==>
              r[i] == qs[i].(readonly := true, grown := qs[i].grown || (grow && i == |qs| - 1))
  {
    seq(|qs|, i requires 0 <= i < |qs| =>
      qs[i].(readonly := true, grown := qs[i].grown || (grow && i == |qs| - 1)))
  }

  /** The last logical partition cannot be read-only, and is sized when the disk is patched whatever `grow` says. */
  function LogicalRequests(qs: seq<Request>, grow: bool): (r: seq<Request>)
    ensures |r| == |qs|
  {
    if qs == [] then []
    else
      var last := qs[|qs| - 1].(readonly := false, grown := true);
      qs[|qs| - 1 := if grow then last.(size := 0) else last]
  }

  /** Sector 0 holds the MBR. */
  function MbrStart(boundary: nat): Plan
    requires boundary >= 1
  {
    Plan(1, [FirstRegion(boundary)], [Placed(0, 1, true, false)])
  }

  function PrimaryPlan(qs: seq<Request>, boundary: nat, grow: bool): (p: Plan)
    requires boundary >= 1
    ensures p.regions != [] && |p.placed| == 1 + |qs|
  {
    Walk(Primary, boundary, MbrStart(boundary), PrimaryRequests(qs, grow), |qs|)
  }

  /** The EBR tables follow the three primaries, one sector for each logical partition. */
  function EbrRequest(n: nat): Request {
    Request(true, false, n, 0, false)
  }

  function ExtendedStart(qs: seq<Request>, boundary: nat): (p: Plan)
    requires boundary >= 1 && |qs| > 4
    ensures p.regions != []
  {
    var p := PrimaryPlan(qs[..3], boundary, false);
    Put(p, p.first, EbrRequest(|qs| - 3), boundary)
  }

  function MbrPlan(qs: seq<Request>, boundary: nat, alignBoundary: nat, grow: bool): (p: Plan)
    requires boundary >= 1
    ensures p.regions != []
  {
    if |qs| <= 4 then PrimaryPlan(qs, boundary, grow)
    else Walk(Logical(alignBoundary), boundary, ExtendedStart(qs, boundary), LogicalRequests(qs[3..], grow), |qs| - 3)
  }

  // ----- guarantees -----

  ghost predicate Plain(qs: seq<Request>) {
    forall i :: 0 <= i < |qs| ==> !qs[i].grown
  }

  lemma {:induction false} GptStartSound(boundary: nat, protectTable: bool, alignPerf: bool)
    requires boundary >= 1 && (protectTable ==> boundary >= GPT_SECTORS)
    ensures var p := GptStart(boundary, protectTable);
            Sound(Gpt(alignPerf), boundary, p) && Loose(p, boundary) && Clear(p) && NoneGrown(p)
  {
    var p := GptStart(boundary, protectTable);
    if protectTable {
      FirstRegionWellFormed(boundary);
      assert p.regions == [FirstRegion(boundary)];
      assert Inside(p.placed[0], p.regions[0]);
    }
  }

  lemma {:induction false} FirstRegionWellFormed(boundary: nat)
    requires boundary >= 1
    ensures WellFormed(FirstRegion(boundary), boundary)
  {
  }

  /** With a boundary below 34 sectors, the region of the table ends before sector 33 and the next starts at 34 or
      later. */
  ghost predicate TableGap(p: Plan) {
    && |p.regions| >= 2 && p.first >= GPT_SECTORS && p.regions[0].end < GPT_SECTORS - 1
    && forall i :: 1 <= i < |p.regions| ==> p.regions[i].start >= GPT_SECTORS
  }

  lemma {:induction false} WalkKeepsGap(mode: Mode, boundary: nat, p: Plan, qs: seq<Request>, k: nat)
    requires boundary >= 1 && k <= |qs| && TableGap(p)
    ensures TableGap(Walk(mode, boundary, p, qs, k))
    decreases k
  {
    hide Choose, Extend;
    if k > 0 {
      WalkKeepsGap(mode, boundary, p, qs, k - 1);
    }
  }

  /** In the finished plan the 34 sectors of the GPT are all protected exactly when the boundary spans them; otherwise
      sector 33 never is, whatever is placed. */
  lemma {:induction false} TableProtected(qs: seq<Request>, boundary: nat, alignPerf: bool, grow: bool)
    requires boundary >= 1 && Plain(qs)
    ensures var rs := GptPlan(qs, boundary, alignPerf, true, grow).regions;
            && ((forall x: nat :: x < GPT_SECTORS ==> Protected(rs, x)) <==> boundary >= GPT_SECTORS)
            && (boundary < GPT_SECTORS ==> !Protected(rs, 33))
  {
    hide Choose, WpUpdate, Walk, Geometry, NeverTrapped, Clear, ReadonlyProtected;
    var p := GptPlan(qs, boundary, alignPerf, true, grow);
    if boundary >= GPT_SECTORS {
      GptLayout(qs, boundary, alignPerf, true, grow);
      WalkPrefix(Gpt(alignPerf), boundary, GptStart(boundary, true), GptRequests(qs, grow), |qs|, 0);
      assert p.placed[0] == Placed(0, GPT_SECTORS, true, false);
      var k :| 0 <= k < |p.regions| && Inside(p.placed[0], p.regions[k]);
      forall x: nat | x < GPT_SECTORS
        ensures Protected(p.regions, x)
      {
        assert p.regions[k].start <= x <= p.regions[k].end;
      }
    } else {
      GapAtStart(boundary);
      WalkKeepsGap(Gpt(alignPerf), boundary, GptStart(boundary, true), GptRequests(qs, grow), |qs|);
      assert !Protected(p.regions, 33);
    }
  }

  lemma {:induction false} GapAtStart(boundary: nat)
    requires 1 <= boundary < GPT_SECTORS
    ensures TableGap(GptStart(boundary, true))
  {
  }

  /** Every GPT layout: regions whole, ascending, separated; partitions ordered and disjoint; read-only
      partitions and protected tables inside a region; a read-only last partition that is grown protected up to sector
      `limit` exactly when the last region reaches that far; and writable partitions outside all regions exactly when no
      step was trapped. */
  lemma {:induction false} GptLayout(qs: seq<Request>, boundary: nat, alignPerf: bool, protectTable: bool, grow: bool)
    requires boundary >= 1 && (protectTable ==> boundary >= GPT_SECTORS) && Plain(qs)
    ensures var p := GptPlan(qs, boundary, alignPerf, protectTable, grow);
            && Geometry(p, boundary) && Covered(p) && GrownAtEnd(p) && GrownBelow(p)
            && (forall limit: int :: ReadonlyProtected(p, limit) <==>
                  !(grow && qs != [] && qs[|qs| - 1].readonly) || limit < p.first || limit <= LastEnd(p.regions))
            && (Clear(p) <==>
                  NeverTrapped(Gpt(alignPerf), boundary, GptStart(boundary, protectTable), GptRequests(qs, grow), |qs|))
  {
    hide Choose, WpUpdate, Geometry, Covered, Clear, ReadonlyProtected, NeverTrapped, GrowsReadonly, GrownBelow;
    var p, rs := GptStart(boundary, protectTable), GptRequests(qs, grow);
    var r := Walk(Gpt(alignPerf), boundary, p, rs, |qs|);
    GptStartSound(boundary, protectTable, alignPerf);
    WalkKeeps(Gpt(alignPerf), boundary, p, rs, |qs|);
    WalkClear(Gpt(alignPerf), boundary, p, rs, |qs|);
    WalkGrownAtEnd(Gpt(alignPerf), boundary, p, rs);
    GrownFlag(qs, boundary, alignPerf, protectTable, grow);
    AtEndIsBelow(r, boundary);
    forall limit: int
      ensures ReadonlyProtected(r, limit) <==>
              !(grow && qs != [] && qs[|qs| - 1].readonly) || limit < r.first || limit <= LastEnd(r.regions)
    {
      ReadonlyProtectedExactly(r, boundary, limit);
    }
  }

  /** A grown read-only partition is in the plan exactly if one was asked for. */
  lemma {:induction false} GrownFlag(qs: seq<Request>, boundary: nat, alignPerf: bool, protectTable: bool, grow: bool)
    requires boundary >= 1 && Plain(qs)
    ensures var p := GptPlan(qs, boundary, alignPerf, protectTable, grow);
            && (GrowsReadonly(p) <==> grow && qs != [] && qs[|qs| - 1].readonly)
            && (grow && qs != [] ==> p.placed[|p.placed| - 1].first == p.first)
  {
    hide Choose, WpUpdate;
    var start, rs := GptStart(boundary, protectTable), GptRequests(qs, grow);
    var p := GptPlan(qs, boundary, alignPerf, protectTable, grow);
    if qs != [] {
      WalkNoneGrown(Gpt(alignPerf), boundary, start, rs, |qs| - 1);
      assert p.placed[|p.placed| - 1].readonly == rs[|qs| - 1].readonly;
      assert p.placed[|p.placed| - 1].grown == rs[|qs| - 1].grown;
    }
  }

  /** A grown read-only last partition is not protected on a disk that is larger than its region: here sectors 128 to
      200 of a partition that starts at 64. */
  lemma {:induction false} GrownReadonlyExposed()
    ensures var p := GptPlan([Request(true, false, 8, 0, false)], 64, false, false, true);
            && p.placed == [Placed(64, 0, true, true)] && Clear(p) && Covered(p)
            && forall x: nat :: x >= 128 ==> !Protected(p.regions, x) && Holds(p.placed[0], x, x)
  {
    var qs := [Request(true, false, 8, 0, false)];
    var start, rs := GptStart(64, false), GptRequests(qs, true);
    var p := GptPlan(qs, 64, false, false, true);
    GptLayout(qs, 64, false, false, true);
    assert Walk(Gpt(false), 64, start, rs, 0) == start;
    assert Choose(Gpt(false), 64, 34, 0, rs[0]) == 64;
    assert p == Plan(64, [PLACEHOLDER, Region(64, 64, 127, 1, 1)], [Placed(64, 0, true, true)]);
  }

  /** If every read-only partition but the last has sectors, no writable partition is ever protected. */
  lemma {:induction false} GptWritableStaysWritable(qs: seq<Request>, boundary: nat, alignPerf: bool,
                                                    protectTable: bool, grow: bool)
    requires boundary >= 1 && (protectTable ==> boundary >= GPT_SECTORS) && Plain(qs)
    requires forall i :: 0 <= i < |qs| - 1 && qs[i].readonly ==> qs[i].size >= 1
    ensures Clear(GptPlan(qs, boundary, alignPerf, protectTable, grow))
  {
    GptStartSound(boundary, protectTable, alignPerf);
    SaneIsClear(Gpt(alignPerf), boundary, GptStart(boundary, protectTable), GptRequests(qs, grow));
  }

  /** Without that condition the guarantee fails: an empty read-only partition opens a region, and the
      writable partition after it already sits on a boundary, so it is not moved out. */
  lemma {:induction false} EmptyReadonlyTraps()
    ensures var qs := [Request(true, false, 0, 0, false), Request(false, false, 8, 0, false)];
            !Clear(GptPlan(qs, 64, false, false, false))
  {
    var qs := [Request(true, false, 0, 0, false), Request(false, false, 8, 0, false)];
    var p := GptStart(64, false);
    var one := Walk(Gpt(false), 64, p, qs, 1);
    assert one == Advance(Gpt(false), 64, Walk(Gpt(false), 64, p, qs, 0), qs[0]);
    assert Choose(Gpt(false), 64, 34, 0, qs[0]) == 64;
    assert one == Plan(64, [PLACEHOLDER, Region(64, 64, 127, 1, 1)], [Placed(64, 0, true, false)]);
    var two := Walk(Gpt(false), 64, p, qs, 2);
    assert two == Advance(Gpt(false), 64, one, qs[1]);
    assert two.placed[1] == Placed(64, 8, false, false);
    assert Overlaps(two.placed[1], two.regions[1]);
  }

  lemma {:induction false} MbrStartSound(boundary: nat)
    requires boundary >= 1
    ensures var p := MbrStart(boundary);
            Sound(Primary, boundary, p) && Loose(p, boundary) && Clear(p) && NoneGrown(p)
  {
    FirstRegionWellFormed(boundary);
    var p := MbrStart(boundary);
    assert Inside(p.placed[0], p.regions[0]);
  }

  lemma {:induction false} PrimarySound(qs: seq<Request>, boundary: nat, grow: bool)
    requires boundary >= 1 && Plain(qs)
    ensures var p := PrimaryPlan(qs, boundary, grow);
            Sound(Primary, boundary, p) && Clear(p) && Loose(p, boundary) && (!grow ==> NoneGrown(p))
  {
    var p, rs := MbrStart(boundary), PrimaryRequests(qs, grow);
    MbrStartSound(boundary);
    WalkKeeps(Primary, boundary, p, rs, |rs|);
    SaneIsClear(Primary, boundary, p, rs);
    PrimaryLoose(p, rs, |rs|, boundary);
    if !grow {
      WalkNoneGrown(Primary, boundary, p, rs, |rs|);
    }
  }

  lemma {:induction false} PrimaryLoose(p: Plan, rs: seq<Request>, k: nat, boundary: nat)
    requires Sound(Primary, boundary, p) && Loose(p, boundary) && k <= |rs|
    requires forall i :: 0 <= i < |rs| ==> rs[i].readonly
    ensures Loose(Walk(Primary, boundary, p, rs, k), boundary)
  {
    hide Choose, Geometry, Covered, Put;
    if k > 0 {
      PrimaryLoose(p, rs, k - 1, boundary);
      WalkKeeps(Primary, boundary, p, rs, k - 1);
      AdvanceLoose(Primary, boundary, Walk(Primary, boundary, p, rs, k - 1), rs[k - 1]);
    }
  }

  lemma {:induction false} ExtendedSound(qs: seq<Request>, boundary: nat, alignBoundary: nat)
    requires boundary >= 1 && Plain(qs) && |qs| > 4
    ensures var p := ExtendedStart(qs, boundary);
            Sound(Logical(alignBoundary), boundary, p) && Clear(p) && NoneGrown(p) && Loose(p, boundary)
  {
    PrimarySound(qs[..3], boundary, false);
    var p, q := PrimaryPlan(qs[..3], boundary, false), EbrRequest(|qs| - 3);
    PutGeometry(p, p.first, q, boundary);
    PutCovered(p, p.first, q, boundary);
    PutClear(p, p.first, q, boundary);
    PutLoose(p, p.first, q, boundary);
  }

  /** Every MBR layout: as for GPT, with the MBR sector, the primaries and the EBR tables protected. With more than four
      partitions the last is writable, so all read-only partitions are protected however large the disk; with at most
      four a last one that is grown is protected up to sector `limit` exactly when the region reaches that far. */
  lemma {:induction false} MbrLayout(qs: seq<Request>, boundary: nat, alignBoundary: nat, grow: bool)
    requires boundary >= 1 && Plain(qs)
    ensures var p := MbrPlan(qs, boundary, alignBoundary, grow);
            && Geometry(p, boundary) && Covered(p)
            && (GrowsReadonly(p) <==> grow && 1 <= |qs| <= 4)
            && (forall limit: int :: ReadonlyProtected(p, limit) <==>
                  !(grow && 1 <= |qs| <= 4) || limit < p.placed[|p.placed| - 1].first || limit <= LastEnd(p.regions))
            && (Clear(p) <==> |qs| <= 4 || NeverTrapped(Logical(alignBoundary), boundary, ExtendedStart(qs, boundary),
                                                        LogicalRequests(qs[3..], grow), |qs| - 3))
  {
    hide Choose, WpUpdate, Geometry, Covered, Clear, NeverTrapped, Put, ReadonlyProtected, GrowsReadonly, GrownBelow;
    var p := MbrPlan(qs, boundary, alignBoundary, grow);
    if |qs| <= 4 {
      PrimarySound(qs, boundary, grow);
      PrimaryGrown(qs, boundary, grow);
    } else {
      var start, rs := ExtendedStart(qs, boundary), LogicalRequests(qs[3..], grow);
      ExtendedSound(qs, boundary, alignBoundary);
      WalkKeeps(Logical(alignBoundary), boundary, start, rs, |rs|);
      WalkClear(Logical(alignBoundary), boundary, start, rs, |rs|);
      LastIsWritable(Logical(alignBoundary), boundary, start, rs);
      NoneToGrow(p);
    }
    forall limit: int
      ensures ReadonlyProtected(p, limit) <==>
              !(grow && 1 <= |qs| <= 4) || limit < p.placed[|p.placed| - 1].first || limit <= LastEnd(p.regions)
    {
      ReadonlyProtectedExactly(p, boundary, limit);
    }
  }

  lemma {:induction false} NoneToGrow(p: Plan)
    requires !GrowsReadonly(p) && p.regions != [] && p.placed != []
    ensures GrownBelow(p)
  {
  }

  /** Primaries are packed into one region that starts at sector 0, and only a last one is grown. */
  lemma {:induction false} PrimaryGrown(qs: seq<Request>, boundary: nat, grow: bool)
    requires boundary >= 1 && Plain(qs)
    ensures var p := PrimaryPlan(qs, boundary, grow);
            && GrownBelow(p) && (GrowsReadonly(p) <==> grow && qs != [])
  {
    hide Choose, WpUpdate;
    var start, rs := MbrStart(boundary), PrimaryRequests(qs, grow);
    OneRegion(boundary, start, rs, |qs|);
    if qs != [] {
      WalkNoneGrown(Primary, boundary, start, rs, |qs| - 1);
      var p := PrimaryPlan(qs, boundary, grow);
      assert p.placed[|p.placed| - 1].readonly && p.placed[|p.placed| - 1].grown == grow;
    }
  }

  lemma {:induction false} OneRegion(boundary: nat, p: Plan, rs: seq<Request>, k: nat)
    requires boundary >= 1 && Sound(Primary, boundary, p) && |p.regions| == 1 && p.regions[0].start == 0 && k <= |rs|
    requires forall i :: 0 <= i < |rs| ==> rs[i].readonly
    ensures var r := Walk(Primary, boundary, p, rs, k); |r.regions| == 1 && r.regions[0].start == 0
    decreases k
  {
    hide Geometry, Covered, Put, Choose;
    if k > 0 {
      OneRegion(boundary, p, rs, k - 1);
      WalkKeeps(Primary, boundary, p, rs, k - 1);
      OneRegionStep(boundary, Walk(Primary, boundary, p, rs, k - 1), rs[k - 1]);
    }
  }

  lemma {:induction false} OneRegionStep(boundary: nat, p: Plan, q: Request)
    requires boundary >= 1 && |p.regions| == 1 && p.regions[0].start == 0 && p.first <= LastEnd(p.regions) + 1
    ensures var r := Advance(Primary, boundary, p, q); |r.regions| == 1 && r.regions[0].start == 0
  {
    hide Extend;
  }

  /** A grown primary is not protected on a disk that is larger than the region: here every sector from 64 on of a
      partition that starts at 1. */
  lemma {:induction false} GrownPrimaryExposed()
    ensures var p := MbrPlan([Request(false, false, 8, 0, false)], 64, 64, true);
            && p.placed[1] == Placed(1, 8, true, true)
            && forall x: nat :: x >= 64 ==> !Protected(p.regions, x) && Holds(p.placed[1], x, x)
  {
    var qs := [Request(false, false, 8, 0, false)];
    var start, rs := MbrStart(64), PrimaryRequests(qs, true);
    assert Walk(Primary, 64, start, rs, 0) == start;
    assert MbrPlan(qs, 64, 64, true) == Advance(Primary, 64, start, rs[0]);
    assert MbrPlan(qs, 64, 64, true).regions == [FirstRegion(64)];
  }

  lemma {:induction false} LastIsWritable(mode: Mode, boundary: nat, p: Plan, rs: seq<Request>)
    requires boundary >= 1 && p.regions != [] && NoneGrown(p) && GrownLast(rs) && rs != [] && !rs[|rs| - 1].readonly
    ensures !GrowsReadonly(Walk(mode, boundary, p, rs, |rs|))
  {
    hide Choose, WpUpdate;
    WalkNoneGrown(mode, boundary, p, rs, |rs| - 1);
  }

  /** Read-only logical partitions with sectors, and an alignment boundary made of whole write-protect
      boundaries, keep every writable partition writable. */
  lemma {:induction false} MbrWritableStaysWritable(qs: seq<Request>, boundary: nat, alignBoundary: nat, grow: bool)
    requires boundary >= 1 && Plain(qs) && alignBoundary > 0 && alignBoundary % boundary == 0
    requires forall i :: 3 <= i < |qs| - 1 && qs[i].readonly ==> qs[i].size >= 1
    ensures Clear(MbrPlan(qs, boundary, alignBoundary, grow))
  {
    hide Choose, Geometry, Covered, Clear, ExtendedStart;
    if |qs| <= 4 {
      PrimarySound(qs, boundary, grow);
    } else {
      ExtendedSound(qs, boundary, alignBoundary);
      SaneIsClear(Logical(alignBoundary), boundary, ExtendedStart(qs, boundary), LogicalRequests(qs[3..], grow));
    }
  }

  // ----- the program -----

  /** hash_w with its list of regions, and the two walks that grow it. */
  class WriteProtectTable {
    const boundary: nat
    var regions: seq<Region>

    ghost predicate Valid()
      reads this
    {
      boundary >= 1 && regions != []
    }

    constructor (boundary: nat, first: Region)
      requires boundary >= 1
      ensures Valid() && this.boundary == boundary && regions == [first]
    {
      this.boundary := boundary;
      this.regions := [first];
    }

    /** ptool.py UpdateWPhash. */
    method UpdateWPhash(start: nat, size: nat)
      requires Valid()
      modifies this
      ensures Valid() && regions == WpUpdate(old(regions), start, size, boundary)
    {
      var n := |regions| - 1;
      if start - 1 <= regions[n].end {
        GrowLast(start + size - 1);
      } else {
        regions := regions + [Region(start, boundary, start + boundary - 1, 0, 1)];
        n := n + 1;
        regions := regions[n := regions[n].(boundaryNum := start / boundary)];
        GrowLast(start + size - 1);
        regions := regions[n := regions[n].(covered := regions[n].num / boundary)];
        ExtendCovered(Region(start, boundary, start + boundary - 1, start / boundary, 1), start + size - 1, boundary);
      }
    }

    method GrowLast(last: int)
      requires Valid()
      modifies this
      ensures Valid()
      ensures var n := |old(regions)| - 1;
              regions == old(regions)[n := Extend(old(regions)[n], last, boundary)]
    {
      var n := |regions| - 1;
      while last > regions[n].end
        invariant Valid() && |regions| == n + 1
        invariant regions == old(regions)[n := regions[n]]
        invariant Extend(regions[n], last, boundary) == Extend(old(regions)[n], last, boundary)
        decreases last - regions[n].end
      {
        var r := regions[n];
        regions := regions[n := r.(num := r.num + boundary, end := r.end + boundary,
            covered := (r.num + boundary) / boundary)];
      }
    }

    /** Where CreateGPTPartitionTable moves the start of a partition. */
    method MoveGpt(first: nat, q: Request, alignPerf: bool) returns (firstLBA: nat)
      requires Valid()
      ensures forall size, grown ::
        firstLBA == Choose(Gpt(alignPerf), boundary, first, LastEnd(regions), q.(size := size, grown := grown))
    {
      firstLBA := first;
      if alignPerf {
        var till := Till(firstLBA, q.perf);
        if till > 0 {
          firstLBA := firstLBA + till;
        }
      }
      var tillWp := Till(firstLBA, boundary);
      if q.readonly {
        if !(firstLBA <= regions[|regions| - 1].end) {
          firstLBA := firstLBA + tillWp;
        }
      } else if firstLBA <= regions[|regions| - 1].end {
        firstLBA := firstLBA + tillWp;
      }
    }

    /** Where CreateExtendedBootRecords moves the start of a logical partition. */
    method MoveLogical(first: nat, q: Request, alignBoundary: nat) returns (firstLBA: nat)
      requires Valid()
      ensures firstLBA == Choose(Logical(alignBoundary), boundary, first, LastEnd(regions), q)
    {
      firstLBA := first;
      var till := Till(firstLBA, boundary);
      if q.readonly {
        if !(firstLBA <= regions[|regions| - 1].end) {
          firstLBA := firstLBA + till;
        }
      } else if q.align {
        till := Till(firstLBA, alignBoundary);
        if till > 0 {
          firstLBA := firstLBA + till;
        }
      } else if firstLBA <= regions[|regions| - 1].end {
        firstLBA := firstLBA + till;
      }
    }

    /** The partition loop of CreateGPTPartitionTable. */
    method PlaceGpt(qs: seq<Request>, alignPerf: bool, protectTable: bool, grow: bool) returns (placed: seq<Placed>)
      requires Valid() && regions == [if protectTable then FirstRegion(boundary) else PLACEHOLDER]
      modifies this
      ensures Valid()
      ensures var p := GptPlan(qs, boundary, alignPerf, protectTable, grow);
              regions == p.regions && placed == p.placed
    {
      hide Choose, WpUpdate;
      var firstLBA: nat := GPT_SECTORS;
      placed := [];
      if protectTable {
        UpdateWPhash(firstLBA, 0);
        placed := [Placed(0, GPT_SECTORS, true, false)];
      }
      ghost var start, rs := GptStart(boundary, protectTable), GptRequests(qs, grow);
      for j := 0 to |qs|
        invariant Valid()
        invariant Plan(firstLBA, regions, placed) == Walk(Gpt(alignPerf), boundary, start, rs, j)
      {
        var q := qs[j];
        firstLBA := MoveGpt(firstLBA, q, alignPerf);
        if j + 1 == |qs| && grow {
          q := q.(size := 0, grown := true);
        }
        assert q == rs[j];
        var lastLBA := firstLBA + q.size - 1;
        if q.readonly {
          UpdateWPhash(firstLBA, q.size);
        }
        placed := placed + [Placed(firstLBA, q.size, q.readonly, q.grown)];
        lastLBA := lastLBA + 1;
        firstLBA := lastLBA;
      }
    }

    /** The loop of CreateMasterBootRecord over `qs`. */
    method PlacePrimaries(qs: seq<Request>, grow: bool) returns (firstLBA: nat, placed: seq<Placed>)
      requires Valid() && regions == [FirstRegion(boundary)]
      modifies this
      ensures Valid() && Plan(firstLBA, regions, placed) == PrimaryPlan(qs, boundary, grow)
    {
      hide WpUpdate;
      firstLBA := 1;
      var lastLBA: nat := 1;
      placed := [Placed(0, 1, true, false)];
      ghost var rs := PrimaryRequests(qs, grow);
      for j := 0 to |qs|
        invariant Valid() && lastLBA == firstLBA
        invariant Plan(firstLBA, regions, placed) == Walk(Primary, boundary, MbrStart(boundary), rs, j)
      {
        var q := qs[j].(readonly := true);
        if j + 1 == |qs| && grow {
          q := q.(grown := true);
        }
        assert q == rs[j];
        UpdateWPhash(firstLBA, q.size);
        lastLBA := lastLBA + q.size;
        placed := placed + [Placed(firstLBA, q.size, q.readonly, q.grown)];
        firstLBA := lastLBA;
      }
    }

    /** CreateMBRPartitionTable: primaries, then the EBR tables, then the logical partitions. */
    method PlaceMbr(qs: seq<Request>, alignBoundary: nat, grow: bool) returns (placed: seq<Placed>)
      requires Valid() && regions == [FirstRegion(boundary)]
      modifies this
      ensures Valid()
      ensures var p := MbrPlan(qs, boundary, alignBoundary, grow);
              regions == p.regions && placed == p.placed
    {
      hide Choose, WpUpdate;
      var firstLBA: nat;
      if |qs| <= 4 {
        firstLBA, placed := PlacePrimaries(qs, grow);
        return;
      }
      firstLBA, placed := PlacePrimaries(qs[..3], false);
      var numEBR := |qs| - 3;
      UpdateWPhash(firstLBA, numEBR);
      placed := placed + [Placed(firstLBA, numEBR, true, false)];
      firstLBA := firstLBA + numEBR;
      ghost var start, rs := ExtendedStart(qs, boundary), LogicalRequests(qs[3..], grow);
      for j := 3 to |qs|
        invariant Valid()
        invariant Plan(firstLBA, regions, placed) == Walk(Logical(alignBoundary), boundary, start, rs, j - 3)
      {
        var q := qs[j];
        if j + 1 == |qs| {
          q := q.(readonly := false, grown := true);
          if grow {
            q := q.(size := 0);
          }
        }
        assert q == rs[j - 3];
        firstLBA := MoveLogical(firstLBA, q, alignBoundary);
        if q.readonly {
          UpdateWPhash(firstLBA, q.size);
        }
        placed := placed + [Placed(firstLBA, q.size, q.readonly, q.grown)];
        firstLBA := firstLBA + q.size;
      }
    }
  }

  lemma {:induction false} ExtendCovered(r: Region, last: int, boundary: nat)
    requires boundary >= 1 && r.covered == r.num / boundary
    ensures var x := Extend(r, last, boundary); x.covered == x.num / boundary
    decreases last - r.end
  {
    if last > r.end {
      ExtendCovered(r.(num := r.num + boundary, end := r.end + boundary, covered := (r.num + boundary) / boundary),
          last, boundary);
    }
  }
}
