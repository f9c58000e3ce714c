/** Where ptool.py puts partitions, and which sectors it asks to be write protected.

    All quantities are in sectors. `boundary` is the write-protect boundary, at least one sector. */
module Layout {
  import opened Arith

  /** An entry of hash_w. */
  datatype Region = Region(start: nat, num: nat, end: nat, boundaryNum: nat, covered: nat)

  /** What the input asks for. `grown` marks a last partition that is sized when the disk is patched. */
  datatype Request = Request(readonly: bool, align: bool, size: nat, perf: nat, grown: bool)

  datatype Placed = Placed(first: nat, size: nat, readonly: bool, grown: bool)

  /** The walk so far: the next free sector, the protected regions and what was placed. */
  datatype Plan = Plan(first: nat, regions: seq<Region>, placed: seq<Placed>)

  /** Which of ptool's three walks chooses the start of a partition. */
  datatype Mode =
    | Gpt(alignPerf: bool)
    | Primary
    | Logical(alignBoundary: nat)

  /** The region that stands for "nothing protected yet" on the GPT path. */
  const PLACEHOLDER := Region(0, 0, 0, 0, 0)

  function FirstRegion(boundary: nat): Region
    requires boundary >= 1
  {
    Region(0, boundary, boundary - 1, 0, 1)
  }

  // ----- functions of the source -----

  /** ptool.py ReturnNumSectorsTillBoundary. */
  function Till(lba: nat, boundary: nat): nat {
    if boundary > 0 && lba % boundary > 0 then boundary - lba % boundary else 0
  }

  /** The loop of UpdateWPhash: add whole boundaries until `last` is covered. */
  function Extend(r: Region, last: int, boundary: nat): (x: Region)
    requires boundary >= 1
    ensures x.start == r.start && x.end >= r.end && x.end >= last
    ensures last <= r.end ==> x == r
    ensures last > r.end ==> x.end - boundary < last
    decreases last - r.end
  {
    if last <= r.end then r
    else Extend(r.(num := r.num + boundary, end := r.end + boundary, covered := (r.num + boundary) / boundary), last,
        boundary)
  }

  function WpUpdate(rs: seq<Region>, start: nat, size: nat, boundary: nat): (r: seq<Region>)
    requires rs != [] && boundary >= 1
    ensures |r| >= |rs|
  {
    var n := |rs| - 1;
    var last := start + size - 1;
    if start - 1 <= rs[n].end then
      rs[..n] + [Extend(rs[n], last, boundary)]
    else
      rs + [Extend(Region(start, boundary, start + boundary - 1, start / boundary, 1), last, boundary)]
  }

  function LastEnd(rs: seq<Region>): nat
    requires rs != []
  {
    rs[|rs| - 1].end
  }

  /** The start a walk gives to request `q` when the next free sector is `first`
      and the current region ends at `end`. */
  function Choose(mode: Mode, boundary: nat, first: nat, end: nat, q: Request): (start: nat)
    ensures start >= first
  {
    match mode
    case Primary => first
    case Gpt(alignPerf) =>
      var f := if alignPerf then first + Till(first, q.perf) else first;
      if (f <= end) == q.readonly then f else f + Till(f, boundary)
    case Logical(alignBoundary) =>
      if !q.readonly && q.align then first + Till(first, alignBoundary)
      else if (first <= end) == q.readonly then first else first + Till(first, boundary)
  }

  function Put(p: Plan, start: nat, q: Request, boundary: nat): Plan
    requires p.regions != [] && boundary >= 1
  {
    Plan(start + q.size,
         if q.readonly then WpUpdate(p.regions, start, q.size, boundary) else p.regions,
         p.placed + [Placed(start, q.size, q.readonly, q.grown)])
  }

  /** The plan after the first `k` requests. */
  function Walk(mode: Mode, boundary: nat, p: Plan, qs: seq<Request>, k: nat): (r: Plan)
    requires p.regions != [] && boundary >= 1 && k <= |qs|
    ensures r.regions != [] && |r.placed| == |p.placed| + k
  {
    if k == 0 then p
    else Advance(mode, boundary, Walk(mode, boundary, p, qs, k - 1), qs[k - 1])
  }

  function Advance(mode: Mode, boundary: nat, p: Plan, q: Request): Plan
    requires p.regions != [] && boundary >= 1
  {
    Put(p, Choose(mode, boundary, p.first, LastEnd(p.regions), q), q, boundary)
  }

  // ----- what a layout should satisfy -----

  ghost predicate WellFormed(r: Region, boundary: nat)
    requires boundary >= 1
  {
    && r.start % boundary == 0 && r.num % boundary == 0 && r.num >= boundary
    && r.end == r.start + r.num - 1
    && r.covered == r.num / boundary && r.boundaryNum == r.start / boundary
  }

  /** Regions are whole boundaries, ascending and separated. */
  ghost predicate RegionsOk(rs: seq<Region>, boundary: nat)
    requires boundary >= 1
  {
    && rs != []
    && (rs[0] == PLACEHOLDER || WellFormed(rs[0], boundary))
    && (forall i :: 1 <= i < |rs| ==> WellFormed(rs[i], boundary))
    && (forall i, j :: 0 <= i < j < |rs| ==> rs[i].end + 1 < rs[j].start)
  }

  ghost predicate Ordered(ps: seq<Placed>, first: nat) {
    && (forall i :: 0 <= i < |ps| ==> ps[i].first + ps[i].size <= first)
    && (forall i, j :: 0 <= i < j < |ps| ==> ps[i].first + ps[i].size <= ps[j].first)
  }

  ghost predicate Geometry(p: Plan, boundary: nat)
    requires boundary >= 1
  {
    && RegionsOk(p.regions, boundary)
    && p.first + boundary > LastEnd(p.regions)
    && p.first >= 1
    && (p.regions == [PLACEHOLDER] ==> p.first > 1)
    && Ordered(p.placed, p.first)
  }

  ghost predicate Inside(q: Placed, r: Region) {
    r.start <= q.first && q.first + q.size - 1 <= r.end
  }

  /** Every read-only partition, as planned, lies in a protected region; one without sectors starts in it or just
      after. */
  ghost predicate Covered(p: Plan) {
    forall i :: 0 <= i < |p.placed| && p.placed[i].readonly ==>
      exists k :: 0 <= k < |p.regions| && Inside(p.placed[i], p.regions[k])
  }

  ghost predicate Overlaps(q: Placed, r: Region) {
    && (q.size > 0 || q.grown)
    && q.first <= r.end
    && (q.grown || r.start < q.first + q.size)
  }

  /** No writable partition, grown to the end of the disk or not, meets a protected region. */
  ghost predicate Clear(p: Plan) {
    forall i, k :: 0 <= i < |p.placed| && 0 <= k < |p.regions| && !p.placed[i].readonly ==>
      !Overlaps(p.placed[i], p.regions[k])
  }

  ghost predicate Protected(rs: seq<Region>, sector: nat) {
    exists i :: 0 <= i < |rs| && rs[i].start <= sector <= rs[i].end
  }

  /** The sectors of a placed partition on a disk whose last usable sector is `limit`: a grown one reaches up to it. */
  ghost predicate Holds(q: Placed, limit: int, sector: nat) {
    q.first <= sector <= if q.grown then limit else q.first + q.size - 1
  }

  /** Every sector of every read-only partition is protected, also of one that is grown. */
  ghost predicate ReadonlyProtected(p: Plan, limit: int) {
    forall i, x: nat :: 0 <= i < |p.placed| && p.placed[i].readonly && Holds(p.placed[i], limit, x) ==>
        Protected(p.regions, x)
  }

  /** No sector of a writable partition is protected. */
  ghost predicate WritableUnprotected(p: Plan, limit: int) {
    forall i, x: nat :: 0 <= i < |p.placed| && !p.placed[i].readonly && Holds(p.placed[i], limit, x) ==>
        !Protected(p.regions, x)
  }

  /** The one failing branch: a writable partition with sectors gets a start that the current region still covers. */
  ghost predicate Trapped(mode: Mode, boundary: nat, p: Plan, q: Request)
    requires p.regions != []
  {
    !q.readonly && (q.size > 0 || q.grown) &&
        Choose(mode, boundary, p.first, LastEnd(p.regions), q) <= LastEnd(p.regions)
  }

  /** None of the first `k` steps of a walk is trapped. */
  ghost predicate NeverTrapped(mode: Mode, boundary: nat, p: Plan, qs: seq<Request>, k: nat)
    requires p.regions != [] && boundary >= 1 && k <= |qs|
  {
    k > 0 ==>
      && NeverTrapped(mode, boundary, p, qs, k - 1)
      && !Trapped(mode, boundary, Walk(mode, boundary, p, qs, k - 1), qs[k - 1])
  }

  /** Only a last partition is grown. */
  ghost predicate GrownLast(qs: seq<Request>) {
    forall i :: 0 <= i < |qs| - 1 ==> !qs[i].grown
  }

  // ----- alignment -----

  lemma {:induction false} TillAligns(lba: nat, boundary: nat)
    requires boundary >= 1
    ensures (lba + Till(lba, boundary)) % boundary == 0
    ensures Till(lba, boundary) < boundary
  {
    var m := lba % boundary;
    assert (lba - m) % boundary == 0 by { DivUnique(lba - m, boundary, lba / boundary, 0); }
    ModAdd(lba - m, boundary);
  }

  lemma {:induction false} ExtendKeeps(r: Region, last: int, boundary: nat)
    requires boundary >= 1 && WellFormed(r, boundary)
    ensures WellFormed(Extend(r, last, boundary), boundary)
    decreases last - r.end
  {
    if last > r.end {
      ModAdd(r.num, boundary);
      var r' := r.(num := r.num + boundary, end := r.end + boundary, covered := (r.num + boundary) / boundary);
      ExtendKeeps(r', last, boundary);
    }
  }

  lemma {:induction false} EndAligned(r: Region, boundary: nat)
    requires boundary >= 1 && WellFormed(r, boundary)
    ensures (r.end + 1) % boundary == 0
  {
    MultipleSum(r.start, r.num, boundary);
  }

  // ----- one step -----

  /** A read-only start is covered, touches the current region, or is on a boundary. */
  ghost predicate GoodStart(p: Plan, start: nat, q: Request, boundary: nat)
    requires p.regions != [] && boundary >= 1
  {
    start >= p.first && (q.readonly ==> start <= LastEnd(p.regions) + 1 || start % boundary == 0)
  }

  lemma {:induction false} ChooseGood(mode: Mode, boundary: nat, p: Plan, q: Request)
    requires boundary >= 1 && p.regions != []
    requires mode.Primary? ==> p.first <= LastEnd(p.regions) + 1
    ensures GoodStart(p, Choose(mode, boundary, p.first, LastEnd(p.regions), q), q, boundary)
  {
    match mode
    case Primary =>
    case Gpt(alignPerf) => TillAligns(if alignPerf then p.first + Till(p.first, q.perf) else p.first, boundary);
    case Logical(_) => TillAligns(p.first, boundary);
  }

  lemma {:induction false} WpUpdateKeeps(rs: seq<Region>, start: nat, size: nat, boundary: nat)
    requires boundary >= 1 && RegionsOk(rs, boundary)
    requires start >= 1 && (rs == [PLACEHOLDER] ==> start > 1)
    requires start <= LastEnd(rs) + 1 || start % boundary == 0
    ensures RegionsOk(WpUpdate(rs, start, size, boundary), boundary)
  {
    hide WellFormed, Extend;
    EndsBelow(rs, boundary);
    var n, last := |rs| - 1, start + size - 1;
    if start - 1 <= rs[n].end {
      ExtendKeeps(rs[n], last, boundary);
    } else {
      NewRegion(start, boundary);
      ExtendKeeps(Region(start, boundary, start + boundary - 1, start / boundary, 1), last, boundary);
    }
  }

  lemma {:induction false} EndsBelow(rs: seq<Region>, boundary: nat)
    requires boundary >= 1 && RegionsOk(rs, boundary)
    ensures forall i :: 0 <= i < |rs| ==> rs[i].end <= LastEnd(rs)
  {
  }

  lemma {:induction false} NewRegion(start: nat, boundary: nat)
    requires boundary >= 1 && start % boundary == 0
    ensures WellFormed(Region(start, boundary, start + boundary - 1, start / boundary, 1), boundary)
  {
    DivUnique(boundary, boundary, 1, 0);
  }

  lemma {:induction false} PutGeometry(p: Plan, start: nat, q: Request, boundary: nat)
    requires boundary >= 1 && Geometry(p, boundary) && GoodStart(p, start, q, boundary)
    ensures Geometry(Put(p, start, q, boundary), boundary)
  {
    assert p.regions != [];
    hide RegionsOk, WpUpdate;
    if q.readonly {
      WpUpdateKeeps(p.regions, start, q.size, boundary);
      WpUpdateEnd(p.regions, start, q.size, boundary);
    }
  }

  /** A region ends less than a boundary after what it was last extended for, or where it was. */
  lemma {:induction false} WpUpdateEnd(rs: seq<Region>, start: nat, size: nat, boundary: nat)
    requires boundary >= 1 && rs != [] && start >= 1 && start + boundary > LastEnd(rs)
    ensures var r := WpUpdate(rs, start, size, boundary);
            r != [] && start + size + boundary > LastEnd(r) && (r == [PLACEHOLDER] ==> rs == [PLACEHOLDER])
  {
    hide Extend;
  }

  lemma {:induction false} PutCovered(p: Plan, start: nat, q: Request, boundary: nat)
    requires boundary >= 1 && Geometry(p, boundary) && GoodStart(p, start, q, boundary)
    requires Covered(p)
    ensures Covered(Put(p, start, q, boundary))
  {
    hide Extend;
    var r, n := Put(p, start, q, boundary), |p.regions| - 1;
    forall i | 0 <= i < |r.placed| && r.placed[i].readonly
      ensures exists k :: 0 <= k < |r.regions| && Inside(r.placed[i], r.regions[k])
    {
      if i < |p.placed| {
        var k :| 0 <= k < |p.regions| && Inside(p.placed[i], p.regions[k]);
        assert Inside(r.placed[i], r.regions[k]);
      } else {
        var k := |r.regions| - 1;
        EndOfBlock(p, start, boundary);
        assert Inside(r.placed[i], r.regions[k]);
      }
    }
  }

  /** A start inside the current region is inside its last boundary, so after the region's start. */
  lemma {:induction false} EndOfBlock(p: Plan, start: nat, boundary: nat)
    requires boundary >= 1 && Geometry(p, boundary) && start >= p.first
    ensures start <= LastEnd(p.regions) + 1 ==> p.regions[|p.regions| - 1].start <= start
  {
  }

  lemma {:induction false} PutClear(p: Plan, start: nat, q: Request, boundary: nat)
    requires boundary >= 1 && Geometry(p, boundary) && GoodStart(p, start, q, boundary)
    requires forall i :: 0 <= i < |p.placed| ==> !p.placed[i].grown
    ensures Clear(Put(p, start, q, boundary))
        <==> Clear(p) && !(!q.readonly && (q.size > 0 || q.grown) && start <= LastEnd(p.regions))
  {
    hide Extend;
    var r := Put(p, start, q, boundary);
    EndOfBlock(p, start, boundary);
    if Clear(r) {
      forall i, k | 0 <= i < |p.placed| && 0 <= k < |p.regions| && !p.placed[i].readonly
        ensures !Overlaps(p.placed[i], p.regions[k])
      {
        assert !Overlaps(r.placed[i], r.regions[k]);
      }
      if !q.readonly {
        assert !Overlaps(r.placed[|p.placed|], r.regions[|p.regions| - 1]);
      }
    }
    if Clear(p) && (q.readonly || (q.size == 0 && !q.grown) || start > LastEnd(p.regions)) {
      forall i, k | 0 <= i < |r.placed| && 0 <= k < |r.regions| && !r.placed[i].readonly
        ensures !Overlaps(r.placed[i], r.regions[k])
      {
        if i < |p.placed| && k < |p.regions| {
          assert !Overlaps(p.placed[i], p.regions[k]);
        }
      }
    }
  }

  // ----- whole walks -----

  /** The primaries are packed with no gap, so they never leave the current region. */
  ghost predicate Packed(mode: Mode, p: Plan)
    requires p.regions != []
  {
    mode.Primary? ==> p.first <= LastEnd(p.regions) + 1
  }

  ghost predicate AllReadonly(mode: Mode, qs: seq<Request>) {
    mode.Primary? ==> forall i :: 0 <= i < |qs| ==> qs[i].readonly
  }

  /** A plan a walk can start from or arrive at. */
  ghost predicate Sound(mode: Mode, boundary: nat, p: Plan) {
    boundary >= 1 && p.regions != [] && Geometry(p, boundary) && Covered(p) && Packed(mode, p)
  }

  lemma {:induction false} AdvanceKeeps(mode: Mode, boundary: nat, p: Plan, q: Request)
    requires Sound(mode, boundary, p) && (mode.Primary? ==> q.readonly)
    ensures Sound(mode, boundary, Advance(mode, boundary, p, q))
  {
    var start := Choose(mode, boundary, p.first, LastEnd(p.regions), q);
    ChooseGood(mode, boundary, p, q);
    PutGeometry(p, start, q, boundary);
    PutCovered(p, start, q, boundary);
  }

  /** Every walk keeps regions whole, ascending and separated, partitions ordered and disjoint,
      and read-only partitions covered. */
  lemma {:induction false} WalkKeeps(mode: Mode, boundary: nat, p: Plan, qs: seq<Request>, k: nat)
    requires Sound(mode, boundary, p) && AllReadonly(mode, qs) && k <= |qs|
    ensures Sound(mode, boundary, Walk(mode, boundary, p, qs, k))
  {
    hide Choose, Geometry, Covered, Put;
    if k > 0 {
      WalkKeeps(mode, boundary, p, qs, k - 1);
      AdvanceKeeps(mode, boundary, Walk(mode, boundary, p, qs, k - 1), qs[k - 1]);
    }
  }

  ghost predicate NoneGrown(p: Plan) {
    forall i :: 0 <= i < |p.placed| ==> !p.placed[i].grown
  }

  lemma {:induction false} WalkNoneGrown(mode: Mode, boundary: nat, p: Plan, qs: seq<Request>, k: nat)
    requires p.regions != [] && boundary >= 1 && k <= |qs|
    requires NoneGrown(p) && forall i :: 0 <= i < k ==> !qs[i].grown
    ensures NoneGrown(Walk(mode, boundary, p, qs, k))
  {
    if k > 0 {
      WalkNoneGrown(mode, boundary, p, qs, k - 1);
    }
  }

  lemma {:induction false} AdvanceClear(mode: Mode, boundary: nat, p: Plan, q: Request)
    requires Sound(mode, boundary, p) && NoneGrown(p)
    ensures Clear(Advance(mode, boundary, p, q)) <==> Clear(p) && !Trapped(mode, boundary, p, q)
  {
    ChooseGood(mode, boundary, p, q);
    PutClear(p, Choose(mode, boundary, p.first, LastEnd(p.regions), q), q, boundary);
  }

  /** No writable partition meets a protected region, not even one created or extended later,
      exactly when no step of the walk was trapped. */
  lemma {:induction false} WalkClear(mode: Mode, boundary: nat, p: Plan, qs: seq<Request>, k: nat)
    requires Sound(mode, boundary, p) && AllReadonly(mode, qs) && k <= |qs|
    requires NoneGrown(p) && GrownLast(qs)
    ensures Clear(Walk(mode, boundary, p, qs, k)) <==>
            Clear(p) && NeverTrapped(mode, boundary, p, qs, k)
  {
    hide Choose, Trapped, Clear, Geometry, Covered, Put;
    if k > 0 {
      WalkClear(mode, boundary, p, qs, k - 1);
      WalkKeeps(mode, boundary, p, qs, k - 1);
      WalkNoneGrown(mode, boundary, p, qs, k - 1);
      AdvanceClear(mode, boundary, Walk(mode, boundary, p, qs, k - 1), qs[k - 1]);
    }
  }

  // ----- when no step is trapped -----

  /** The next free sector is not the first sector of the current region's last boundary. */
  ghost predicate Loose(p: Plan, boundary: nat)
    requires p.regions != []
  {
    p.first + boundary > LastEnd(p.regions) + 1
  }

  /** What a caller can check: read-only partitions have sectors, and an alignment boundary is a
      whole number of write-protect boundaries. */
  predicate Sane(mode: Mode, boundary: nat, q: Request)
    requires boundary >= 1
  {
    && (q.readonly ==> q.size >= 1 || mode.Primary?)
    && (mode.Logical? && q.align && !q.readonly ==> mode.alignBoundary > 0 && mode.alignBoundary % boundary == 0)
  }

  /** In the last boundary of a region, the next boundary is the sector after the region. */
  lemma {:induction false} TillLeaves(f: nat, r: Region, boundary: nat)
    requires boundary >= 1 && WellFormed(r, boundary) && f + boundary > r.end + 1 && f <= r.end
    ensures f + Till(f, boundary) == r.end + 1
  {
    EndAligned(r, boundary);
    var lo := r.end + 1 - boundary;
    ModAdd(lo, boundary);
    ModInBlock(f, lo, boundary);
  }

  lemma {:induction false} AlignLeaves(f: nat, r: Region, boundary: nat, unit: nat)
    requires boundary >= 1 && WellFormed(r, boundary) && f + boundary > r.end + 1
    requires unit > 0 && unit % boundary == 0
    ensures f + Till(f, unit) > r.end
  {
    var s := f + Till(f, unit);
    TillAligns(f, unit);
    MultipleOfMultiple(s, boundary, unit);
    EndAligned(r, boundary);
    if s <= r.end {
      MultipleSum(r.end + 1, s, boundary);
      ModInBlock(r.end + 1 - s, 0, boundary);
    }
  }

  /** A start that is moved only to the next write-protect boundary is trapped exactly when it is already on one: it is
      the first sector of the last boundary of the current region, and is not moved. */
  lemma {:induction false} LeftOnBoundary(boundary: nat, p: Plan, f: nat)
    requires boundary >= 1 && Geometry(p, boundary) && f >= p.first
    ensures f <= LastEnd(p.regions) && f + Till(f, boundary) <= LastEnd(p.regions)
        <==> f + boundary == LastEnd(p.regions) + 1
  {
    var r := p.regions[|p.regions| - 1];
    if r != PLACEHOLDER && f <= r.end {
      EndAligned(r, boundary);
      if f + boundary == r.end + 1 {
        ModAdd(f, boundary);
      } else {
        TillLeaves(f, r, boundary);
      }
    }
  }

  /** The guard of the failing branch, for the two walks that move starts: a caller can test it before placing `q`. */
  lemma {:induction false} TrappedExactly(mode: Mode, boundary: nat, p: Plan, q: Request)
    requires boundary >= 1 && Geometry(p, boundary) && !mode.Primary?
    ensures var end := LastEnd(p.regions);
            var f := if mode.Gpt? && mode.alignPerf then p.first + Till(p.first, q.perf) else p.first;
            Trapped(mode, boundary, p, q) <==>
              && !q.readonly && (q.size > 0 || q.grown)
              && if mode.Logical? && q.align then f + Till(f, mode.alignBoundary) <= end else f + boundary == end + 1
  {
    LeftOnBoundary(boundary, p, if mode.Gpt? && mode.alignPerf then p.first + Till(p.first, q.perf) else p.first);
  }

  lemma {:induction false} NotTrapped(mode: Mode, boundary: nat, p: Plan, q: Request)
    requires boundary >= 1 && Geometry(p, boundary) && Loose(p, boundary)
    requires (mode.Primary? ==> q.readonly) && (q.readonly || Sane(mode, boundary, q))
    ensures !Trapped(mode, boundary, p, q)
  {
    var r := p.regions[|p.regions| - 1];
    if !q.readonly && r != PLACEHOLDER {
      match mode
      case Primary =>
      case Gpt(alignPerf) =>
        var f := if alignPerf then p.first + Till(p.first, q.perf) else p.first;
        if f <= r.end {
          TillLeaves(f, r, boundary);
        }
      case Logical(alignBoundary) =>
        if q.align {
          AlignLeaves(p.first, r, boundary, alignBoundary);
        } else if p.first <= r.end {
          TillLeaves(p.first, r, boundary);
        }
    }
  }

  lemma {:induction false} PutLoose(p: Plan, start: nat, q: Request, boundary: nat)
    requires boundary >= 1 && Geometry(p, boundary) && Loose(p, boundary) && GoodStart(p, start, q, boundary)
    requires q.readonly ==> q.size >= 1 || start <= LastEnd(p.regions) + 1
    ensures Loose(Put(p, start, q, boundary), boundary)
  {
  }

  ghost predicate AllSane(mode: Mode, boundary: nat, qs: seq<Request>)
    requires boundary >= 1
  {
    forall i :: 0 <= i < |qs| ==> Sane(mode, boundary, qs[i]) || (i == |qs| - 1 && qs[i].readonly)
  }

  lemma {:induction false} AdvanceLoose(mode: Mode, boundary: nat, p: Plan, q: Request)
    requires Sound(mode, boundary, p) && Loose(p, boundary) && (q.readonly ==> q.size >= 1 || mode.Primary?)
    ensures Loose(Advance(mode, boundary, p, q), boundary)
  {
    ChooseGood(mode, boundary, p, q);
    PutLoose(p, Choose(mode, boundary, p.first, LastEnd(p.regions), q), q, boundary);
  }

  lemma {:induction false} WalkLoose(mode: Mode, boundary: nat, p: Plan, qs: seq<Request>, k: nat)
    requires Sound(mode, boundary, p) && AllReadonly(mode, qs) && k < |qs|
    requires Loose(p, boundary) && AllSane(mode, boundary, qs)
    ensures Loose(Walk(mode, boundary, p, qs, k), boundary)
  {
    hide Choose, Geometry, Covered, Put;
    if k > 0 {
      var c, q := Walk(mode, boundary, p, qs, k - 1), qs[k - 1];
      WalkLoose(mode, boundary, p, qs, k - 1);
      WalkKeeps(mode, boundary, p, qs, k - 1);
      AdvanceLoose(mode, boundary, c, q);
    }
  }

  lemma {:induction false} WalkNeverTrapped(mode: Mode, boundary: nat, p: Plan, qs: seq<Request>, k: nat)
    requires Sound(mode, boundary, p) && AllReadonly(mode, qs) && k <= |qs|
    requires Loose(p, boundary) && AllSane(mode, boundary, qs)
    ensures NeverTrapped(mode, boundary, p, qs, k)
  {
    hide Choose, Trapped, Clear, Geometry, Covered, Put;
    if k > 0 {
      WalkNeverTrapped(mode, boundary, p, qs, k - 1);
      WalkLoose(mode, boundary, p, qs, k - 1);
      WalkKeeps(mode, boundary, p, qs, k - 1);
      NotTrapped(mode, boundary, Walk(mode, boundary, p, qs, k - 1), qs[k - 1]);
    }
  }

  /** With sane requests no step is trapped, so every writable partition stays writable. */
  lemma {:induction false} SaneIsClear(mode: Mode, boundary: nat, p: Plan, qs: seq<Request>)
    requires Sound(mode, boundary, p) && AllReadonly(mode, qs) && Clear(p)
    requires NoneGrown(p) && GrownLast(qs)
    requires Loose(p, boundary) && AllSane(mode, boundary, qs)
    ensures Clear(Walk(mode, boundary, p, qs, |qs|))
  {
    WalkNeverTrapped(mode, boundary, p, qs, |qs|);
    WalkClear(mode, boundary, p, qs, |qs|);
  }

  // ----- sectors on a disk -----

  /** A partition that is grown was placed last and planned without sectors. */
  ghost predicate GrownAtEnd(p: Plan) {
    forall i :: 0 <= i < |p.placed| && p.placed[i].grown ==> p.placed[i].first == p.first
  }

  ghost predicate GrowsReadonly(p: Plan) {
    exists i :: 0 <= i < |p.placed| && p.placed[i].readonly && p.placed[i].grown
  }

  /** A read-only partition that is grown is the last one placed, and the last region does not begin after it. */
  ghost predicate GrownBelow(p: Plan)
    requires p.regions != []
  {
    forall i :: 0 <= i < |p.placed| && p.placed[i].readonly && p.placed[i].grown ==>
      && i == |p.placed| - 1
      && (p.placed[i].first <= LastEnd(p.regions) ==> p.regions[|p.regions| - 1].start <= p.placed[i].first)
  }

  lemma {:induction false} AtEndIsBelow(p: Plan, boundary: nat)
    requires boundary >= 1 && Geometry(p, boundary) && GrownAtEnd(p)
    requires forall i :: 0 <= i < |p.placed| && p.placed[i].grown ==> i == |p.placed| - 1
    ensures GrownBelow(p)
  {
    EndOfBlock(p, p.first, boundary);
  }

  /** A grown read-only partition is protected exactly when the disk ends, for it, inside the last region: the region
      was extended for its planned size, and the partition is sized later. */
  lemma {:induction false} ReadonlyProtectedExactly(p: Plan, boundary: nat, limit: int)
    requires boundary >= 1 && Geometry(p, boundary) && Covered(p) && GrownBelow(p)
    ensures ReadonlyProtected(p, limit) <==>
            !GrowsReadonly(p) || limit < p.placed[|p.placed| - 1].first || limit <= LastEnd(p.regions)
  {
    assert p.regions != [];
    hide Geometry, Covered, ReadonlyProtected, GrownBelow;
    if !GrowsReadonly(p) || limit < p.placed[|p.placed| - 1].first || limit <= LastEnd(p.regions) {
      ReadonlyCovered(p, limit);
    } else {
      var i :| 0 <= i < |p.placed| && p.placed[i].readonly && p.placed[i].grown;
      GrownExposed(p, boundary, limit, i);
    }
  }

  lemma {:induction false} ReadonlyCovered(p: Plan, limit: int)
    requires p.regions != [] && Covered(p) && GrownBelow(p)
    requires GrowsReadonly(p) ==> limit < p.placed[|p.placed| - 1].first || limit <= LastEnd(p.regions)
    ensures ReadonlyProtected(p, limit)
  {
    hide Covered, Protected;
    forall i, x: nat | 0 <= i < |p.placed| && p.placed[i].readonly && Holds(p.placed[i], limit, x)
      ensures Protected(p.regions, x)
    {
      SectorCovered(p, limit, i, x);
    }
  }

  lemma {:induction false} GrownExposed(p: Plan, boundary: nat, limit: int, i: nat)
    requires boundary >= 1 && Geometry(p, boundary) && GrownBelow(p)
    requires i < |p.placed| && p.placed[i].readonly && p.placed[i].grown
    requires limit >= p.placed[|p.placed| - 1].first && limit > LastEnd(p.regions)
    ensures !ReadonlyProtected(p, limit)
  {
    hide Geometry, Protected;
    PastRegions(p, boundary, limit);
    assert Holds(p.placed[i], limit, limit);
  }

  lemma {:induction false} SectorCovered(p: Plan, limit: int, i: nat, x: nat)
    requires p.regions != [] && Covered(p) && GrownBelow(p)
    requires i < |p.placed| && p.placed[i].readonly && Holds(p.placed[i], limit, x)
    requires p.placed[i].grown ==> limit <= LastEnd(p.regions)
    ensures Protected(p.regions, x)
  {
    var last := p.regions[|p.regions| - 1];
    if p.placed[i].grown {
      assert last.start <= x <= last.end;
    } else {
      var k :| 0 <= k < |p.regions| && Inside(p.placed[i], p.regions[k]);
      assert p.regions[k].start <= x <= p.regions[k].end;
    }
  }

  lemma {:induction false} PastRegions(p: Plan, boundary: nat, x: nat)
    requires boundary >= 1 && Geometry(p, boundary) && x > LastEnd(p.regions)
    ensures !Protected(p.regions, x)
  {
    EndsBelow(p.regions, boundary);
  }

  /** In a clear plan no sector of a writable partition is protected, however far a grown one reaches. */
  lemma {:induction false} ClearIsUnprotected(p: Plan, limit: int)
    requires Clear(p)
    ensures WritableUnprotected(p, limit)
  {
    forall i, x: nat | 0 <= i < |p.placed| && !p.placed[i].readonly && Holds(p.placed[i], limit, x)
      ensures !Protected(p.regions, x)
    {
      forall k | 0 <= k < |p.regions|
        ensures !(p.regions[k].start <= x <= p.regions[k].end)
      {
        assert !Overlaps(p.placed[i], p.regions[k]);
      }
    }
  }

  /** On a disk with room for what was placed, no sector of a writable partition is protected exactly when the plan is
      clear. */
  lemma {:induction false} WritableUnprotectedExactly(p: Plan, boundary: nat, limit: int)
    requires boundary >= 1 && Geometry(p, boundary) && GrownAtEnd(p) && p.first <= limit
    ensures WritableUnprotected(p, limit) <==> Clear(p)
  {
    if Clear(p) {
      ClearIsUnprotected(p, limit);
    }
    if WritableUnprotected(p, limit) {
      forall i, k | 0 <= i < |p.placed| && 0 <= k < |p.regions| && !p.placed[i].readonly
        ensures !Overlaps(p.placed[i], p.regions[k])
      {
        if Overlaps(p.placed[i], p.regions[k]) {
          SharedSector(p, boundary, limit, i, k);
        }
      }
    }
  }

  lemma {:induction false} SharedSector(p: Plan, boundary: nat, limit: int, i: nat, k: nat)
    requires boundary >= 1 && Geometry(p, boundary) && GrownAtEnd(p) && p.first <= limit
    requires i < |p.placed| && k < |p.regions| && Overlaps(p.placed[i], p.regions[k])
    ensures exists x :: Holds(p.placed[i], limit, x) && Protected(p.regions, x)
  {
    var q, r := p.placed[i], p.regions[k];
    EndsBelow(p.regions, boundary);
    EndOfBlock(p, p.first, boundary);
    var x := if q.first <= r.start then r.start else q.first;
    assert r.start <= x <= r.end;
    assert Holds(q, limit, x) && Protected(p.regions, x);
  }

  // ----- what a walk places -----

  lemma {:induction false} PlacedBelow(p: Plan, boundary: nat, i: nat)
    requires boundary >= 1 && Geometry(p, boundary) && i < |p.placed|
    ensures p.placed[i].first + p.placed[i].size <= p.first
  {
  }

  /** What was placed before stays. */
  lemma {:induction false} WalkPrefix(mode: Mode, boundary: nat, p: Plan, qs: seq<Request>, k: nat, i: nat)
    requires boundary >= 1 && p.regions != [] && k <= |qs| && i < |p.placed|
    ensures Walk(mode, boundary, p, qs, k).placed[i] == p.placed[i]
    decreases k
  {
    hide Choose, WpUpdate;
    if k > 0 {
      WalkPrefix(mode, boundary, p, qs, k - 1, i);
    }
  }

  /** Whatever the regions, a walk places its partitions one after the other. */
  lemma {:induction false} WalkOrdered(mode: Mode, boundary: nat, p: Plan, qs: seq<Request>, k: nat)
    requires p.regions != [] && boundary >= 1 && k <= |qs| && Ordered(p.placed, p.first)
    ensures Ordered(Walk(mode, boundary, p, qs, k).placed, Walk(mode, boundary, p, qs, k).first)
    decreases k
  {
    hide Choose, WpUpdate;
    if k > 0 {
      WalkOrdered(mode, boundary, p, qs, k - 1);
    }
  }

  /** A walk never moves back. */
  lemma {:induction false} WalkFirst(mode: Mode, boundary: nat, p: Plan, qs: seq<Request>, k: nat)
    requires p.regions != [] && boundary >= 1 && k <= |qs|
    ensures Walk(mode, boundary, p, qs, k).first >= p.first
    decreases k
  {
    hide Choose, WpUpdate;
    if k > 0 {
      WalkFirst(mode, boundary, p, qs, k - 1);
    }
  }

  /** A partition grown by the last request only is at the end of the plan. */
  lemma {:induction false} WalkGrownAtEnd(mode: Mode, boundary: nat, p: Plan, qs: seq<Request>)
    requires p.regions != [] && boundary >= 1 && NoneGrown(p) && GrownLast(qs)
    requires qs != [] && qs[|qs| - 1].grown ==> qs[|qs| - 1].size == 0
    ensures var r := Walk(mode, boundary, p, qs, |qs|);
            GrownAtEnd(r) && forall i :: 0 <= i < |r.placed| && r.placed[i].grown ==> i == |r.placed| - 1
  {
    hide Choose, WpUpdate;
    if qs != [] {
      WalkNoneGrown(mode, boundary, p, qs, |qs| - 1);
    }
  }

  /** The next free sector follows the last partition. */
  lemma {:induction false} WalkLast(mode: Mode, boundary: nat, p: Plan, qs: seq<Request>)
    requires p.regions != [] && boundary >= 1
    ensures var r := Walk(mode, boundary, p, qs, |qs|);
            if qs == [] then r == p else r.first == r.placed[|r.placed| - 1].first + r.placed[|r.placed| - 1].size
  {
    hide Choose, WpUpdate;
  }

  /** Partitions are placed at or after the sector the walk began with. */
  lemma {:induction false} PlacedAfter(mode: Mode, boundary: nat, p: Plan, qs: seq<Request>, j: nat)
    requires p.regions != [] && boundary >= 1 && j < |qs|
    ensures Walk(mode, boundary, p, qs, |qs|).placed[|p.placed| + j].first >= p.first
  {
    hide Walk, Choose;
    PlacedAt(mode, boundary, p, qs, |qs|, j);
    WalkFirst(mode, boundary, p, qs, j);
  }

  /** The `j`-th request keeps the start it was given. */
  lemma {:induction false} PlacedAt(mode: Mode, boundary: nat, p: Plan, qs: seq<Request>, k: nat, j: nat)
    requires p.regions != [] && boundary >= 1 && j < k <= |qs|
    ensures var b := Walk(mode, boundary, p, qs, j);
            Walk(mode, boundary, p, qs, k).placed[|p.placed| + j]
            == Placed(Choose(mode, boundary, b.first, LastEnd(b.regions), qs[j]), qs[j].size, qs[j].readonly,
                qs[j].grown)
    decreases k
  {
    hide Choose;
    if j < k - 1 {
      PlacedAt(mode, boundary, p, qs, k - 1, j);
    }
  }

  /** A GPT start is a multiple of its performance boundary whenever that boundary divides the
      write-protect boundary. */
  lemma {:induction false} PerformanceAligned(boundary: nat, p: Plan, qs: seq<Request>, j: nat)
    requires p.regions != [] && boundary >= 1 && j < |qs|
    requires qs[j].perf > 0 && boundary % qs[j].perf == 0
    ensures Walk(Gpt(true), boundary, p, qs, |qs|).placed[|p.placed| + j].first % qs[j].perf == 0
  {
    var b := Walk(Gpt(true), boundary, p, qs, j);
    PlacedAt(Gpt(true), boundary, p, qs, |qs|, j);
    GptStartAligned(boundary, b.first, LastEnd(b.regions), qs[j]);
  }

  lemma {:induction false} GptStartAligned(boundary: nat, first: nat, end: nat, q: Request)
    requires boundary >= 1 && q.perf > 0 && boundary % q.perf == 0
    ensures Choose(Gpt(true), boundary, first, end, q) % q.perf == 0
  {
    var f := first + Till(first, q.perf);
    TillAligns(first, q.perf);
    TillAligns(f, boundary);
    MultipleOfMultiple(f + Till(f, boundary), q.perf, boundary);
  }
}
