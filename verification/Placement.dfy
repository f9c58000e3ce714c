/** Where partitions end up and which sectors are protected, said of the placed partitions alone: without the walk that
    placed them and without the list of regions. */
module Placement {
  import opened Arith
  import opened Layout
  import opened Planner

  // ----- multiples -----

  /** The least multiple of `d` that is not below `f`. */
  function LeastMultiple(f: nat, d: nat): nat
    requires d > 0
  {
    (f + (d - 1)) / d * d
  }

  lemma {:induction false} LeastMultipleMeans(f: nat, d: nat)
    requires d > 0
    ensures LeastMultiple(f, d) % d == 0 && f <= LeastMultiple(f, d) < f + d
    ensures forall m: nat :: f <= m && m % d == 0 ==> LeastMultiple(f, d) <= m
  {
    var v := f + (d - 1);
    var x := LeastMultiple(f, d);
    Multiple(v / d, d);
    assert x == v - v % d by { assert v == d * (v / d) + v % d; }
    forall m: nat | f <= m && m % d == 0
      ensures x <= m
    {
      OnlyMultiple(m, x, f, d);
    }
  }

  lemma {:induction false} Multiple(k: nat, d: nat)
    requires d > 0
    ensures (k * d) % d == 0
  {
    assert k * d == d * k + 0;
    DivUnique(k * d, d, k, 0);
  }

  /** Two multiples do not lie in less than one unit. */
  lemma {:induction false} OnlyMultiple(m: nat, x: nat, f: nat, d: nat)
    requires d > 0 && f <= m && m % d == 0 && x % d == 0 && f <= x < f + d
    ensures x <= m
  {
    if m < x {
      MultipleSum(x, m, d);
      DivUnique(x - m, d, 0, x - m);
    }
  }

  /** A multiple at or above `f`, by less than a unit, is the least one. */
  lemma {:induction false} IsLeast(f: nat, d: nat, x: nat)
    requires d > 0 && x % d == 0 && f <= x < f + d
    ensures x == LeastMultiple(f, d)
  {
    LeastMultipleMeans(f, d);
    OnlyMultiple(LeastMultiple(f, d), x, f, d);
  }

  lemma {:induction false} TillIsLeast(f: nat, d: nat)
    requires d > 0
    ensures f + Till(f, d) == LeastMultiple(f, d)
  {
    TillAligns(f, d);
    IsLeast(f, d, f + Till(f, d));
  }

  // ----- how far protection reaches -----

  /** The last protected sector when `ps` have been placed: whole boundaries up to the end of the read-only partition
      that reaches furthest; an empty one protects the boundary it opens. */
  function Reached(ps: seq<Placed>, boundary: nat): nat
    requires boundary >= 1
  {
    if ps == [] then 0
    else
      var e, q := Reached(ps[..|ps| - 1], boundary), ps[|ps| - 1];
      if !q.readonly then e
      else if q.size > 0 then Furthest(e, LeastMultiple(q.first + q.size, boundary) - 1)
      else if q.first <= e + 1 then e
      else q.first + (boundary - 1)
  }

  function Furthest(x: nat, y: int): nat {
    if y > x then y else x
  }

  ghost predicate ReachKnown(p: Plan, boundary: nat)
    requires boundary >= 1 && p.regions != []
  {
    LastEnd(p.regions) == Reached(p.placed, boundary)
  }

  lemma {:induction false} ExtendReaches(r: Region, start: nat, size: nat, boundary: nat)
    requires boundary >= 1 && WellFormed(r, boundary) && start <= r.end + 1 && size > 0
    ensures Extend(r, start + size - 1, boundary).end == Furthest(r.end, LeastMultiple(start + size, boundary) - 1)
  {
    var last := start + size - 1;
    var x := Extend(r, last, boundary);
    ExtendKeeps(r, last, boundary);
    EndAligned(x, boundary);
    EndAligned(r, boundary);
    LeastMultipleMeans(start + size, boundary);
    if last > r.end {
      IsLeast(start + size, boundary, x.end + 1);
    } else {
      assert LeastMultiple(start + size, boundary) <= r.end + 1;
    }
  }

  /** What updating the regions does to the last protected sector. */
  lemma {:induction false} WpUpdateReaches(rs: seq<Region>, start: nat, size: nat, boundary: nat)
    requires boundary >= 1 && rs != [] && start >= 1
    requires WellFormed(rs[|rs| - 1], boundary) || start > rs[|rs| - 1].end + 1
    requires start <= LastEnd(rs) + 1 || start % boundary == 0
    ensures var r, e := WpUpdate(rs, start, size, boundary), LastEnd(rs);
            r != [] && LastEnd(r)
            == if size > 0 then Furthest(e, LeastMultiple(start + size, boundary) - 1)
               else if start <= e + 1 then e
               else start + (boundary - 1)
  {
    hide Extend, LeastMultiple, WellFormed;
    var last := rs[|rs| - 1];
    if start - 1 <= last.end {
      if size > 0 {
        ExtendReaches(last, start, size, boundary);
      }
    } else {
      NewRegion(start, boundary);
      if size > 0 {
        ExtendReaches(Region(start, boundary, start + boundary - 1, start / boundary, 1), start, size, boundary);
        BoundaryAhead(start, size, boundary);
      }
    }
  }

  lemma {:induction false} PutReaches(p: Plan, start: nat, q: Request, boundary: nat)
    requires boundary >= 1 && Geometry(p, boundary) && GoodStart(p, start, q, boundary) && ReachKnown(p, boundary)
    ensures ReachKnown(Put(p, start, q, boundary), boundary)
  {
    LastWellFormed(p, start, boundary);
    hide LeastMultiple, Reached, WpUpdate, Geometry, WellFormed;
    ReachedNext(p.placed, Placed(start, q.size, q.readonly, q.grown), boundary);
    if q.readonly {
      WpUpdateReaches(p.regions, start, q.size, boundary);
    }
  }

  lemma {:induction false} LastWellFormed(p: Plan, start: nat, boundary: nat)
    requires boundary >= 1 && Geometry(p, boundary) && start >= p.first
    ensures p.regions != [] && start >= 1
    ensures WellFormed(p.regions[|p.regions| - 1], boundary) || start > LastEnd(p.regions) + 1
  {
  }

  lemma {:induction false} ReachedNext(ps: seq<Placed>, q: Placed, boundary: nat)
    requires boundary >= 1
    ensures var e := Reached(ps, boundary);
            Reached(ps + [q], boundary)
            == if !q.readonly then e
               else if q.size > 0 then Furthest(e, LeastMultiple(q.first + q.size, boundary) - 1)
               else if q.first <= e + 1 then e
               else q.first + (boundary - 1)
  {
    hide LeastMultiple;
    assert (ps + [q])[..|ps|] == ps;
  }

  /** A partition that starts on a boundary reaches at least the next one. */
  lemma {:induction false} BoundaryAhead(start: nat, size: nat, boundary: nat)
    requires boundary >= 1 && start % boundary == 0 && size > 0
    ensures LeastMultiple(start + size, boundary) >= start + boundary
  {
    LeastMultipleMeans(start + size, boundary);
    ModAdd(start, boundary);
    OnlyMultiple(LeastMultiple(start + size, boundary), start + boundary, start + 1, boundary);
  }

  lemma {:induction false} WalkReaches(mode: Mode, boundary: nat, p: Plan, qs: seq<Request>, k: nat)
    requires Sound(mode, boundary, p) && AllReadonly(mode, qs) && k <= |qs| && ReachKnown(p, boundary)
    ensures ReachKnown(Walk(mode, boundary, p, qs, k), boundary)
    decreases k
  {
    hide Choose, Geometry, Covered, Put, Reached;
    if k > 0 {
      WalkReaches(mode, boundary, p, qs, k - 1);
      WalkKeeps(mode, boundary, p, qs, k - 1);
      var c, q := Walk(mode, boundary, p, qs, k - 1), qs[k - 1];
      ChooseGood(mode, boundary, c, q);
      PutReaches(c, Choose(mode, boundary, c.first, LastEnd(c.regions), q), q, boundary);
    }
  }

  // ----- where a partition starts -----

  /** The start ptool should give on the GPT path to a partition when `free` is the sector after the one before it and
      protection reaches up to `reached`: the free sector, raised to its performance boundary if wanted; moved to the
      next write-protect boundary only if it is writable and still protected, or read-only and not. */
  ghost predicate GptStartsAt(start: nat, free: nat, reached: nat, readonly: bool, perf: nat, alignPerf: bool,
                              boundary: nat)
    requires boundary >= 1
  {
    var f := if alignPerf && perf > 0 then LeastMultiple(free, perf) else free;
    start == if (f <= reached) != readonly then LeastMultiple(f, boundary) else f
  }

  /** The same for a logical partition; a writable one may ask for the ALIGN boundary instead. */
  ghost predicate LogicalStartsAt(start: nat, free: nat, reached: nat, readonly: bool, align: bool, alignBoundary: nat,
                                  boundary: nat)
    requires boundary >= 1
  {
    if !readonly && align then start == if alignBoundary > 0 then LeastMultiple(free, alignBoundary) else free
    else start == if (free <= reached) != readonly then LeastMultiple(free, boundary) else free
  }

  lemma {:induction false} ChooseStartsGpt(boundary: nat, free: nat, reached: nat, q: Request, alignPerf: bool)
    requires boundary >= 1
    ensures GptStartsAt(Choose(Mode.Gpt(alignPerf), boundary, free, reached, q), free, reached, q.readonly, q.perf,
                        alignPerf, boundary)
  {
    hide LeastMultiple, Till;
    if alignPerf && q.perf > 0 {
      TillIsLeast(free, q.perf);
    } else {
      NoBoundary(free);
    }
    var f := if alignPerf then free + Till(free, q.perf) else free;
    TillIsLeast(f, boundary);
  }

  lemma {:induction false} NoBoundary(f: nat)
    ensures Till(f, 0) == 0
  {
  }

  lemma {:induction false} ChooseStartsLogical(boundary: nat, free: nat, reached: nat, q: Request, alignBoundary: nat)
    requires boundary >= 1
    ensures LogicalStartsAt(Choose(Mode.Logical(alignBoundary), boundary, free, reached, q), free, reached, q.readonly,
                            q.align, alignBoundary, boundary)
  {
    hide LeastMultiple, Till;
    if alignBoundary > 0 {
      TillIsLeast(free, alignBoundary);
    } else {
      NoBoundary(free);
    }
    TillIsLeast(free, boundary);
  }

  /** The sector after partition `i` of the placed ones. */
  function EndOf(ps: seq<Placed>, i: nat): nat
    requires i < |ps|
  {
    ps[i].first + ps[i].size
  }

  // ----- the GPT layout -----

  /** The sector a GPT partition is placed after: the end of the one before it, or the tables. */
  function FreeFor(ps: seq<Placed>, skip: nat, k: nat): nat
    requires skip + k <= |ps|
  {
    if k == 0 then 34 else EndOf(ps, skip + k - 1)
  }

  /** Partition `k` has what its request asks for and starts where it should. */
  ghost predicate GptPlacedAt(ps: seq<Placed>, skip: nat, qs: seq<Request>, k: nat, alignPerf: bool, grow: bool,
                              boundary: nat)
    requires boundary >= 1 && k < |qs| && |ps| == skip + |qs|
  {
    var x, q, grown := ps[skip + k], qs[k], grow && k == |qs| - 1;
    && x.readonly == q.readonly && x.grown == grown && x.size == (if grown then 0 else q.size)
    && GptStartsAt(x.first, FreeFor(ps, skip, k), Reached(ps[..skip + k], boundary), q.readonly, q.perf, alignPerf,
                   boundary)
  }

  /** Every GPT plan: the table first if it is protected, then every partition where it should be; and the last region
      ends where protection reaches. */
  lemma {:induction false} GptPlacement(qs: seq<Request>, boundary: nat, alignPerf: bool, protectTable: bool,
                                        grow: bool)
    requires boundary >= 1 && (protectTable ==> boundary >= 34) && Plain(qs)
    ensures var p, skip := GptPlan(qs, boundary, alignPerf, protectTable, grow), if protectTable then 1 else 0;
            && |p.placed| == skip + |qs|
            && (protectTable ==> p.placed[0] == Placed(0, 34, true, false))
            && (forall k :: 0 <= k < |qs| ==> GptPlacedAt(p.placed, skip, qs, k, alignPerf, grow, boundary))
            && LastEnd(p.regions) == Reached(p.placed, boundary)
            && p.first == FreeFor(p.placed, skip, |qs|)
  {
    hide Choose, WpUpdate, Walk, Reached, GptPlacedAt, Geometry, Covered, Clear;
    var start, rs, skip := GptStart(boundary, protectTable), GptRequests(qs, grow), if protectTable then 1 else 0;
    var p := GptPlan(qs, boundary, alignPerf, protectTable, grow);
    GptStartSound(boundary, protectTable, alignPerf);
    GptStartReached(boundary, protectTable);
    WalkReaches(Mode.Gpt(alignPerf), boundary, start, rs, |qs|);
    WalkLast(Mode.Gpt(alignPerf), boundary, start, rs);
    if protectTable {
      WalkPrefix(Mode.Gpt(alignPerf), boundary, start, rs, |qs|, 0);
    }
    forall k | 0 <= k < |qs|
      ensures GptPlacedAt(p.placed, skip, qs, k, alignPerf, grow, boundary)
    {
      GptPlacedStep(qs, boundary, alignPerf, protectTable, grow, k);
    }
  }

  lemma {:induction false} GptStartReached(boundary: nat, protectTable: bool)
    requires boundary >= 1 && (protectTable ==> boundary >= 34)
    ensures var p, skip := GptStart(boundary, protectTable), if protectTable then 1 else 0;
            && ReachKnown(p, boundary) && p.first == 34 && |p.placed| == skip
            && (protectTable ==> p.placed == [Placed(0, 34, true, false)])
  {
    hide LeastMultiple;
    var p := GptStart(boundary, protectTable);
    if protectTable {
      ReachedNext([], Placed(0, 34, true, false), boundary);
      assert [] + [Placed(0, 34, true, false)] == p.placed;
      ModAdd(0, boundary);
      IsLeast(34, boundary, boundary);
    }
  }

  /** The plan after some steps has placed a prefix of what it places in the end. */
  lemma {:induction false} WalkIsPrefix(mode: Mode, boundary: nat, p: Plan, qs: seq<Request>, j: nat, k: nat)
    requires p.regions != [] && boundary >= 1 && j <= k <= |qs|
    ensures Walk(mode, boundary, p, qs, j).placed == Walk(mode, boundary, p, qs, k).placed[..|p.placed| + j]
    decreases k
  {
    hide Choose, WpUpdate;
    if j < k {
      WalkIsPrefix(mode, boundary, p, qs, j, k - 1);
    }
  }

  /** The free sector before step `k`. */
  lemma {:induction false} WalkFree(mode: Mode, boundary: nat, p: Plan, qs: seq<Request>, k: nat)
    requires p.regions != [] && boundary >= 1 && k <= |qs|
    ensures var r := Walk(mode, boundary, p, qs, |qs|);
            Walk(mode, boundary, p, qs, k).first == if k == 0 then p.first else EndOf(r.placed, |p.placed| + k - 1)
  {
    hide Choose, WpUpdate;
    if k > 0 {
      WalkIsPrefix(mode, boundary, p, qs, k, |qs|);
      var b := Walk(mode, boundary, p, qs, k);
      assert b.first == EndOf(b.placed, |p.placed| + k - 1);
    }
  }

  lemma {:induction false} GptPlacedStep(qs: seq<Request>, boundary: nat, alignPerf: bool, protectTable: bool,
                                         grow: bool, k: nat)
    requires boundary >= 1 && (protectTable ==> boundary >= 34) && Plain(qs) && k < |qs|
    ensures var p, skip := GptPlan(qs, boundary, alignPerf, protectTable, grow), if protectTable then 1 else 0;
            |p.placed| == skip + |qs| && GptPlacedAt(p.placed, skip, qs, k, alignPerf, grow, boundary)
  {
    hide Choose, WpUpdate, Walk, Reached, Geometry, Covered, Clear, GptStartsAt, GptStart;
    var mode, start, rs := Mode.Gpt(alignPerf), GptStart(boundary, protectTable), GptRequests(qs, grow);
    GptStartSound(boundary, protectTable, alignPerf);
    GptStartReached(boundary, protectTable);
    WalkReaches(mode, boundary, start, rs, k);
    PlacedAt(mode, boundary, start, rs, |qs|, k);
    WalkIsPrefix(mode, boundary, start, rs, k, |qs|);
    WalkFree(mode, boundary, start, rs, k);
    var b := Walk(mode, boundary, start, rs, k);
    ChooseStartsGpt(boundary, b.first, LastEnd(b.regions), rs[k], alignPerf);
  }

  /** Sectors asked for by the first `k` requests. */
  function TotalSize(qs: seq<Request>, k: nat): nat
    requires k <= |qs|
  {
    if k == 0 then 0 else TotalSize(qs, k - 1) + qs[k - 1].size
  }

  /** Writable partitions without alignment are packed with no gap, from the end of the tables or of their region. */
  lemma {:induction false} WritablePacked(qs: seq<Request>, boundary: nat, protectTable: bool, k: nat)
    requires boundary >= 1 && (protectTable ==> boundary >= 34) && Plain(qs) && k < |qs|
    requires forall i :: 0 <= i < |qs| ==> !qs[i].readonly
    ensures var p, skip := GptPlan(qs, boundary, false, protectTable, false), if protectTable then 1 else 0;
            |p.placed| == skip + |qs|
            && p.placed[skip + k].first == (if protectTable then boundary else 34) + TotalSize(qs, k)
    decreases k
  {
    hide Reached, GptPlan, LeastMultiple;
    var ps, skip := GptPlan(qs, boundary, false, protectTable, false).placed, if protectTable then 1 else 0;
    GptPlacement(qs, boundary, false, protectTable, false);
    assert GptPlacedAt(ps, skip, qs, k, false, false, boundary);
    forall i | skip <= i < skip + k
      ensures !ps[i].readonly
    {
      assert GptPlacedAt(ps, skip, qs, i - skip, false, false, boundary);
    }
    ReachedStays(ps, skip, k, boundary);
    GptStartReached(boundary, protectTable);
    assert protectTable ==> ps[..skip] == [Placed(0, 34, true, false)];
    assert !protectTable ==> ps[..skip] == [];
    TableReach(boundary);
    if k > 0 {
      WritablePacked(qs, boundary, protectTable, k - 1);
      assert GptPlacedAt(ps, skip, qs, k - 1, false, false, boundary);
    } else if protectTable {
      ModAdd(0, boundary);
      IsLeast(34, boundary, boundary);
    }
  }

  lemma {:induction false} TableReach(boundary: nat)
    requires boundary >= 1
    ensures Reached([], boundary) == 0
    ensures boundary >= 34 ==> Reached([Placed(0, 34, true, false)], boundary) == boundary - 1
  {
    hide LeastMultiple;
    if boundary >= 34 {
      ReachedNext([], Placed(0, 34, true, false), boundary);
      assert [] + [Placed(0, 34, true, false)] == [Placed(0, 34, true, false)];
      ModAdd(0, boundary);
      IsLeast(34, boundary, boundary);
    }
  }

  /** Writable partitions do not move protection on. */
  lemma {:induction false} ReachedStays(ps: seq<Placed>, skip: nat, k: nat, boundary: nat)
    requires boundary >= 1 && skip + k <= |ps| && forall i :: skip <= i < skip + k ==> !ps[i].readonly
    ensures Reached(ps[..skip + k], boundary) == Reached(ps[..skip], boundary)
    decreases k
  {
    hide LeastMultiple;
    if k > 0 {
      ReachedStays(ps, skip, k - 1, boundary);
      assert ps[..skip + k][..skip + k - 1] == ps[..skip + (k - 1)];
    }
  }

  // ----- the MBR layout -----

  /** Primary `k`: after the MBR or the primary before it, read-only, with the size asked for. */
  ghost predicate PrimaryPlacedAt(ps: seq<Placed>, qs: seq<Request>, k: nat, grow: bool)
    requires k < |qs| && 1 + k < |ps|
  {
    ps[1 + k] == Placed(EndOf(ps, k), qs[k].size, true, grow && k == |qs| - 1)
  }

  /** Logical partition `k` of the requests after the first three: writable if it is the last. */
  ghost predicate LogicalPlacedAt(ps: seq<Placed>, qs: seq<Request>, k: nat, alignBoundary: nat, grow: bool,
                                  boundary: nat)
    requires boundary >= 1 && 3 <= k < |qs| && |ps| == 2 + |qs|
  {
    var x, q, last := ps[2 + k], qs[k], k == |qs| - 1;
    && x.readonly == (q.readonly && !last) && x.grown == last && x.size == (if last && grow then 0 else q.size)
    && LogicalStartsAt(x.first, EndOf(ps, 1 + k), Reached(ps[..2 + k], boundary), x.readonly, q.align, alignBoundary,
                       boundary)
  }

  /** Every MBR plan: the MBR sector, then up to four primaries without a gap; or three, the EBR tables after them, and
      the logical partitions where they should be. */
  lemma {:induction false} MbrPlacement(qs: seq<Request>, boundary: nat, alignBoundary: nat, grow: bool)
    requires boundary >= 1 && Plain(qs)
    ensures var p := MbrPlan(qs, boundary, alignBoundary, grow);
            && |p.placed| == (if |qs| <= 4 then 1 + |qs| else 2 + |qs|)
            && p.placed[0] == Placed(0, 1, true, false)
            && LastEnd(p.regions) == Reached(p.placed, boundary)
            && (|qs| <= 4 ==> forall k :: 0 <= k < |qs| ==> PrimaryPlacedAt(p.placed, qs, k, grow))
            && (|qs| > 4 ==>
                  && (forall k :: 0 <= k < 3 ==> PrimaryPlacedAt(p.placed, qs, k, false))
                  && p.placed[4] == Placed(EndOf(p.placed, 3), |qs| - 3, true, false)
                  && forall k :: 3 <= k < |qs| ==> LogicalPlacedAt(p.placed, qs, k, alignBoundary, grow, boundary))
  {
    hide Choose, WpUpdate, Walk, Reached, LogicalPlacedAt, PrimaryPlacedAt, Geometry, Covered, Clear;
    if |qs| <= 4 {
      PrimaryPlacement(qs, boundary, grow);
    } else {
      ExtendedPlacement(qs, boundary, alignBoundary, grow);
      forall k | 3 <= k < |qs|
        ensures LogicalPlacedAt(MbrPlan(qs, boundary, alignBoundary, grow).placed, qs, k, alignBoundary, grow, boundary)
      {
        LogicalPlacedStep(qs, boundary, alignBoundary, grow, k);
      }
    }
  }

  lemma {:induction false} PrimaryPlacement(qs: seq<Request>, boundary: nat, grow: bool)
    requires boundary >= 1 && Plain(qs)
    ensures var p := PrimaryPlan(qs, boundary, grow);
            && |p.placed| == 1 + |qs| && p.placed[0] == Placed(0, 1, true, false) && ReachKnown(p, boundary)
            && p.first == EndOf(p.placed, |qs|)
            && forall k :: 0 <= k < |qs| ==> PrimaryPlacedAt(p.placed, qs, k, grow)
  {
    hide WpUpdate, Walk, Reached, Geometry, Covered, Clear;
    var start, rs, p := MbrStart(boundary), PrimaryRequests(qs, grow), PrimaryPlan(qs, boundary, grow);
    MbrStartSound(boundary);
    MbrStartReached(boundary);
    WalkReaches(Primary, boundary, start, rs, |qs|);
    WalkPrefix(Primary, boundary, start, rs, |qs|, 0);
    WalkFree(Primary, boundary, start, rs, |qs|);
    forall k | 0 <= k < |qs|
      ensures PrimaryPlacedAt(p.placed, qs, k, grow)
    {
      PlacedAt(Primary, boundary, start, rs, |qs|, k);
      WalkFree(Primary, boundary, start, rs, k);
    }
  }

  lemma {:induction false} MbrStartReached(boundary: nat)
    requires boundary >= 1
    ensures ReachKnown(MbrStart(boundary), boundary)
  {
    hide LeastMultiple;
    ReachedNext([], Placed(0, 1, true, false), boundary);
    assert [] + [Placed(0, 1, true, false)] == [Placed(0, 1, true, false)];
    ModAdd(0, boundary);
    IsLeast(1, boundary, boundary);
  }

  /** The tables are placed, and protection reaches what it should, before and after the logical partitions. */
  lemma {:induction false} ExtendedPlacement(qs: seq<Request>, boundary: nat, alignBoundary: nat, grow: bool)
    requires boundary >= 1 && Plain(qs) && |qs| > 4
    ensures var p, start := MbrPlan(qs, boundary, alignBoundary, grow), ExtendedStart(qs, boundary);
            && |start.placed| == 5 && ReachKnown(start, boundary) && start.first == EndOf(start.placed, 4)
            && |p.placed| == 2 + |qs| && p.placed[..5] == start.placed && ReachKnown(p, boundary)
            && p.placed[0] == Placed(0, 1, true, false)
            && (forall k :: 0 <= k < 3 ==> PrimaryPlacedAt(p.placed, qs, k, false))
            && p.placed[4] == Placed(EndOf(p.placed, 3), |qs| - 3, true, false)
  {
    hide WpUpdate, Walk, Reached, Geometry, Covered, Clear, Choose;
    var mode, start, rs := Mode.Logical(alignBoundary), ExtendedStart(qs, boundary), LogicalRequests(qs[3..], grow);
    var three, p := PrimaryPlan(qs[..3], boundary, false), MbrPlan(qs, boundary, alignBoundary, grow);
    PrimarySound(qs[..3], boundary, false);
    PrimaryPlacement(qs[..3], boundary, false);
    PutReaches(three, three.first, EbrRequest(|qs| - 3), boundary);
    ExtendedSound(qs, boundary, alignBoundary);
    WalkReaches(mode, boundary, start, rs, |rs|);
    WalkIsPrefix(mode, boundary, start, rs, 0, |rs|);
    NoSteps(mode, boundary, start, rs);
    assert forall i :: 0 <= i < 5 ==> p.placed[i] == p.placed[..5][i];
    forall k | 0 <= k < 3
      ensures PrimaryPlacedAt(p.placed, qs, k, false)
    {
      assert PrimaryPlacedAt(three.placed, qs[..3], k, false);
    }
  }

  lemma {:induction false} NoSteps(mode: Mode, boundary: nat, p: Plan, qs: seq<Request>)
    requires p.regions != [] && boundary >= 1
    ensures Walk(mode, boundary, p, qs, 0) == p
  {
  }

  lemma {:induction false} LogicalPlacedStep(qs: seq<Request>, boundary: nat, alignBoundary: nat, grow: bool, k: nat)
    requires boundary >= 1 && Plain(qs) && |qs| > 4 && 3 <= k < |qs|
    ensures var p := MbrPlan(qs, boundary, alignBoundary, grow);
            |p.placed| == 2 + |qs| && LogicalPlacedAt(p.placed, qs, k, alignBoundary, grow, boundary)
  {
    hide Choose, WpUpdate, Walk, Reached, Geometry, Covered, Clear, LogicalStartsAt, ExtendedStart;
    var mode, start, rs := Mode.Logical(alignBoundary), ExtendedStart(qs, boundary), LogicalRequests(qs[3..], grow);
    var j := k - 3;
    ExtendedPlacement(qs, boundary, alignBoundary, grow);
    ExtendedSound(qs, boundary, alignBoundary);
    WalkReaches(mode, boundary, start, rs, j);
    PlacedAt(mode, boundary, start, rs, |rs|, j);
    WalkIsPrefix(mode, boundary, start, rs, j, |rs|);
    WalkFree(mode, boundary, start, rs, j);
    var b := Walk(mode, boundary, start, rs, j);
    assert 5 + j == 2 + k && 5 + j - 1 == 1 + k;
    ChooseStartsLogical(boundary, b.first, LastEnd(b.regions), rs[j], alignBoundary);
  }

  // ----- what is protected -----

  /** A read-only partition with sectors has one in the same write-protect boundary as sector `x`. */
  ghost predicate Touches(q: Placed, boundary: nat, x: nat)
    requires boundary >= 1
  {
    q.readonly && q.size > 0 && q.first / boundary <= x / boundary <= (q.first + q.size - 1) / boundary
  }

  /** Sector `x` is protected exactly if a read-only partition touches its boundary. */
  ghost predicate Minimal(p: Plan, boundary: nat, x: nat)
    requires boundary >= 1
  {
    Protected(p.regions, x) <==> TouchedBy(p.placed, boundary, x)
  }

  ghost predicate TouchedBy(ps: seq<Placed>, boundary: nat, x: nat)
    requires boundary >= 1
  {
    exists i :: 0 <= i < |ps| && Touches(ps[i], boundary, x)
  }

  lemma {:induction false} BlockBelow(x: nat, m: nat, boundary: nat)
    requires boundary >= 1 && m % boundary == 0
    ensures x < m <==> x / boundary < m / boundary
  {
    var a, b := x / boundary, m / boundary;
    assert x == boundary * a + x % boundary && m == boundary * b;
    if a < b {
      Under(boundary, a, b, x % boundary);
    } else {
      Scaled(boundary, b, a);
    }
  }

  lemma {:induction false} Under(c: nat, a: nat, b: nat, r: nat)
    requires a < b && r < c
    ensures c * a + r < c * b
  {
    assert c * (a + 1) == c * a + c;
    Scaled(c, a + 1, b);
  }

  lemma {:induction false} Scaled(c: nat, a: nat, b: nat)
    requires a <= b
    ensures c * a <= c * b
  {
  }

  /** The least multiple above `last` begins the next boundary. */
  lemma {:induction false} LastBlock(last: nat, boundary: nat)
    requires boundary >= 1
    ensures var m := LeastMultiple(last + 1, boundary); m % boundary == 0 && m / boundary == last / boundary + 1
  {
    hide LeastMultiple;
    var m := LeastMultiple(last + 1, boundary);
    LeastMultipleMeans(last + 1, boundary);
    var b := last / boundary + 1;
    assert boundary * b == boundary * (last / boundary) + boundary;
    assert boundary * b == b * boundary;
    Multiple(b, boundary);
    IsLeast(last + 1, boundary, boundary * b);
    DivUnique(boundary * b, boundary, b, 0);
  }

  /** The sectors of the boundaries up to that of `last`. */
  lemma {:induction false} UpToBlock(last: nat, x: nat, boundary: nat)
    requires boundary >= 1
    ensures x / boundary <= last / boundary <==> x < LeastMultiple(last + 1, boundary)
  {
    hide LeastMultiple;
    LastBlock(last, boundary);
    BlockBelow(x, LeastMultiple(last + 1, boundary), boundary);
  }

  /** A later sector is in no earlier boundary. */
  lemma {:induction false} TouchFrom(start: nat, x: nat, boundary: nat)
    requires boundary >= 1
    ensures start <= x ==> start / boundary <= x / boundary
  {
    hide LeastMultiple;
    LastBlock(x, boundary);
    LeastMultipleMeans(x + 1, boundary);
    BlockBelow(start, LeastMultiple(x + 1, boundary), boundary);
  }

  lemma {:induction false} StartBlock(from: nat, start: nat, x: nat, boundary: nat)
    requires boundary >= 1 && from % boundary == 0 && from <= start
    ensures start / boundary <= x / boundary ==> from <= x
  {
    TouchFrom(from, start, boundary);
    BlockBelow(x, from, boundary);
  }

  /** Extending a region for a partition that starts in it or just after adds the boundaries that partition touches. */
  lemma {:induction false} ExtendProtects(r: Region, start: nat, size: nat, boundary: nat, x: nat)
    requires boundary >= 1 && WellFormed(r, boundary) && r.start <= start <= r.end + 1 && size > 0
    ensures var e := Extend(r, start + size - 1, boundary);
            && e.start == r.start && e.end >= r.end
            && (r.start <= x <= e.end <==>
                  r.start <= x <= r.end || start / boundary <= x / boundary <= (start + size - 1) / boundary)
  {
    var aligned := r.start;
    EndAligned(r, boundary);
    ExtendReaches(r, start, size, boundary);
    assert r.start % boundary == 0;
    hide Extend, LeastMultiple, WellFormed;
    UpToBlock(start + size - 1, x, boundary);
    TouchFrom(start, x, boundary);
    StartBlock(aligned, start, x, boundary);
    LeastMultipleMeans(start + size, boundary);
  }

  /** Placing a read-only partition protects exactly the boundaries it touches. */
  lemma {:induction false} WpUpdateProtects(rs: seq<Region>, start: nat, size: nat, boundary: nat, x: nat)
    requires boundary >= 1 && rs != [] && start >= 1 && size > 0
    requires WellFormed(rs[|rs| - 1], boundary) || start > rs[|rs| - 1].end + 1
    requires if start <= LastEnd(rs) + 1 then rs[|rs| - 1].start <= start else start % boundary == 0
    ensures Protected(WpUpdate(rs, start, size, boundary), x) <==>
            Protected(rs, x) || start / boundary <= x / boundary <= (start + size - 1) / boundary
  {
    hide Extend, WellFormed, Protected;
    var last := rs[|rs| - 1];
    if start - 1 <= last.end {
      ExtendProtects(last, start, size, boundary, x);
      ProtectedLast(rs, Extend(last, start + size - 1, boundary), x);
    } else {
      NewRegion(start, boundary);
      var added := Region(start, boundary, start + boundary - 1, start / boundary, 1);
      ExtendProtects(added, start, size, boundary, x);
      StartOfRegion(start, size, boundary, x);
      ProtectedMore(rs, Extend(added, start + size - 1, boundary), x);
    }
  }

  /** The first boundary of a partition that starts on one. */
  lemma {:induction false} StartOfRegion(start: nat, size: nat, boundary: nat, x: nat)
    requires boundary >= 1 && start % boundary == 0 && size > 0
    ensures start <= x <= start + boundary - 1 ==>
              start / boundary <= x / boundary <= (start + size - 1) / boundary
  {
    ModAdd(start, boundary);
    BlockBelow(x, start + boundary, boundary);
    TouchFrom(start, x, boundary);
    TouchFrom(start, start + size - 1, boundary);
  }

  lemma {:induction false} ProtectedLast(rs: seq<Region>, r: Region, x: nat)
    requires rs != [] && r.start == rs[|rs| - 1].start && r.end >= rs[|rs| - 1].end
    ensures Protected(rs[..|rs| - 1] + [r], x) <==> Protected(rs, x) || rs[|rs| - 1].start <= x <= r.end
    ensures rs[|rs| - 1].start <= x <= rs[|rs| - 1].end ==> Protected(rs, x)
  {
    var n, t := |rs| - 1, rs[..|rs| - 1] + [r];
    if Protected(rs, x) {
      var i :| 0 <= i < |rs| && rs[i].start <= x <= rs[i].end;
      assert t[i].start <= x <= t[i].end;
    }
    if rs[n].start <= x <= r.end {
      assert t[n].start <= x <= t[n].end;
    }
    if Protected(t, x) {
      var i :| 0 <= i < |t| && t[i].start <= x <= t[i].end;
      if i < n {
        assert rs[i].start <= x <= rs[i].end;
      }
    }
  }

  lemma {:induction false} ProtectedMore(rs: seq<Region>, r: Region, x: nat)
    ensures Protected(rs + [r], x) <==> Protected(rs, x) || r.start <= x <= r.end
  {
    var t := rs + [r];
    if Protected(rs, x) {
      var i :| 0 <= i < |rs| && rs[i].start <= x <= rs[i].end;
      assert t[i].start <= x <= t[i].end;
    }
    if r.start <= x <= r.end {
      assert t[|rs|].start <= x <= t[|rs|].end;
    }
    if Protected(t, x) {
      var i :| 0 <= i < |t| && t[i].start <= x <= t[i].end;
      if i < |rs| {
        assert rs[i].start <= x <= rs[i].end;
      }
    }
  }

  lemma {:induction false} MinimalNext(p: Plan, start: nat, q: Request, boundary: nat, x: nat)
    requires boundary >= 1 && Geometry(p, boundary) && GoodStart(p, start, q, boundary) && (q.readonly ==> q.size > 0)
    requires Minimal(p, boundary, x)
    ensures Minimal(Put(p, start, q, boundary), boundary, x)
  {
    LastWellFormed(p, start, boundary);
    EndOfBlock(p, start, boundary);
    hide WpUpdate, Protected, Geometry, WellFormed, TouchedBy;
    TouchedNext(p.placed, Placed(start, q.size, q.readonly, q.grown), boundary, x);
    if q.readonly {
      WpUpdateProtects(p.regions, start, q.size, boundary, x);
    }
  }

  lemma {:induction false} TouchedNext(ps: seq<Placed>, q: Placed, boundary: nat, x: nat)
    requires boundary >= 1
    ensures TouchedBy(ps + [q], boundary, x) <==> TouchedBy(ps, boundary, x) || Touches(q, boundary, x)
  {
    hide Touches;
    var t := ps + [q];
    if TouchedBy(ps, boundary, x) {
      var i :| 0 <= i < |ps| && Touches(ps[i], boundary, x);
      assert Touches(t[i], boundary, x);
    }
    if Touches(q, boundary, x) {
      assert Touches(t[|ps|], boundary, x);
    }
  }

  lemma {:induction false} WalkMinimal(mode: Mode, boundary: nat, p: Plan, qs: seq<Request>, k: nat, x: nat)
    requires Sound(mode, boundary, p) && AllReadonly(mode, qs) && k <= |qs| && Minimal(p, boundary, x)
    requires forall i :: 0 <= i < k && qs[i].readonly ==> qs[i].size > 0
    ensures Minimal(Walk(mode, boundary, p, qs, k), boundary, x)
    decreases k
  {
    hide Choose, Geometry, Covered, Put, Minimal;
    if k > 0 {
      WalkMinimal(mode, boundary, p, qs, k - 1, x);
      WalkKeeps(mode, boundary, p, qs, k - 1);
      var c, q := Walk(mode, boundary, p, qs, k - 1), qs[k - 1];
      ChooseGood(mode, boundary, c, q);
      MinimalNext(c, Choose(mode, boundary, c.first, LastEnd(c.regions), q), q, boundary, x);
    }
  }

  /** On the GPT path, if every read-only partition is planned with sectors, the protected sectors are exactly those
      that share a write-protect boundary with a read-only partition or the protected table. (Sector 0 lies in the
      entry that stands for no region.) */
  lemma {:induction false} GptProtectsExactly(qs: seq<Request>, boundary: nat, alignPerf: bool, protectTable: bool,
                                              grow: bool, x: nat)
    requires boundary >= 1 && (protectTable ==> boundary >= 34) && Plain(qs) && x >= 1
    requires forall i :: 0 <= i < |qs| && qs[i].readonly ==> qs[i].size > 0 && !(grow && i == |qs| - 1)
    ensures Minimal(GptPlan(qs, boundary, alignPerf, protectTable, grow), boundary, x)
  {
    hide Minimal, Walk, Geometry, Covered, Clear;
    GptStartSound(boundary, protectTable, alignPerf);
    GptStartMinimal(boundary, protectTable, x);
    WalkMinimal(Mode.Gpt(alignPerf), boundary, GptStart(boundary, protectTable), GptRequests(qs, grow), |qs|, x);
  }

  lemma {:induction false} GptStartMinimal(boundary: nat, protectTable: bool, x: nat)
    requires boundary >= 1 && (protectTable ==> boundary >= 34) && x >= 1
    ensures Minimal(GptStart(boundary, protectTable), boundary, x)
  {
    hide Touches;
    var p, table := GptStart(boundary, protectTable), Placed(0, 34, true, false);
    if protectTable {
      FirstBlock(table, boundary, x);
      TouchedNext([], table, boundary, x);
      assert p.placed == [] + [table] && p.regions == [] + [FirstRegion(boundary)];
      ProtectedMore([], FirstRegion(boundary), x);
    }
  }

  /** What begins in sector 0 and ends within the first boundary touches that boundary alone. */
  lemma {:induction false} FirstBlock(q: Placed, boundary: nat, x: nat)
    requires boundary >= 1 && q.readonly && q.first == 0 && 0 < q.size <= boundary
    ensures Touches(q, boundary, x) <==> x < boundary
  {
    ModAdd(0, boundary);
    BlockBelow(x, boundary, boundary);
    BlockBelow(q.size - 1, boundary, boundary);
    DivUnique(boundary, boundary, 1, 0);
  }

  /** The same on the MBR path, for the MBR sector, the primaries, the EBR tables and the read-only logical
      partitions. */
  lemma {:induction false} MbrProtectsExactly(qs: seq<Request>, boundary: nat, alignBoundary: nat, grow: bool, x: nat)
    requires boundary >= 1 && Plain(qs)
    requires forall i :: 0 <= i < |qs| && (|qs| <= 4 || i < 3 || qs[i].readonly) ==> qs[i].size > 0
    ensures Minimal(MbrPlan(qs, boundary, alignBoundary, grow), boundary, x)
  {
    hide Minimal, Walk, Geometry, Covered, Clear;
    var start := MbrStart(boundary);
    MbrStartSound(boundary);
    MbrStartMinimal(boundary, x);
    if |qs| <= 4 {
      WalkMinimal(Primary, boundary, start, PrimaryRequests(qs, grow), |qs|, x);
    } else {
      var three := PrimaryPlan(qs[..3], boundary, false);
      WalkMinimal(Primary, boundary, start, PrimaryRequests(qs[..3], false), 3, x);
      PrimarySound(qs[..3], boundary, false);
      MinimalNext(three, three.first, EbrRequest(|qs| - 3), boundary, x);
      ExtendedSound(qs, boundary, alignBoundary);
      WalkMinimal(Mode.Logical(alignBoundary), boundary, ExtendedStart(qs, boundary), LogicalRequests(qs[3..], grow),
                  |qs| - 3, x);
    }
  }

  lemma {:induction false} MbrStartMinimal(boundary: nat, x: nat)
    requires boundary >= 1
    ensures Minimal(MbrStart(boundary), boundary, x)
  {
    hide Touches;
    var p, sector := MbrStart(boundary), Placed(0, 1, true, false);
    FirstBlock(sector, boundary, x);
    TouchedNext([], sector, boundary, x);
    assert p.placed == [] + [sector] && p.regions == [] + [FirstRegion(boundary)];
    ProtectedMore([], FirstRegion(boundary), x);
  }
}
