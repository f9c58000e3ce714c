/** End to end: from the requested partitions to what a reader of the finished disk finds. */
module GptDisk {
  import opened Bytes
  import opened Gpt
  import opened GptPatch
  import opened GptBuild
  import opened Layout
  import opened Planner
  import opened Patching

  const TWO64 := 0x1_0000_0000_0000_0000

  /** The entries ptool writes for the placed partitions. */
  ghost predicate Lists(es: seq<Entry>, ps: seq<Placed>) {
    && |es| == |ps|
    && forall k :: 0 <= k < |es| ==> es[k].first == ps[k].first && es[k].last + 1 == ps[k].first + ps[k].size
  }

  /** What the tables of a finished disk say about partition `k`, compared with how it was placed. */
  ghost predicate ReadsBack(a: seq<byte>, k: nat, p: Placed, n: nat)
    requires ENTRY * k + ENTRY <= |a|
  {
    && FirstLba(a, k) == p.first
    && LastLba(a, k) == if p.grown then n - 34 else p.first + p.size - 1
  }

  /** The sectors of partition `k`, as the table on the disk gives them. */
  ghost predicate OnDisk(a: seq<byte>, k: nat, sector: nat)
    requires ENTRY * k + ENTRY <= |a|
  {
    FirstLba(a, k) <= sector <= LastLba(a, k)
  }

  lemma {:induction false} TableReadsBack(es: seq<Entry>, ps: seq<Placed>, n: nat, grow: bool, k: nat)
    requires |es| <= 128 && Lists(es, ps) && k < |es| && 34 <= n < TWO64
    requires forall i :: 0 <= i < |ps| ==> (ps[i].grown <==> grow && i == |ps| - 1)
    requires ps[k].first + ps[k].size < TWO64
    ensures ReadsBack(ArrayBytes(Finished(es, n, grow)), k, ps[k], n)
  {
    hide ArrayBytes;
    ArrayRead(Finished(es, n, grow), k);
  }

  /** The sectors the table gives to writable partitions are all unprotected. */
  ghost predicate WritableFree(a: seq<byte>, qs: seq<Request>, rs: seq<Region>)
    requires ENTRY * |qs| <= |a|
  {
    forall k, x: nat :: 0 <= k < |qs| && !qs[k].readonly && OnDisk(a, k, x) ==> !Protected(rs, x)
  }

  /** The sectors the table gives to read-only partitions are all protected. */
  ghost predicate ReadonlyHeld(a: seq<byte>, qs: seq<Request>, rs: seq<Region>)
    requires ENTRY * |qs| <= |a|
  {
    forall k, x: nat :: 0 <= k < |qs| && qs[k].readonly && OnDisk(a, k, x) ==> Protected(rs, x)
  }

  /** Entries lie in the usable sectors, in order and without overlap. */
  ghost predicate Arranged(a: seq<byte>, count: nat, n: nat)
    requires ENTRY * count <= |a|
  {
    && (forall k :: 0 <= k < count ==> GPT_SECTORS <= FirstLba(a, k) && LastLba(a, k) <= n - 34)
    && (forall j, k :: 0 <= j < k < count ==> LastLba(a, j) < FirstLba(a, k))
  }

  /** Every entry has sectors, and all of them are usable. */
  ghost predicate Proper(a: seq<byte>, count: nat, n: nat)
    requires ENTRY * count <= |a|
  {
    forall k :: 0 <= k < count ==> FirstLba(a, k) <= LastLba(a, k) <= n - 34
  }

  /** Every partition that is not grown asks for sectors, and the plan leaves room for the backup table, and for a grown
      last partition a sector of its own. */
  ghost predicate Fits(qs: seq<Request>, grow: bool, p: Plan, n: nat) {
    && (forall i :: 0 <= i < |qs| && !(grow && i == |qs| - 1) ==> qs[i].size >= 1)
    && p.first <= n - if grow && qs != [] then 34 else 33
  }

  /** The last `count` placed partitions: all but the partition table itself. */
  ghost function Tail(p: Plan, count: nat): (ps: seq<Placed>)
    requires count <= |p.placed|
    ensures |ps| == count
  {
    p.placed[|p.placed| - count..]
  }

  /** The entries list what the plan placed. */
  ghost predicate Implements(es: seq<Entry>, p: Plan, count: nat) {
    count == |es| <= 128 && count <= |p.placed| && Lists(es, Tail(p, count)) && p.first < TWO64
  }

  /** Every entry of the finished disk reads back as it was placed. */
  ghost predicate AllReadBack(a: seq<byte>, p: Plan, count: nat, n: nat)
    requires ENTRY * count <= |a| && count <= |p.placed|
  {
    forall k :: 0 <= k < count ==> ReadsBack(a, k, Tail(p, count)[k], n)
  }

  lemma {:induction false} FinishedTableReadsBack(qs: seq<Request>, boundary: nat, alignPerf: bool, protectTable: bool,
                                                  grow: bool, p: Plan, es: seq<Entry>, n: nat)
    requires boundary >= 1 && Plain(qs)
    requires p == GptPlan(qs, boundary, alignPerf, protectTable, grow) && Implements(es, p, |qs|)
    requires 34 <= n < TWO64
    ensures AllReadBack(ArrayBytes(Finished(es, n, grow)), p, |qs|, n)
    ensures p.first <= n - 33 ==> Arranged(ArrayBytes(Finished(es, n, grow)), |qs|, n)
    ensures n >= 67 ==> (Proper(ArrayBytes(Finished(es, n, grow)), |qs|, n) <==> Fits(qs, grow, p, n))
  {
    hide ArrayBytes, FirstLba, LastLba, GptPlan, Finished;
    var a, ps := ArrayBytes(Finished(es, n, grow)), Tail(p, |qs|);
    PlanFlags(qs, boundary, alignPerf, protectTable, grow, p);
    PlanOrder(qs, boundary, alignPerf, protectTable, grow, p);
    forall k | 0 <= k < |qs|
      ensures ReadsBack(a, k, ps[k], n)
    {
      TableReadsBack(es, ps, n, grow, k);
    }
    if p.first <= n - 33 {
      forall k | 0 <= k < |qs|
        ensures GPT_SECTORS <= FirstLba(a, k) && LastLba(a, k) <= n - 34
      {
        assert ReadsBack(a, k, ps[k], n);
      }
      forall j, k | 0 <= j < k < |qs|
        ensures LastLba(a, j) < FirstLba(a, k)
      {
        assert ReadsBack(a, j, ps[j], n) && ReadsBack(a, k, ps[k], n);
      }
    }
    if n >= 67 {
      PlanSized(qs, boundary, alignPerf, protectTable, grow, p);
      ProperExactly(qs, grow, p, a, n);
    }
  }

  /** What the plan gives to the requests. */
  ghost predicate Sized(qs: seq<Request>, grow: bool, p: Plan)
    requires |qs| <= |p.placed|
  {
    var ps := Tail(p, |qs|);
    && (forall k :: 0 <= k < |qs| ==> ps[k].size == if grow && k == |qs| - 1 then 0 else qs[k].size)
    && (forall k :: 0 <= k < |qs| ==> ps[k].first + ps[k].size <= p.first)
    && (if qs == [] then p.first == GPT_SECTORS else p.first == ps[|qs| - 1].first + ps[|qs| - 1].size)
  }

  lemma {:induction false} ProperExactly(qs: seq<Request>, grow: bool, p: Plan, a: seq<byte>, n: nat)
    requires ENTRY * |qs| <= |a| && |qs| <= |p.placed| && n >= 67
    requires AllReadBack(a, p, |qs|, n) && Flags(qs, grow, Tail(p, |qs|)) && Sized(qs, grow, p)
    ensures Proper(a, |qs|, n) <==> Fits(qs, grow, p, n)
  {
    hide FirstLba, LastLba;
    var ps := Tail(p, |qs|);
    forall k | 0 <= k < |qs|
      ensures FirstLba(a, k) == ps[k].first
      ensures LastLba(a, k) == if grow && k == |qs| - 1 then n - 34 else ps[k].first + qs[k].size - 1
    {
      assert ReadsBack(a, k, ps[k], n);
    }
    if Proper(a, |qs|, n) && qs != [] {
      assert FirstLba(a, |qs| - 1) <= LastLba(a, |qs| - 1) <= n - 34;
    }
  }

  /** Whatever the boundary and the requests, the placed partitions follow the tables and one another. */
  lemma {:induction false} PlanOrder(qs: seq<Request>, boundary: nat, alignPerf: bool, protectTable: bool, grow: bool,
                                     p: Plan)
    requires boundary >= 1 && p == GptPlan(qs, boundary, alignPerf, protectTable, grow)
    ensures var ps := Tail(p, |qs|);
            && (forall k :: 0 <= k < |qs| ==> GPT_SECTORS <= ps[k].first && ps[k].first + ps[k].size <= p.first)
            && (forall j, k :: 0 <= j < k < |qs| ==> ps[j].first + ps[j].size <= ps[k].first)
  {
    hide Choose, WpUpdate, Walk;
    var start, rs := GptStart(boundary, protectTable), GptRequests(qs, grow);
    WalkOrdered(Mode.Gpt(alignPerf), boundary, start, rs, |qs|);
    TailOrdered(p, |qs|);
    forall k | 0 <= k < |qs|
      ensures GPT_SECTORS <= Tail(p, |qs|)[k].first
    {
      PlacedAfter(Mode.Gpt(alignPerf), boundary, start, rs, k);
      assert Tail(p, |qs|)[k] == p.placed[|start.placed| + k];
    }
  }

  lemma {:induction false} TailOrdered(p: Plan, count: nat)
    requires count <= |p.placed| && Ordered(p.placed, p.first)
    ensures Ordered(Tail(p, count), p.first)
  {
    assert forall k :: 0 <= k < count ==> Tail(p, count)[k] == p.placed[|p.placed| - count + k];
  }

  lemma {:induction false} PlanSized(qs: seq<Request>, boundary: nat, alignPerf: bool, protectTable: bool, grow: bool,
                                     p: Plan)
    requires boundary >= 1 && p == GptPlan(qs, boundary, alignPerf, protectTable, grow)
    ensures Sized(qs, grow, p)
  {
    hide GptPlan;
    PlanOrder(qs, boundary, alignPerf, protectTable, grow, p);
    PlanFree(qs, boundary, alignPerf, protectTable, grow, p);
    forall k | 0 <= k < |qs|
      ensures Tail(p, |qs|)[k].size == if grow && k == |qs| - 1 then 0 else qs[k].size
    {
      RequestSized(qs, boundary, alignPerf, protectTable, grow, p, k);
    }
  }

  lemma {:induction false} RequestSized(qs: seq<Request>, boundary: nat, alignPerf: bool, protectTable: bool,
                                        grow: bool, p: Plan, k: nat)
    requires boundary >= 1 && p == GptPlan(qs, boundary, alignPerf, protectTable, grow) && k < |qs|
    ensures Tail(p, |qs|)[k].size == if grow && k == |qs| - 1 then 0 else qs[k].size
  {
    hide Choose, WpUpdate, Walk, GptStart;
    var start, rs := GptStart(boundary, protectTable), GptRequests(qs, grow);
    PlacedAt(Mode.Gpt(alignPerf), boundary, start, rs, |qs|, k);
    assert Tail(p, |qs|)[k] == p.placed[|start.placed| + k];
  }

  lemma {:induction false} PlanFree(qs: seq<Request>, boundary: nat, alignPerf: bool, protectTable: bool, grow: bool,
                                    p: Plan)
    requires boundary >= 1 && p == GptPlan(qs, boundary, alignPerf, protectTable, grow)
    ensures qs == [] ==> p.first == GPT_SECTORS
    ensures qs != [] ==> var last := Tail(p, |qs|)[|qs| - 1]; p.first == last.first + last.size
  {
    hide Choose, WpUpdate, Walk, GptStart, GptRequests;
    WalkLast(Mode.Gpt(alignPerf), boundary, GptStart(boundary, protectTable), GptRequests(qs, grow));
    StartsAfterTable(boundary, protectTable);
    LastOfTail(p, |qs|);
  }

  lemma {:induction false} StartsAfterTable(boundary: nat, protectTable: bool)
    requires boundary >= 1
    ensures GptStart(boundary, protectTable).first == GPT_SECTORS
  {
    hide WpUpdate;
  }

  lemma {:induction false} LastOfTail(p: Plan, count: nat)
    requires count <= |p.placed|
    ensures count > 0 ==> Tail(p, count)[count - 1] == p.placed[|p.placed| - 1]
  {
  }

  /** The sectors of partition `k` on the disk are those of its place in the plan. */
  lemma {:induction false} SameSectors(a: seq<byte>, p: Plan, count: nat, n: nat, k: nat, x: nat)
    requires ENTRY * count <= |a| && count <= |p.placed| && AllReadBack(a, p, count, n) && k < count
    ensures OnDisk(a, k, x) <==> Holds(p.placed[|p.placed| - count + k], n - 34, x)
  {
    hide FirstLba, LastLba;
    assert ReadsBack(a, k, Tail(p, count)[k], n);
  }

  /** In the entry array of the finished disk, the sectors of read-only partitions are protected, unless the last one is
      grown beyond the last region; those of writable partitions are not, exactly when the plan is clear. */
  lemma {:induction false} FinishedTableRespectsProtection(qs: seq<Request>, boundary: nat, alignPerf: bool,
                                                           protectTable: bool,
                                                           grow: bool, p: Plan, es: seq<Entry>, n: nat)
    requires boundary >= 1 && (protectTable ==> boundary >= GPT_SECTORS) && Plain(qs)
    requires p == GptPlan(qs, boundary, alignPerf, protectTable, grow) && Implements(es, p, |qs|)
    requires 34 <= n < TWO64
    ensures var a := ArrayBytes(Finished(es, n, grow));
            && (ReadonlyHeld(a, qs, p.regions) <==>
                  !(grow && qs != [] && qs[|qs| - 1].readonly) || n - 34 < p.first || n - 34 <= LastEnd(p.regions))
            && (Clear(p) ==> WritableFree(a, qs, p.regions))
            && (p.first <= n - 34 && WritableFree(a, qs, p.regions) ==> Clear(p))
  {
    hide ArrayBytes, FirstLba, LastLba, GptPlan, Geometry, Clear, Covered, Finished, Tail, Flags, Protected,
        NeverTrapped;
    hide ReadonlyProtected, WritableUnprotected, AllReadBack, ReadonlyHeld, WritableFree, GrownAtEnd, GrownBelow;
    var a := ArrayBytes(Finished(es, n, grow));
    GptLayout(qs, boundary, alignPerf, protectTable, grow);
    PlanFlags(qs, boundary, alignPerf, protectTable, grow, p);
    FinishedTableReadsBack(qs, boundary, alignPerf, protectTable, grow, p, es, n);
    OnlyTableBefore(qs, boundary, alignPerf, protectTable, grow, p);
    ReadonlyOnDisk(a, qs, grow, p, n);
    WritableOnDisk(a, qs, grow, p, n);
    if Clear(p) {
      ClearIsUnprotected(p, n - 34);
    }
    if p.first <= n - 34 {
      WritableUnprotectedExactly(p, boundary, n - 34);
    }
  }

  /** Before the partitions, only the protected table itself is in the plan. */
  ghost predicate TableFirst(p: Plan, count: nat) {
    forall i :: 0 <= i < |p.placed| - count ==> p.placed[i].readonly && !p.placed[i].grown
  }

  lemma {:induction false} OnlyTableBefore(qs: seq<Request>, boundary: nat, alignPerf: bool, protectTable: bool,
                                           grow: bool, p: Plan)
    requires boundary >= 1 && p == GptPlan(qs, boundary, alignPerf, protectTable, grow)
    ensures TableFirst(p, |qs|)
  {
    hide Choose, WpUpdate, Walk;
    var start, rs := GptStart(boundary, protectTable), GptRequests(qs, grow);
    forall i | 0 <= i < |p.placed| - |qs|
      ensures p.placed[i].readonly && !p.placed[i].grown
    {
      WalkPrefix(Mode.Gpt(alignPerf), boundary, start, rs, |qs|, i);
    }
  }

  lemma {:induction false} ReadonlyOnDisk(a: seq<byte>, qs: seq<Request>, grow: bool, p: Plan, n: nat)
    requires p.regions != [] && Covered(p) && GrownBelow(p) && TableFirst(p, |qs|)
    requires ENTRY * |qs| <= |a| && |qs| <= |p.placed| && AllReadBack(a, p, |qs|, n) && Flags(qs, grow, Tail(p, |qs|))
    ensures ReadonlyHeld(a, qs, p.regions) <==> ReadonlyProtected(p, n - 34)
  {
    hide FirstLba, LastLba, Covered, Protected, AllReadBack, OnDisk, Holds, GrownBelow;
    var skip := |p.placed| - |qs|;
    if ReadonlyHeld(a, qs, p.regions) {
      forall i, x: nat | 0 <= i < |p.placed| && p.placed[i].readonly && Holds(p.placed[i], n - 34, x)
        ensures Protected(p.regions, x)
      {
        if i < skip {
          SectorCovered(p, n - 34, i, x);
        } else {
          assert p.placed[i] == Tail(p, |qs|)[i - skip];
          SameSectors(a, p, |qs|, n, i - skip, x);
        }
      }
    }
    if ReadonlyProtected(p, n - 34) {
      forall k, x: nat | 0 <= k < |qs| && qs[k].readonly && OnDisk(a, k, x)
        ensures Protected(p.regions, x)
      {
        assert p.placed[skip + k] == Tail(p, |qs|)[k];
        SameSectors(a, p, |qs|, n, k, x);
      }
    }
  }

  lemma {:induction false} WritableOnDisk(a: seq<byte>, qs: seq<Request>, grow: bool, p: Plan, n: nat)
    requires TableFirst(p, |qs|)
    requires ENTRY * |qs| <= |a| && |qs| <= |p.placed| && AllReadBack(a, p, |qs|, n) && Flags(qs, grow, Tail(p, |qs|))
    ensures WritableFree(a, qs, p.regions) <==> WritableUnprotected(p, n - 34)
  {
    hide FirstLba, LastLba, Protected, AllReadBack, OnDisk, Holds;
    var skip := |p.placed| - |qs|;
    if WritableFree(a, qs, p.regions) {
      forall i, x: nat | 0 <= i < |p.placed| && !p.placed[i].readonly && Holds(p.placed[i], n - 34, x)
        ensures !Protected(p.regions, x)
      {
        assert p.placed[i] == Tail(p, |qs|)[i - skip];
        SameSectors(a, p, |qs|, n, i - skip, x);
      }
    }
    if WritableUnprotected(p, n - 34) {
      forall k, x: nat | 0 <= k < |qs| && !qs[k].readonly && OnDisk(a, k, x)
        ensures !Protected(p.regions, x)
      {
        assert p.placed[skip + k] == Tail(p, |qs|)[k];
        SameSectors(a, p, |qs|, n, k, x);
      }
    }
  }

  /** Partitions are placed in the order of the requests, and only a grown last one is marked so. */
  ghost predicate Flags(qs: seq<Request>, grow: bool, ps: seq<Placed>) {
    && |qs| == |ps|
    && (forall j :: 0 <= j < |qs| ==> ps[j].readonly == qs[j].readonly)
    && (forall j :: 0 <= j < |qs| ==> (ps[j].grown <==> grow && j == |qs| - 1))
  }

  lemma {:induction false} PlanFlags(qs: seq<Request>, boundary: nat, alignPerf: bool, protectTable: bool, grow: bool,
                                     p: Plan)
    requires boundary >= 1 && Plain(qs) && p == GptPlan(qs, boundary, alignPerf, protectTable, grow)
    ensures Flags(qs, grow, Tail(p, |qs|))
  {
    hide Choose, Walk, GptStart;
    var start, rs, ps := GptStart(boundary, protectTable), GptRequests(qs, grow), Tail(p, |qs|);
    forall j | 0 <= j < |qs|
      ensures ps[j].readonly == qs[j].readonly && (ps[j].grown <==> grow && j == |qs| - 1)
    {
      assert ps[j] == p.placed[|start.placed| + j];
      PlacedAt(Gpt(alignPerf), boundary, start, rs, |rs|, j);
    }
  }
}
