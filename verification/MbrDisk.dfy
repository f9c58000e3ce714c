/** End to end for more than four partitions: from the requested list to what a chain reader finds. */
module MbrDisk {
  import opened Options
  import opened Bytes
  import opened Ebr
  import opened Layout
  import opened Planner
  import opened Patching

  /** Sector of the first extended boot record. */
  function ExtendedBegins(qs: seq<Request>, boundary: nat): nat
    requires boundary >= 1 && |qs| > 4
  {
    PrimaryPlan(qs[..3], boundary, false).first
  }

  /** What was placed after the MBR, the three primaries and the EBR tables. */
  function PlacedLogicals(p: Plan, count: nat): (r: seq<Placed>)
    requires |p.placed| == 5 + count
    ensures |r| == count
  {
    p.placed[5..]
  }

  lemma {:induction false} MbrPlanCount(qs: seq<Request>, boundary: nat, alignBoundary: nat, grow: bool)
    requires boundary >= 1 && |qs| > 4
    ensures |MbrPlan(qs, boundary, alignBoundary, grow).placed| == 5 + (|qs| - 3)
  {
  }

  /** Logical partitions lie beyond all their boot records. */
  lemma {:induction false} LogicalsFollowTables(qs: seq<Request>, boundary: nat, alignBoundary: nat, grow: bool, k: nat)
    requires boundary >= 1 && |qs| > 4 && Plain(qs) && k < |qs| - 3
    requires |MbrPlan(qs, boundary, alignBoundary, grow).placed| == 5 + (|qs| - 3)
    ensures MbrPlan(qs, boundary, alignBoundary, grow).placed[5 + k].first >= ExtendedBegins(qs, boundary) + (|qs| - 3)
  {
    hide Geometry, Covered, Clear, Choose, WpUpdate;
    var start, rs := ExtendedStart(qs, boundary), LogicalRequests(qs[3..], grow);
    ExtendedSound(qs, boundary, alignBoundary);
    PlacedAt(Mode.Logical(alignBoundary), boundary, start, rs, |rs|, k);
    WalkFirst(Mode.Logical(alignBoundary), boundary, start, rs, k);
  }

  /** So a chain can be written for whatever was placed. */
  lemma {:induction false} LogicalsBeyond(qs: seq<Request>, boundary: nat, alignBoundary: nat, grow: bool,
                                          ls: seq<Logical>)
    requires boundary >= 1 && |qs| > 4 && Plain(qs)
    requires |MbrPlan(qs, boundary, alignBoundary, grow).placed| == 5 + (|qs| - 3)
    requires Describes(ls, PlacedLogicals(MbrPlan(qs, boundary, alignBoundary, grow), |qs| - 3))
    ensures Beyond(ls, ExtendedBegins(qs, boundary))
  {
    hide MbrPlan;
    forall k | 0 <= k < |ls|
      ensures ls[k].start >= ExtendedBegins(qs, boundary) + |ls|
    {
      LogicalsFollowTables(qs, boundary, alignBoundary, grow, k);
    }
  }

  ghost predicate Describes(ls: seq<Logical>, ps: seq<Placed>) {
    |ls| == |ps| && forall k :: 0 <= k < |ls| ==> ls[k].start == ps[k].first && ls[k].size == ps[k].size
  }

  lemma {:induction false} BaseAtLeastOne(qs: seq<Request>, boundary: nat)
    requires boundary >= 1 && |qs| > 4
    ensures ExtendedBegins(qs, boundary) >= 1
  {
    WalkFirst(Primary, boundary, MbrStart(boundary), PrimaryRequests(qs[..3], false), 3);
  }
}
