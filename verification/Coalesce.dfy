/** lpaeiommulib.py get_coalesced_mappings: merging flat page-table mappings and naming the holes between them. */
module Coalesce {
  import opened Options

  const LIMIT := 0xffffffff
  const PAGE := 4096

  /** The attribute fields that are compared. */
  type Attributes = (nat, nat)

  /** A flat mapping of the virtual addresses from `start` up to `end`; its `attributes` are the compared fields. */
  datatype Flat = Flat(start: nat, end: nat, attributes: Attributes)

  /** A printed interval: mapped with some attributes, or None for unmapped. */
  datatype Interval = Interval(start: nat, end: nat, info: Option<Attributes>)

  // ----- input -----

  ghost predicate Ordered(fs: seq<Flat>) {
    && (forall i :: 0 <= i < |fs| ==> fs[i].start < fs[i].end)
    && (forall i, j :: 0 <= i < j < |fs| ==> fs[i].end <= fs[j].start)
  }

  ghost predicate Aligned(fs: seq<Flat>) {
    forall i :: 0 <= i < |fs| ==> fs[i].start % PAGE == 0 && fs[i].end % PAGE == 0
  }

  /** The attributes at address `x`, if it is mapped. */
  ghost predicate Maps(fs: seq<Flat>, n: nat, x: nat, a: Attributes)
    requires n <= |fs|
  {
    exists i :: 0 <= i < n && fs[i].start <= x < fs[i].end && fs[i].attributes == a
  }

  // ----- merging -----

  /** Mapping `i` continues the one before it. */
  predicate Joined(fs: seq<Flat>, i: nat)
    requires i < |fs|
  {
    i > 0 && fs[i].start == fs[i - 1].end && fs[i].attributes == fs[i - 1].attributes
  }

  /** Where the run containing mapping `i` starts. */
  function RunStart(fs: seq<Flat>, i: nat): nat
    requires i < |fs|
  {
    if Joined(fs, i) then RunStart(fs, i - 1) else fs[i].start
  }

  /** The runs of the first `n` mappings. */
  function Merge(fs: seq<Flat>, n: nat): (r: seq<Flat>)
    requires n <= |fs|
    ensures n > 0 ==> r != []
  {
    if n == 0 then []
    else if Joined(fs, n - 1) then
      var r := Merge(fs, n - 1);
      r[|r| - 1 := r[|r| - 1].(end := fs[n - 1].end)]
    else Merge(fs, n - 1) + [fs[n - 1]]
  }

  /** Touching runs differ. */
  ghost predicate Maximal(ms: seq<Flat>) {
    forall k :: 0 < k < |ms| && ms[k - 1].end == ms[k].start ==> ms[k - 1].attributes != ms[k].attributes
  }

  lemma {:induction false} MergeShape(fs: seq<Flat>, n: nat)
    requires Ordered(fs) && n <= |fs|
    ensures Ordered(Merge(fs, n)) && Maximal(Merge(fs, n))
    ensures n > 0 ==> var last := Merge(fs, n)[|Merge(fs, n)| - 1];
                      last.start == RunStart(fs, n - 1) && last.end == fs[n - 1].end &&
                          last.attributes == fs[n - 1].attributes
    decreases n
  {
    hide Merge;
    MergeNext(fs, n);
    if n > 0 {
      hide Maximal;
      MergeNext(fs, 0);
      MergeShape(fs, n - 1);
      var ms := Merge(fs, n - 1);
      if Joined(fs, n - 1) {
        ExtendShape(ms, fs[n - 1].end);
      } else {
        AppendShape(ms, fs[n - 1]);
      }
    }
  }

  lemma {:induction false} ExtendShape(ms: seq<Flat>, end: nat)
    requires Ordered(ms) && Maximal(ms) && ms != [] && ms[|ms| - 1].end <= end
    ensures var r := ms[|ms| - 1 := ms[|ms| - 1].(end := end)]; Ordered(r) && Maximal(r)
  {
    var r := ms[|ms| - 1 := ms[|ms| - 1].(end := end)];
    assert forall k :: 0 <= k < |ms| - 1 ==> r[k] == ms[k];
    assert forall k :: 0 <= k < |ms| ==> r[k].start == ms[k].start && r[k].attributes == ms[k].attributes;
  }

  lemma {:induction false} AppendShape(ms: seq<Flat>, f: Flat)
    requires Ordered(ms) && Maximal(ms) && f.start < f.end
    requires ms != [] ==>
            ms[|ms| - 1].end <= f.start && (ms[|ms| - 1].end == f.start ==> ms[|ms| - 1].attributes != f.attributes)
    ensures Ordered(ms + [f]) && Maximal(ms + [f])
  {
    var r := ms + [f];
    assert forall k :: 0 <= k < |ms| ==> r[k] == ms[k] && ms[k].end <= f.start;
  }

  /** A merged run covers exactly the addresses of its mappings, with their attributes. */
  lemma {:induction false} MergeMeans(fs: seq<Flat>, n: nat, x: nat, a: Attributes)
    requires Ordered(fs) && n <= |fs|
    ensures Maps(Merge(fs, n), |Merge(fs, n)|, x, a) <==> Maps(fs, n, x, a)
    decreases n
  {
    hide Maximal, RunStart, Merge, Maps;
    MergeNext(fs, n);
    if n == 0 {
      NothingMapped(fs, x, a);
    } else {
      MergeShape(fs, n - 1);
      MergeMeans(fs, n - 1, x, a);
      MapsLast(fs, n, x, a);
      var p := Merge(fs, n - 1);
      if Joined(fs, n - 1) {
        JoinMeans(p, fs[n - 1], x, a);
      } else {
        AppendMeans(p, fs[n - 1], x, a);
      }
    }
  }

  lemma {:induction false} MergeNext(fs: seq<Flat>, n: nat)
    requires n <= |fs|
    ensures n == 0 ==> Merge(fs, n) == []
    ensures n > 0 && Joined(fs, n - 1) ==>
              var r := Merge(fs, n - 1);
              r != [] && Merge(fs, n) == r[|r| - 1 := r[|r| - 1].(end := fs[n - 1].end)]
    ensures n > 0 && !Joined(fs, n - 1) ==> Merge(fs, n) == Merge(fs, n - 1) + [fs[n - 1]]
  {
  }

  lemma {:induction false} NothingMapped(fs: seq<Flat>, x: nat, a: Attributes)
    ensures !Maps(fs, 0, x, a) && !Maps([], 0, x, a)
  {
  }

  ghost predicate Covers(f: Flat, x: nat, a: Attributes) {
    f.start <= x < f.end && f.attributes == a
  }

  lemma {:induction false} JoinMeans(p: seq<Flat>, f: Flat, x: nat, a: Attributes)
    requires Ordered(p) && p != [] && f.start < f.end
    requires p[|p| - 1].end == f.start && p[|p| - 1].attributes == f.attributes
    ensures var q := p[|p| - 1 := p[|p| - 1].(end := f.end)];
            Maps(q, |q|, x, a) <==> Maps(p, |p|, x, a) || Covers(f, x, a)
  {
    hide Maps;
    var q := p[|p| - 1 := p[|p| - 1].(end := f.end)];
    MapsLast(p, |p|, x, a);
    MapsLast(q, |q|, x, a);
    MapsPrefix(p, q, |p| - 1, x, a);
  }

  lemma {:induction false} AppendMeans(p: seq<Flat>, f: Flat, x: nat, a: Attributes)
    ensures Maps(p + [f], |p| + 1, x, a) <==> Maps(p, |p|, x, a) || Covers(f, x, a)
  {
    hide Maps;
    MapsLast(p + [f], |p| + 1, x, a);
    MapsPrefix(p, p + [f], |p|, x, a);
  }

  lemma {:induction false} MapsLast(fs: seq<Flat>, n: nat, x: nat, a: Attributes)
    requires 0 < n <= |fs|
    ensures Maps(fs, n, x, a) <==> Maps(fs, n - 1, x, a) || Covers(fs[n - 1], x, a)
  {
  }

  lemma {:induction false} MapsPrefix(p: seq<Flat>, q: seq<Flat>, n: nat, x: nat, a: Attributes)
    requires n <= |p| && n <= |q| && p[..n] == q[..n]
    ensures Maps(p, n, x, a) <==> Maps(q, n, x, a)
  {
    assert forall i :: 0 <= i < n ==> p[..n][i] == p[i] && q[..n][i] == q[i];
  }

  // ----- the two passes -----

  /** First pass: which mappings continue a run, and where that run starts. */
  method MarkSamers(fs: seq<Flat>) returns (samers: map<nat, nat>)
    ensures forall i: nat :: i in samers <==> i < |fs| && Joined(fs, i)
    ensures forall i: nat :: i in samers ==> i < |fs| && samers[i] == RunStart(fs, i)
  {
    samers := map[];
    var curVirt: nat := 0;
    for i := 0 to |fs|
      invariant forall k: nat :: k in samers <==> k < i && Joined(fs, k)
      invariant forall k: nat :: k in samers ==> k < i && samers[k] == RunStart(fs, k)
      invariant i > 0 ==> curVirt == RunStart(fs, i - 1)
    {
      if i == 0 {
        curVirt := fs[i].start;
      } else if fs[i].start == fs[i - 1].end && fs[i].attributes == fs[i - 1].attributes {
        samers := samers[i := curVirt];
      } else {
        curVirt := fs[i].start;
      }
    }
  }

  /** The entry keyed `start` of a dictionary held as its items in key order, or the number of items. */
  function Find(ms: seq<Flat>, start: nat): (k: nat)
    ensures k <= |ms| && (k < |ms| ==> ms[k].start == start)
    ensures k == |ms| ==> forall j :: 0 <= j < |ms| ==> ms[j].start != start
  {
    if ms == [] then 0
    else
      var k := Find(ms[..|ms| - 1], start);
      if k < |ms| - 1 then k else if ms[|ms| - 1].start == start then |ms| - 1 else |ms|
  }

  /** Second pass: add the size of a continuing mapping to its run. The dictionary is filled in key order, so the
      sort that follows leaves its items as they are. */
  method MergeRuns(fs: seq<Flat>, samers: map<nat, nat>) returns (ms: seq<Flat>)
    requires Ordered(fs)
    requires forall i: nat :: i in samers <==> i < |fs| && Joined(fs, i)
    requires forall i: nat :: i in samers ==> i < |fs| && samers[i] == RunStart(fs, i)
    ensures ms == Merge(fs, |fs|)
  {
    hide Merge, Maximal;
    ms := [];
    MergeNext(fs, 0);
    for i := 0 to |fs|
      invariant ms == Merge(fs, i)
    {
      MergeNext(fs, i + 1);
      MergeShape(fs, i);
      var size := fs[i].end - fs[i].start;
      if i in samers {
        OnlyLast(ms, |ms| - 1);
        var k := Find(ms, samers[i]);
        ms := ms[k := ms[k].(end := ms[k].end + size)];
      } else {
        // the ValueError branch: a start seen twice cannot occur in ordered input
        assert Find(ms, fs[i].start) == |ms|;
        ms := ms + [fs[i]];
      }
    }
  }

  lemma {:induction false} OnlyLast(ms: seq<Flat>, k: nat)
    requires Ordered(ms) && k < |ms|
    ensures Find(ms, ms[k].start) == k
  {
  }

  // ----- naming the holes -----

  /** The intervals cover the addresses from 0 up to `end` with no gap or overlap. */
  ghost predicate TilesTo(out: seq<Interval>, end: nat) {
    && out != [] && out[0].start == 0 && out[|out| - 1].end == end
    && (forall k :: 0 <= k < |out| ==> out[k].start < out[k].end)
    && (forall k :: 0 < k < |out| ==> out[k - 1].end == out[k].start)
  }

  ghost predicate Tiles(out: seq<Interval>) {
    TilesTo(out, LIMIT)
  }

  /** Touching mapped intervals differ in their attributes. */
  ghost predicate Distinct(out: seq<Interval>) {
    forall k :: 0 < k < |out| && out[k - 1].info.Some? && out[k].info.Some? ==> out[k - 1].info != out[k].info
  }

  /** An interval tells the truth about the runs: mapped with one run's attributes, or meeting no run. */
  ghost predicate TrueOf(v: Interval, ms: seq<Flat>) {
    match v.info
    case Some(a) => exists k :: 0 <= k < |ms| && ms[k] == Flat(v.start, v.end, a)
    case None => forall k :: 0 <= k < |ms| ==> ms[k].end <= v.start || v.end <= ms[k].start
  }

  function Mapping(f: Flat): Interval {
    Interval(f.start, f.end, Some(f.attributes))
  }

  /** The runs with the hole below the first. */
  function Inner(ms: seq<Flat>): (r: seq<Interval>)
    requires ms != []
    ensures |r| >= |ms|
  {
    (if ms[0].start != 0 then [Interval(0, ms[0].start, None)] else [])
    + seq(|ms|, k requires 0 <= k < |ms| => Mapping(ms[k]))
  }

  /** The runs with the hole below the first and the hole above the last. */
  function WithEnds(ms: seq<Flat>): (r: seq<Interval>)
    requires ms != []
    ensures |r| >= |ms|
  {
    Inner(ms) + if ms[|ms| - 1].end != LIMIT then [Interval(ms[|ms| - 1].end, LIMIT, None)] else []
  }

  /** The keys before the inner holes are filled: ordered, and true of the runs. */
  ghost predicate Chain(cc: seq<Interval>, ms: seq<Flat>) {
    && cc != [] && cc[0].start == 0
    && (forall k :: 0 <= k < |cc| ==> cc[k].start < cc[k].end && TrueOf(cc[k], ms))
    && (forall k :: 0 < k < |cc| ==> cc[k - 1].end <= cc[k].start)
    && (forall k :: 0 < k < |cc| ==> Between(cc[k - 1].end, cc[k].start, ms))
    && (forall k :: 0 < k < |cc| && cc[k - 1].info.Some? && cc[k].info.Some? && cc[k - 1].end == cc[k].start ==>
        cc[k - 1].info != cc[k].info)
  }

  ghost predicate Between(lo: nat, hi: nat, ms: seq<Flat>) {
    forall k :: 0 <= k < |ms| ==> ms[k].end <= lo || hi <= ms[k].start
  }

  /** Position `k` of the keys: the lower hole or a run. */
  lemma {:induction false} InnerAt(ms: seq<Flat>)
    requires ms != []
    ensures var cc, d := Inner(ms), if ms[0].start != 0 then 1 else 0;
            && |cc| == |ms| + d
            && (forall k :: d <= k < |ms| + d ==> cc[k] == Mapping(ms[k - d]))
            && (d == 1 ==> cc[0] == Interval(0, ms[0].start, None))
  {
  }

  lemma {:induction false} InnerTrue(ms: seq<Flat>, k: nat)
    requires ms != [] && Ordered(ms) && k < |Inner(ms)|
    ensures var v := Inner(ms)[k]; v.start < v.end && TrueOf(v, ms)
  {
    hide Inner;
    InnerAt(ms);
    var cc, d := Inner(ms), if ms[0].start != 0 then 1 else 0;
    if d <= k < |ms| + d {
      assert ms[k - d] == Flat(cc[k].start, cc[k].end, ms[k - d].attributes);
    }
  }

  lemma {:induction false} InnerNext(ms: seq<Flat>, k: nat)
    requires ms != [] && Ordered(ms) && Maximal(ms) && 0 < k < |Inner(ms)|
    ensures var u, v := Inner(ms)[k - 1], Inner(ms)[k];
            && u.end <= v.start && Between(u.end, v.start, ms)
            && (u.info.Some? && v.info.Some? && u.end == v.start ==> u.info != v.info)
  {
    hide Inner;
    InnerAt(ms);
    var cc, d := Inner(ms), if ms[0].start != 0 then 1 else 0;
    if d < k {
      assert cc[k - 1] == Mapping(ms[k - 1 - d]) && cc[k] == Mapping(ms[k - d]);
      Adjacent(ms, k - d);
    }
  }

  lemma {:induction false} Adjacent(ms: seq<Flat>, k: nat)
    requires Ordered(ms) && 0 < k < |ms|
    ensures Between(ms[k - 1].end, ms[k].start, ms)
  {
    forall j | 0 <= j < |ms|
      ensures ms[j].end <= ms[k - 1].end || ms[k].start <= ms[j].start
    {
      if j < k - 1 {
        assert ms[j].end <= ms[k - 1].start;
      } else if j > k {
        assert ms[k].end <= ms[j].start;
      }
    }
  }

  lemma {:induction false} InnerChain(ms: seq<Flat>)
    requires ms != [] && Ordered(ms) && Maximal(ms)
    ensures Chain(Inner(ms), ms) && Inner(ms)[|Inner(ms)| - 1].end == ms[|ms| - 1].end
  {
    hide Inner, TrueOf, Between, Ordered, Maximal;
    InnerAt(ms);
    var cc := Inner(ms);
    forall k | 0 <= k < |cc|
      ensures cc[k].start < cc[k].end && TrueOf(cc[k], ms)
    {
      InnerTrue(ms, k);
    }
    forall k | 0 < k < |cc|
      ensures cc[k - 1].end <= cc[k].start && Between(cc[k - 1].end, cc[k].start, ms)
      ensures cc[k - 1].info.Some? && cc[k].info.Some? && cc[k - 1].end == cc[k].start ==> cc[k - 1].info != cc[k].info
    {
      InnerNext(ms, k);
    }
  }

  /** Intervals from 0 on, touching, true of the runs and distinct. */
  ghost predicate Good(out: seq<Interval>, ms: seq<Flat>) {
    && out != [] && out[0].start == 0
    && (forall k :: 0 <= k < |out| ==> out[k].start < out[k].end && TrueOf(out[k], ms))
    && (forall k :: 0 < k < |out| ==> out[k - 1].end == out[k].start)
    && Distinct(out)
  }

  lemma {:induction false} GoodAppend(out: seq<Interval>, v: Interval, ms: seq<Flat>)
    requires Good(out, ms) && v.start < v.end && TrueOf(v, ms)
    requires var u := out[|out| - 1]; u.end == v.start && (u.info.Some? && v.info.Some? ==> u.info != v.info)
    ensures Good(out + [v], ms)
  {
    hide TrueOf;
    var r := out + [v];
    assert forall k :: 0 <= k < |out| ==> r[k] == out[k];
  }

  /** What the loop has written for the first `i` keys. */
  ghost predicate Filled(out: seq<Interval>, cc: seq<Interval>, ms: seq<Flat>, i: nat)
    requires 0 < i <= |cc|
  {
    Good(out, ms) && out[|out| - 1] == cc[i - 1]
  }

  /** One key more, with the hole before it if there is one. */
  lemma {:induction false} FillOne(out: seq<Interval>, cc: seq<Interval>, ms: seq<Flat>, i: nat)
    requires Chain(cc, ms) && 0 < i < |cc| && Filled(out, cc, ms, i)
    ensures cc[i - 1].end != cc[i].start ==>
            Filled(out + [Interval(cc[i - 1].end, cc[i].start, None), cc[i]], cc, ms, i + 1)
    ensures cc[i - 1].end == cc[i].start ==> Filled(out + [cc[i]], cc, ms, i + 1)
  {
    assert out != [];
    hide TrueOf, Between, Good;
    if cc[i - 1].end != cc[i].start {
      var hole := Interval(cc[i - 1].end, cc[i].start, None);
      HoleIsTrue(hole.start, hole.end, ms);
      GoodAppend(out, hole, ms);
      GoodAppend(out + [hole], cc[i], ms);
      assert out + [hole] + [cc[i]] == out + [hole, cc[i]];
    } else {
      GoodAppend(out, cc[i], ms);
    }
  }

  lemma {:induction false} HoleIsTrue(lo: nat, hi: nat, ms: seq<Flat>)
    requires Between(lo, hi, ms)
    ensures TrueOf(Interval(lo, hi, None), ms)
  {
  }

  /** The loop of get_coalesced_mappings over the keys but the first and the last; a new key takes its place in
      key order, as the final sort puts it. */
  method FillHoles(cc: seq<Interval>, ghost ms: seq<Flat>) returns (out: seq<Interval>)
    requires |cc| >= 2
    ensures out != [] && out[|out| - 1] == cc[|cc| - 1]
    ensures Chain(cc[..|cc| - 1], ms) ==> Filled(out[..|out| - 1], cc[..|cc| - 1], ms, |cc| - 1)
  {
    hide Chain, Filled;
    ghost var inner := cc[..|cc| - 1];
    out := [cc[0]];
    if Chain(inner, ms) {
      FillStart(inner, ms);
    }
    for i := 1 to |cc| - 1
      invariant Chain(inner, ms) ==> Filled(out, inner, ms, i)
    {
      assert inner[i - 1] == cc[i - 1] && inner[i] == cc[i];
      if Chain(inner, ms) {
        FillOne(out, inner, ms, i);
      }
      if cc[i - 1].end != cc[i].start {
        out := out + [Interval(cc[i - 1].end, cc[i].start, None)];
        assert out + [cc[i]] == out[..|out| - 1] + [Interval(cc[i - 1].end, cc[i].start, None), cc[i]];
      }
      out := out + [cc[i]];
    }
    ghost var front := out;
    out := out + [cc[|cc| - 1]];
    assert out[..|out| - 1] == front;
  }

  lemma {:induction false} FillStart(cc: seq<Interval>, ms: seq<Flat>)
    requires Chain(cc, ms)
    ensures Filled([cc[0]], cc, ms, 1)
  {
  }

  // ----- the result -----

  /** Every address below the limit is shown mapped, with its attributes, exactly if it is mapped. */
  ghost predicate Shows(out: seq<Interval>, fs: seq<Flat>) {
    forall k, x: nat, a: Attributes :: 0 <= k < |out| && out[k].start <= x < out[k].end ==>
      (out[k].info == Some(a) <==> Maps(fs, |fs|, x, a))
  }

  lemma {:induction false} TrueShows(v: Interval, ms: seq<Flat>, x: nat, a: Attributes)
    requires Ordered(ms) && TrueOf(v, ms) && v.start <= x < v.end
    ensures v.info == Some(a) <==> Maps(ms, |ms|, x, a)
  {
    if v.info.Some? {
      var k :| 0 <= k < |ms| && ms[k] == Flat(v.start, v.end, v.info.value);
      forall i | 0 <= i < |ms| && ms[i].start <= x < ms[i].end
        ensures i == k
      {
        OneRun(ms, i, k, x);
      }
    }
  }

  lemma {:induction false} OneRun(ms: seq<Flat>, i: nat, k: nat, x: nat)
    requires Ordered(ms) && i < |ms| && k < |ms| && ms[i].start <= x < ms[i].end && ms[k].start <= x < ms[k].end
    ensures i == k
  {
  }

  /** get_coalesced_mappings on ordered, page-aligned flat mappings. The keys but the last tile the addresses up to the
      end of the last mapping; with the last key they tile the address space exactly when that end is below its top. In
      either case they show precisely what is mapped, and touching mapped intervals differ. */
  method GetCoalesced(fs: seq<Flat>) returns (out: seq<Interval>)
    requires Ordered(fs) && Aligned(fs)
    ensures fs == [] ==> out == []
    ensures fs != [] ==>
              var end := fs[|fs| - 1].end;
              && out != [] && out[|out| - 1] == Interval(end, LIMIT, None) && TilesTo(out[..|out| - 1], end)
              && (Tiles(out) <==> end <= LIMIT)
    ensures Shows(out, fs) && Distinct(out)
  {
    hide Merge, Chain, Filled, TilesTo, Shows, TrueOf, Inner, Ordered, Aligned, Maximal, RunStart, Joined, Distinct;
    var samers := MarkSamers(fs);
    var ms := MergeRuns(fs, samers);
    MergeShape(fs, |fs|);
    MergeNonempty(fs);
    if ms == [] {
      ShowsNothing(fs);
      return [];
    }
    NeverAtLimit(fs);
    InnerChain(ms);
    var cc := WithEnds(ms);
    assert cc[..|cc| - 1] == Inner(ms);
    out := FillHoles(cc, ms);
    Conclude(out, Inner(ms), ms, fs);
  }

  lemma {:induction false} ShowsNothing(fs: seq<Flat>)
    ensures Shows([], fs) && Distinct([])
  {
  }

  /** The limit is not a multiple of the page size. */
  lemma {:induction false} NeverAtLimit(fs: seq<Flat>)
    requires Aligned(fs) && fs != []
    ensures fs[|fs| - 1].end != LIMIT
  {
  }

  lemma {:induction false} MergeNonempty(fs: seq<Flat>)
    ensures Merge(fs, |fs|) == [] <==> fs == []
  {
  }

  lemma {:induction false} Conclude(out: seq<Interval>, cc: seq<Interval>, ms: seq<Flat>, fs: seq<Flat>)
    requires ms != [] && cc != [] && out != []
    requires var end := ms[|ms| - 1].end;
             end != LIMIT && cc[|cc| - 1].end == end && out[|out| - 1] == Interval(end, LIMIT, None)
    requires Filled(out[..|out| - 1], cc, ms, |cc|) && Ordered(fs) && ms == Merge(fs, |fs|) && Ordered(ms)
    ensures TilesTo(out[..|out| - 1], ms[|ms| - 1].end)
    ensures Tiles(out) <==> ms[|ms| - 1].end <= LIMIT
    ensures Shows(out, fs) && Distinct(out)
  {
    hide TrueOf, Merge, Maps, Ordered;
    var front := out[..|out| - 1];
    assert out == front + [out[|out| - 1]];
    assert forall k :: 0 <= k < |front| ==> out[k] == front[k];
    Above(ms);
    forall k, x: nat, a: Attributes | 0 <= k < |out| && out[k].start <= x < out[k].end
      ensures out[k].info == Some(a) <==> Maps(fs, |fs|, x, a)
    {
      assert k < |front| ==> TrueOf(front[k], ms);
      TrueShows(out[k], ms, x, a);
      MergeMeans(fs, |fs|, x, a);
    }
  }

  /** No run lies above the last. */
  lemma {:induction false} Above(ms: seq<Flat>)
    requires Ordered(ms) && ms != []
    ensures TrueOf(Interval(ms[|ms| - 1].end, LIMIT, None), ms)
  {
  }

  /** For instance the top page alone: the last key runs from the end of the address space back below it. */
  method TopPageMapped(a: Attributes) returns (out: seq<Interval>)
    ensures !Tiles(out) && out != [] && out[|out| - 1] == Interval(0x1_0000_0000, LIMIT, None)
  {
    hide Tiles;
    out := GetCoalesced([Flat(0xffff_f000, 0x1_0000_0000, a)]);
  }
}
