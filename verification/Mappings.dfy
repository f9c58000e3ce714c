/** lpaeiommulib.py parse_long_form_tables: the enumeration and the coalescer together. */
module Mappings {
  import opened Options
  import opened Lpae
  import C = Coalesce

  /** What the coalescer uses of a flat mapping. */
  function Virtual(ms: seq<Mapping>): (fs: seq<C.Flat>)
    requires forall k :: 0 <= k < |ms| ==> ms[k].info.Leaf?
    ensures |fs| == |ms|
    ensures forall k :: 0 <= k < |ms| ==> fs[k] == C.Flat(ms[k].start, ms[k].end, ms[k].info.attributes)
  {
    seq(|ms|, k requires 0 <= k < |ms| => C.Flat(ms[k].start, ms[k].end, ms[k].info.attributes))
  }

  /** Attributes of the leaf the walk ends in, if it does. */
  function Found(w: Dump, va: nat): Option<C.Attributes> {
    match Translate(w, va)
    case None => None
    case Some(leaf) => Some(leaf.attributes)
  }

  /** Flat mappings that agree with the walk map an address exactly with the attributes the walk finds. */
  lemma {:induction false} MapsWhatIsFound(w: Dump, ms: seq<Mapping>, lo: nat, hi: nat, va: nat, a: C.Attributes)
    requires Within(ms, lo, hi) && Agrees(w, ms, va)
    ensures C.Maps(Virtual(ms), |ms|, va, a) <==> Found(w, va) == Some(a)
  {
    hide Translate;
    var r, fs := Translate(w, va), Virtual(ms);
    if r.Some? {
      var k :| 0 <= k < |ms| && Explains(ms[k], r.value, va);
      assert fs[k].start <= va < fs[k].end && fs[k].attributes == r.value.attributes;
      if C.Maps(fs, |ms|, va, a) {
        var i :| 0 <= i < |ms| && fs[i].start <= va < fs[i].end && fs[i].attributes == a;
        OneMapping(ms, lo, hi, i, k, va);
      }
    }
  }

  /** The intervals tell, for every address below their end, exactly what the walk finds. */
  ghost predicate Tell(w: Dump, out: seq<C.Interval>) {
    forall k, va: nat :: 0 <= k < |out| && out[k].start <= va < out[k].end ==> out[k].info == Found(w, va)
  }

  /** For a dump in whose second-level tables no block follows a table, the coalesced intervals tell for every address
      exactly what the walk finds. All but the last tile the addresses up to the end of the last mapping, and all of
      them the address space exactly when its top page is not mapped. With nothing mapped there are none. */
  method CoalescedMappings(w: Dump) returns (out: seq<C.Interval>)
    requires forall f :: 0 <= f < 4 ==> Orderly(w, f)
    ensures Flat(w, 4) == [] ==> out == [] && forall va: nat :: va < TOP ==> Found(w, va) == None
    ensures Flat(w, 4) != [] ==>
              var end := Flat(w, 4)[|Flat(w, 4)| - 1].end;
              && out != [] && out[|out| - 1] == C.Interval(end, C.LIMIT, None) && C.TilesTo(out[..|out| - 1], end)
              && (C.Tiles(out) <==> end <= C.LIMIT)
    ensures Tell(w, out)
  {
    hide Flat, Translate, Orderly, C.TilesTo, C.Shows, Found;
    var flat := GetFlatMappings(w);
    EnumerationAgrees(w);
    FlatAligned(w, 4);
    out := C.GetCoalesced(Virtual(flat));
    if flat == [] {
      NothingFound(w);
    } else {
      TellFollows(w, flat, out);
    }
  }

  lemma {:induction false} NothingFound(w: Dump)
    requires forall va: nat :: va < TOP ==> Agrees(w, [], va)
    ensures forall va: nat :: va < TOP ==> Found(w, va) == None
  {
    hide Translate;
    forall va: nat | va < TOP
      ensures Found(w, va) == None
    {
      assert Agrees(w, [], va);
    }
  }

  lemma {:induction false} TellFollows(w: Dump, ms: seq<Mapping>, out: seq<C.Interval>)
    requires ms != [] && Within(ms, 0, TOP) && forall va: nat :: va < TOP ==> Agrees(w, ms, va)
    requires out != [] && out[|out| - 1].end == C.LIMIT && C.TilesTo(out[..|out| - 1], ms[|ms| - 1].end)
    requires C.Shows(out, Virtual(ms))
    ensures Tell(w, out)
  {
    hide Found, Agrees, C.Maps;
    assert ms[|ms| - 1].end <= TOP;
    hide Within;
    forall k, va: nat | 0 <= k < |out| && out[k].start <= va < out[k].end
      ensures out[k].info == Found(w, va)
    {
      if k < |out| - 1 {
        Inside(out[..|out| - 1], k, ms[|ms| - 1].end);
      }
      if out[k].info.Some? {
        MapsWhatIsFound(w, ms, 0, TOP, va, out[k].info.value);
      }
      if Found(w, va).Some? {
        MapsWhatIsFound(w, ms, 0, TOP, va, Found(w, va).value);
      }
    }
  }

  lemma {:induction false} Inside(out: seq<C.Interval>, k: nat, end: nat)
    requires C.TilesTo(out, end) && k < |out|
    ensures out[k].end <= end
    decreases |out| - k
  {
    if k < |out| - 1 {
      Inside(out, k + 1, end);
    }
  }
}
