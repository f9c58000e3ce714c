/** ramdump.py Unwinder: finding the unwind entry of a program counter in a table of place-relative offsets. */
module UnwindSearch {
  import opened Options
  import opened Arith

  const TWO30 := 0x4000_0000
  const TWO31 := 0x8000_0000
  const TWO32 := 0x1_0000_0000

  /** A table entry: 31-bit offset, unwind word, and the entry's own address. */
  datatype Entry = Entry(offset: nat, insn: nat, place: nat)

  /** Entries are eight bytes apart. */
  ghost predicate Spaced(t: seq<Entry>, startIdx: nat) {
    forall i :: 0 <= i < |t| ==> t[i].place == startIdx + 8 * i && t[i].offset < TWO31
  }

  /** The address an entry describes: its place plus the signed 31-bit offset. */
  function Target(e: Entry): int {
    e.place + if e.offset >= TWO30 then e.offset - TWO31 else e.offset
  }

  /** Entries with negative offsets come before the others. */
  ghost predicate Split(t: seq<Entry>, origin: nat) {
    && origin <= |t|
    && (forall i :: 0 <= i < origin ==> t[i].offset >= TWO30)
    && (forall i :: origin <= i < |t| ==> t[i].offset < TWO30)
  }

  /** The loop of unwind_find_origin, as a function. */
  function OriginFrom(t: seq<Entry>, start: nat, stop: nat): (origin: nat)
    requires start <= stop <= |t|
    ensures start <= origin <= stop
    decreases stop - start
  {
    if start == stop then stop
    else
      var mid := start + (stop - start) / 2;
      if t[mid].offset >= TWO30 then OriginFrom(t, mid + 1, stop) else OriginFrom(t, start, mid)
  }

  function Origin(t: seq<Entry>): (origin: nat)
    ensures origin <= |t|
  {
    OriginFrom(t, 0, |t|)
  }

  lemma {:induction false} OriginStep(t: seq<Entry>, start: nat, stop: nat)
    requires start <= stop <= |t|
    ensures start == stop ==> OriginFrom(t, start, stop) == stop
    ensures start < stop ==>
              var mid := start + (stop - start) / 2;
              OriginFrom(t, start, stop)
              == if t[mid].offset >= TWO30 then OriginFrom(t, mid + 1, stop) else OriginFrom(t, start, mid)
  {
  }

  lemma {:induction false} OriginMeans(t: seq<Entry>, start: nat, stop: nat)
    requires start <= stop <= |t|
    requires (start > 0 ==> t[start - 1].offset >= TWO30) && (stop < |t| ==> t[stop].offset < TWO30)
    ensures var o := OriginFrom(t, start, stop);
            (o < |t| ==> t[o].offset < TWO30) && (o > 0 ==> t[o - 1].offset >= TWO30)
    decreases stop - start
  {
    hide OriginFrom;
    OriginStep(t, start, stop);
    if start < stop {
      var mid := start + (stop - start) / 2;
      if t[mid].offset >= TWO30 {
        OriginMeans(t, mid + 1, stop);
      } else {
        OriginMeans(t, start, mid);
      }
    }
  }

  lemma {:induction false} OriginUnique(t: seq<Entry>, o: nat)
    requires Split(t, o)
    ensures Origin(t) == o
  {
    OriginMeans(t, 0, |t|);
  }

  /** ramdump.py unwind_find_origin. */
  method FindOrigin(t: seq<Entry>) returns (origin: nat)
    ensures origin == Origin(t)
    ensures origin < |t| ==> t[origin].offset < TWO30
    ensures origin > 0 ==> t[origin - 1].offset >= TWO30
    ensures forall o :: Split(t, o) ==> origin == o
  {
    hide Split;
    var start: nat, stop: nat := 0, |t|;
    while start < stop
      invariant start <= stop <= |t| && OriginFrom(t, start, stop) == Origin(t)
    {
      var mid := start + (stop - start) / 2;
      if t[mid].offset >= TWO30 {
        start := mid + 1;
      } else {
        stop := mid;
      }
    }
    origin := stop;
    OriginMeans(t, 0, |t|);
    forall o | Split(t, o)
      ensures origin == o
    {
      OriginUnique(t, o);
    }
  }

  // ----- the rebased search -----

  /** Place plus unsigned offset: what the search really compares. */
  function Key(e: Entry): nat {
    e.place + e.offset
  }

  ghost predicate Ascending(t: seq<Entry>, lo: nat, hi: nat)
    requires lo <= hi <= |t|
  {
    forall i, j :: lo <= i < j < hi ==> Key(t[i]) < Key(t[j])
  }

  /** Entry `r` is the last of `lo` to `hi` at or below `k`; None if there is none. */
  ghost predicate LastAtMost(t: seq<Entry>, lo: nat, hi: nat, k: int, r: Option<nat>)
    requires lo <= hi <= |t|
  {
    match r
    case None => forall i :: lo <= i < hi ==> Key(t[i]) > k
    case Some(r) => lo <= r < hi && Key(t[r]) <= k && forall i :: r < i < hi ==> Key(t[i]) > k
  }

  /** The loop of search_idx_3_4, as a function: the key is rebased to the place of every new start. */
  function SearchFrom(t: seq<Entry>, start: nat, stop: nat, addr: int): (r: Option<nat>)
    requires start < stop <= |t|
    ensures r.Some? ==> start <= r.value < stop
    decreases stop - start
  {
    if start < stop - 1 then
      var mid := start + (stop - start) / 2;
      var dif := t[mid].place - t[start].place;
      if addr - dif < t[mid].offset then SearchFrom(t, start, mid, addr) else SearchFrom(t, mid, stop, addr - dif)
    else if t[start].offset <= addr then Some(start)
    else None
  }

  /** Though the key is rebased at every step, the search finds the last entry at or below the same key `k`. */
  lemma {:induction false} SearchMeans(t: seq<Entry>, lo: nat, hi: nat, start: nat, stop: nat, addr: int, k: int)
    requires lo <= start < stop <= hi <= |t| && Ascending(t, lo, hi) && k == t[start].place + addr
    requires start > lo ==> Key(t[start]) <= k
    requires stop < hi ==> Key(t[stop]) > k
    ensures LastAtMost(t, lo, hi, k, SearchFrom(t, start, stop, addr))
    decreases stop - start
  {
    if start < stop - 1 {
      hide LastAtMost, Ascending;
      var mid := start + (stop - start) / 2;
      var dif := t[mid].place - t[start].place;
      if addr - dif < t[mid].offset {
        SearchMeans(t, lo, hi, start, mid, addr, k);
      } else {
        SearchMeans(t, lo, hi, mid, stop, addr - dif, k);
      }
    } else {
      hide SearchFrom;
      SearchLast(t, start, stop, addr);
      assert stop < hi ==> forall i :: stop < i < hi ==> Key(t[stop]) < Key(t[i]);
      assert start > lo ==> Key(t[start]) <= k;
    }
  }

  lemma {:induction false} SearchLast(t: seq<Entry>, start: nat, stop: nat, addr: int)
    requires start < stop <= |t| && start == stop - 1
    ensures SearchFrom(t, start, stop, addr) == if t[start].offset <= addr then Some(start) else None
  {
  }

  /** The key a search of the half that begins with entry `lo` looks for. */
  function Wanted(t: seq<Entry>, lo: nat, pc: int): int
    requires lo < |t|
  {
    t[lo].place + (pc - t[lo].place) % TWO31
  }

  /** The half of the table search_idx_3_4 looks in. */
  function Half(t: seq<Entry>, origin: nat, startIdx: nat, pc: int): (nat, nat)
    requires origin <= |t|
  {
    if pc < startIdx then (0, origin) else (origin, |t|)
  }

  function Search(t: seq<Entry>, origin: nat, startIdx: nat, pc: int): (r: Option<nat>)
    requires origin <= |t|
    ensures r.Some? ==> r.value < |t|
  {
    var (lo, hi) := Half(t, origin, startIdx, pc);
    if lo >= hi then None else SearchFrom(t, lo, hi, (pc - t[lo].place) % TWO31)
  }

  /** ramdump.py search_idx_3_4. */
  method SearchIdx(t: seq<Entry>, origin: nat, startIdx: nat, pc: int) returns (r: Option<nat>)
    requires origin <= |t|
    ensures r == Search(t, origin, startIdx, pc)
    ensures Ascending(t, 0, origin) && Ascending(t, origin, |t|) ==>
              var (lo, hi) := Half(t, origin, startIdx, pc);
              if lo >= hi then r == None else LastAtMost(t, lo, hi, Wanted(t, lo, pc), r)
  {
    var start: nat, stop: nat := 0, |t|;
    if pc < startIdx {
      stop := origin;
    } else {
      start := origin;
    }
    if start >= stop {
      return None;
    }
    if Ascending(t, 0, origin) && Ascending(t, origin, |t|) {
      SearchMeans(t, start, stop, start, stop, (pc - t[start].place) % TWO31, Wanted(t, start, pc));
    }
    r := SearchHalf(t, pc, start, stop);
  }

  method SearchHalf(t: seq<Entry>, pc: int, lo: nat, hi: nat) returns (r: Option<nat>)
    requires lo < hi <= |t|
    ensures r == SearchFrom(t, lo, hi, (pc - t[lo].place) % TWO31)
  {
    var start, stop := lo, hi;
    var addr := (pc - t[start].place) % TWO31;
    ghost var answer := SearchFrom(t, start, stop, addr);
    while start < stop - 1
      invariant lo <= start < stop <= hi && SearchFrom(t, start, stop, addr) == answer
      decreases stop - start
    {
      var mid := start + (stop - start) / 2;
      var dif := t[mid].place - t[start].place;
      if addr - dif < t[mid].offset {
        stop := mid;
      } else {
        addr := addr - dif;
        start := mid;
      }
    }
    if t[start].offset <= addr {
      r := Some(start);
    } else {
      r := None;
    }
  }

  // ----- in terms of the addresses described -----

  /** The addresses described increase on each side of the origin. */
  ghost predicate Orderly(t: seq<Entry>, startIdx: nat, origin: nat) {
    && Spaced(t, startIdx) && Split(t, origin)
    && (forall i, j :: 0 <= i < j < |t| && (j < origin || origin <= i) ==> Target(t[i]) < Target(t[j]))
  }

  /** Entry `r` is the last of `lo` to `hi` whose code starts at or before `pc`. */
  ghost predicate LastBefore(t: seq<Entry>, lo: nat, hi: nat, pc: int, r: Option<nat>)
    requires lo <= hi <= |t|
  {
    match r
    case None => forall i :: lo <= i < hi ==> Target(t[i]) > pc
    case Some(r) => lo <= r < hi && Target(t[r]) <= pc && forall i :: r < i < hi ==> Target(t[i]) > pc
  }

  /** An answer of the chosen half is the answer of the whole table: below the table no entry of the upper half
      starts at or before the program counter, and an entry found in the upper half is the last of all. */
  lemma {:induction false} HalfIsEnough(t: seq<Entry>, startIdx: nat, origin: nat, pc: int, r: Option<nat>)
    requires Orderly(t, startIdx, origin)
    ensures pc < startIdx ==> (LastBefore(t, 0, origin, pc, r) <==> LastBefore(t, 0, |t|, pc, r))
    ensures r.Some? && r.value >= origin ==>
              (LastBefore(t, origin, |t|, pc, r) <==> LastBefore(t, 0, |t|, pc, r))
  {
    forall i | origin <= i < |t|
      ensures Target(t[i]) >= startIdx
    {
    }
    if pc < startIdx && LastBefore(t, 0, origin, pc, r) {
      assert LastBefore(t, 0, |t|, pc, r);
    }
    if pc < startIdx && LastBefore(t, 0, |t|, pc, r) {
      assert r.Some? ==> r.value < origin;
    }
  }

  /** For every entry of the half the unsigned comparison of the search is the signed one. */
  ghost predicate Agrees(t: seq<Entry>, lo: nat, hi: nat, pc: int)
    requires lo < hi <= |t|
  {
    forall i :: lo <= i < hi ==> (Key(t[i]) <= Wanted(t, lo, pc) <==> Target(t[i]) <= pc)
  }

  lemma {:induction false} HalvesAscend(t: seq<Entry>, startIdx: nat, origin: nat)
    requires Orderly(t, startIdx, origin)
    ensures origin <= |t| && Ascending(t, 0, origin) && Ascending(t, origin, |t|)
  {
    forall i, j | 0 <= i < j < |t| && (j < origin || origin <= i)
      ensures Key(t[i]) < Key(t[j])
    {
      assert Target(t[i]) < Target(t[j]);
    }
  }

  /** The answer is the right one exactly when the two comparisons agree. */
  lemma {:induction false} RightExactly(t: seq<Entry>, startIdx: nat, origin: nat, pc: int, r: Option<nat>)
    requires Orderly(t, startIdx, origin)
    requires var (lo, hi) := Half(t, origin, startIdx, pc); lo < hi && LastAtMost(t, lo, hi, Wanted(t, lo, pc), r)
    ensures var (lo, hi) := Half(t, origin, startIdx, pc); LastBefore(t, lo, hi, pc, r) <==> Agrees(t, lo, hi, pc)
  {
    hide Wanted;
    var (lo, hi) := Half(t, origin, startIdx, pc);
    HalvesAscend(t, startIdx, origin);
    if LastBefore(t, lo, hi, pc, r) && r.Some? {
      forall i | lo <= i < hi
        ensures Key(t[i]) <= Wanted(t, lo, pc) <==> Target(t[i]) <= pc
      {
        if i < r.value {
          assert Key(t[i]) < Key(t[r.value]) && Target(t[i]) < Target(t[r.value]);
        }
      }
    }
  }

  /** A table of at most 1 GB in a 32-bit address space. */
  ghost predicate Compact(t: seq<Entry>, startIdx: nat) {
    8 * |t| <= TWO30 && startIdx + 8 * |t| <= TWO32
  }

  /** Where the 31-bit arithmetic gives the right answer: below the table or above the first entry with a positive
      offset, within 2 GB; and further off if the wrapped key passes no entry. */
  ghost predicate InReach(t: seq<Entry>, startIdx: nat, origin: nat, pc: int)
    requires origin <= |t|
  {
    if pc < startIdx then origin == 0 || startIdx - TWO31 <= pc || t[0].offset > pc + TWO32 - startIdx
    else if origin == |t| then true
    else t[origin].place <= pc && (pc < t[origin].place + TWO31 || Key(t[|t| - 1]) <= pc - TWO31)
  }

  /** For every 32-bit program counter the two comparisons agree if and only if it is in reach. */
  lemma {:induction false} AgreesExactly(t: seq<Entry>, startIdx: nat, origin: nat, pc: int)
    requires Orderly(t, startIdx, origin) && Compact(t, startIdx) && 0 <= pc < TWO32
    requires var (lo, hi) := Half(t, origin, startIdx, pc); lo < hi
    ensures var (lo, hi) := Half(t, origin, startIdx, pc); Agrees(t, lo, hi, pc) <==> InReach(t, startIdx, origin, pc)
  {
    hide Wanted;
    var (lo, hi) := Half(t, origin, startIdx, pc);
    HalvesAscend(t, startIdx, origin);
    var d := pc - t[lo].place;
    var turn := if d < -TWO31 then 2 else if d < 0 then 1 else if d < TWO31 then 0 else -1;
    WantedKey(t, lo, pc, turn);
    if InReach(t, startIdx, origin, pc) {
      forall i | lo <= i < hi
        ensures Key(t[i]) <= Wanted(t, lo, pc) <==> Target(t[i]) <= pc
      {
        assert i > lo ==> Key(t[lo]) < Key(t[i]);
        assert i < hi - 1 ==> Key(t[i]) < Key(t[hi - 1]);
      }
    } else {
      var i := if pc < startIdx then lo else hi - 1;
      assert !(Key(t[i]) <= Wanted(t, lo, pc) <==> Target(t[i]) <= pc);
    }
  }

  lemma {:induction false} WantedKey(t: seq<Entry>, lo: nat, pc: int, turn: int)
    requires lo < |t| && 0 <= pc - t[lo].place + turn * TWO31 < TWO31
    ensures Wanted(t, lo, pc) == pc + turn * TWO31
  {
    var d := pc - t[lo].place;
    DivUnique(d, TWO31, -turn, d + turn * TWO31);
  }

  /** Finding the origin and searching: the last entry of the chosen half whose code starts at or before the program
      counter, or None, exactly when the comparisons agree; for 32-bit program counters and a table of at most 1 GB,
      exactly when the program counter is in reach. An empty half gives None. */
  method Lookup(t: seq<Entry>, startIdx: nat, pc: int, ghost split: nat) returns (r: Option<nat>)
    requires Orderly(t, startIdx, split)
    ensures r == Search(t, Origin(t), startIdx, pc)
    ensures var (lo, hi) := Half(t, split, startIdx, pc);
            if lo >= hi then r == None else LastBefore(t, lo, hi, pc, r) <==> Agrees(t, lo, hi, pc)
    ensures var (lo, hi) := Half(t, split, startIdx, pc);
            lo < hi && Compact(t, startIdx) && 0 <= pc < TWO32 ==>
              (LastBefore(t, lo, hi, pc, r) <==> InReach(t, startIdx, split, pc))
  {
    hide Wanted, Agrees, LastBefore, LastAtMost, InReach;
    var origin := FindOrigin(t);
    assert origin == split;
    HalvesAscend(t, startIdx, origin);
    r := SearchIdx(t, origin, startIdx, pc);
    var (lo, hi) := Half(t, origin, startIdx, pc);
    if lo < hi {
      RightExactly(t, startIdx, origin, pc, r);
      if Compact(t, startIdx) && 0 <= pc < TWO32 {
        AgreesExactly(t, startIdx, origin, pc);
      }
    }
  }

  /** Everywhere inside the table before the first entry with a positive offset, the key wraps and the last entry is
      returned, although no entry of that half starts at or before the program counter. */
  lemma {:induction false} InsideTableWraps(t: seq<Entry>, startIdx: nat, origin: nat, pc: int)
    requires Orderly(t, startIdx, origin) && Compact(t, startIdx) && origin < |t| && startIdx <= pc < t[origin].place
    ensures Search(t, origin, startIdx, pc) == Some(|t| - 1) && !LastBefore(t, origin, |t|, pc, Some(|t| - 1))
  {
    hide Wanted;
    HalvesAscend(t, startIdx, origin);
    WantedKey(t, origin, pc, 1);
    WantedIs(t, origin, pc);
    SearchMeans(t, origin, |t|, origin, |t|, (pc - t[origin].place) % TWO31, pc + TWO31);
    assert Key(t[|t| - 1]) <= pc + TWO31;
  }

  lemma {:induction false} WantedIs(t: seq<Entry>, lo: nat, pc: int)
    requires lo < |t|
    ensures Wanted(t, lo, pc) == t[lo].place + (pc - t[lo].place) % TWO31
  {
  }
}
