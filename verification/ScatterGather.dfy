/** qdss.py read_sg_data: reading the trace buffer of a TMC ETR through its scatter-gather table. */
module ScatterGather {
  import opened Arith
  import opened Bytes

  const PAGE := 4096

  /** The dump: table words and buffer bytes. `base` is the table, `rwp` the write pointer. */
  datatype Dump = Dump(word: nat -> nat, data: nat -> byte, base: nat, rwp: nat)

  function Block(entry: nat): nat {
    (entry / 16) * PAGE
  }

  /** Bytes of the addresses from `lo` up to `hi`. */
  function Range(d: Dump, lo: nat, hi: nat): (s: seq<byte>)
    requires lo <= hi
    ensures |s| == hi - lo
  {
    seq<byte>(hi - lo, i requires 0 <= i < hi - lo => d.data(lo + i))
  }

  predicate Holds(d: Dump, block: nat) {
    block <= d.rwp < block + PAGE
  }

  // ----- one round of the loop, buffer full -----

  /** Loop variables of read_sg_data. */
  datatype State = State(start: nat, bottomRead: bool, running: bool, out: seq<byte>)

  function Initial(d: Dump): State {
    State(d.base, false, true, [])
  }

  /** The bytes a data page contributes, or None if it is passed over. */
  function Contribution(d: Dump, s: State, block: nat): seq<byte> {
    if Holds(d, block) then
      if !s.bottomRead then Range(d, d.rwp, block + PAGE) else Range(d, block, d.rwp)
    else if s.bottomRead then Range(d, block, block + PAGE) else []
  }

  function Next(d: Dump, s: State): State {
    var entry := d.word(s.start);
    var block := Block(entry);
    if entry % 4 == 3 then s.(start := block)
    else if entry % 4 == 0 then s.(running := false)
    else
      State(if entry % 4 == 2 then s.start + 4 else d.base,
            s.bottomRead || Holds(d, block),
            !(Holds(d, block) && s.bottomRead),
            s.out + Contribution(d, s, block))
  }

  function Rounds(d: Dump, n: nat): State {
    if n == 0 then Initial(d) else if !Rounds(d, n - 1).running then Rounds(d, n - 1) else Next(d, Rounds(d, n - 1))
  }

  // ----- well-formed tables -----

  /** `path` lists the addresses of the table's entries in the order they are followed: data pages and links, then
      the last page. */
  ghost predicate Table(d: Dump, path: seq<nat>) {
    && path != [] && path[0] == d.base
    && d.word(path[|path| - 1]) % 4 == 1
    && forall i :: 0 <= i < |path| - 1 ==> Follows(d, path, i)
  }

  ghost predicate Follows(d: Dump, path: seq<nat>, i: nat)
    requires i + 1 < |path|
  {
    || (d.word(path[i]) % 4 == 3 && path[i + 1] == Block(d.word(path[i])))
    || (d.word(path[i]) % 4 == 2 && path[i + 1] == path[i] + 4)
  }

  ghost predicate IsPage(d: Dump, path: seq<nat>, i: nat)
    requires i < |path|
  {
    d.word(path[i]) % 4 == 1 || d.word(path[i]) % 4 == 2
  }

  ghost predicate HasRwp(d: Dump, path: seq<nat>, i: nat)
    requires i < |path|
  {
    IsPage(d, path, i) && Holds(d, Block(d.word(path[i])))
  }

  ghost predicate DistinctPages(d: Dump, path: seq<nat>) {
    forall i, j :: 0 <= i < j < |path| && IsPage(d, path, i) && IsPage(d, path, j) ==>
      Block(d.word(path[i])) != Block(d.word(path[j]))
  }

  /** The pages of entries `lo` to `hi`, one after the other. */
  ghost function Pages(d: Dump, path: seq<nat>, lo: nat, hi: nat): seq<byte>
    requires lo <= hi <= |path|
    decreases hi - lo
  {
    if lo == hi then []
    else Pages(d, path, lo, hi - 1) + PageOf(d, path, hi - 1)
  }

  ghost function PageOf(d: Dump, path: seq<nat>, i: nat): seq<byte>
    requires i < |path|
  {
    if IsPage(d, path, i) then Range(d, Block(d.word(path[i])), Block(d.word(path[i])) + PAGE) else []
  }

  lemma {:induction false} PagesSplit(d: Dump, path: seq<nat>, lo: nat, mid: nat, hi: nat)
    requires lo <= mid <= hi <= |path|
    ensures Pages(d, path, lo, hi) == Pages(d, path, lo, mid) + Pages(d, path, mid, hi)
    decreases hi - mid
  {
    if mid == hi {
      assert Pages(d, path, lo, mid) + [] == Pages(d, path, lo, mid);
    } else {
      PagesSplit(d, path, lo, mid, hi - 1);
      assert (Pages(d, path, lo, mid) + Pages(d, path, mid, hi - 1)) + PageOf(d, path, hi - 1)
          == Pages(d, path, lo, mid) + (Pages(d, path, mid, hi - 1) + PageOf(d, path, hi - 1));
    }
  }

  /** Pages are aligned, so the write pointer is in one of them only. */
  lemma {:induction false} OnePage(d: Dump, path: seq<nat>, i: nat, j: nat)
    requires DistinctPages(d, path) && i < |path| && j < |path| && HasRwp(d, path, i) && HasRwp(d, path, j)
    ensures i == j
  {
    var a, b := d.word(path[i]) / 16, d.word(path[j]) / 16;
    assert a == b;
  }

  // ----- what is written -----

  /** The whole buffer, rotated to start at the write pointer. */
  ghost function Rotated(d: Dump, path: seq<nat>, r: nat): seq<byte>
    requires r < |path| && HasRwp(d, path, r)
  {
    var all := Pages(d, path, 0, |path|);
    var cut := |Pages(d, path, 0, r)| + (d.rwp - Block(d.word(path[r])));
    PagesSplit(d, path, 0, r, |path|);
    PagesSplit(d, path, r, r + 1, |path|);
    all[cut..] + all[..cut]
  }

  /** The loop before it looks at entry `i`: looking for the write pointer, reading on from it, or reading up to it
      after the table has wrapped. */
  ghost predicate At(d: Dump, path: seq<nat>, r: nat, s: State, wrapped: bool, i: nat)
    requires r < |path| && HasRwp(d, path, r) && i < |path|
  {
    var block := Block(d.word(path[r]));
    && s.running && s.start == path[i]
    && (if !s.bottomRead then !wrapped && i <= r && s.out == []
        else if !wrapped then r < i && s.out == Range(d, d.rwp, block + PAGE) + Pages(d, path, r + 1, i)
        else i <= r && s.out == Range(d, d.rwp, block + PAGE) + Pages(d, path, r + 1, |path|) + Pages(d, path, 0, i))
  }

  /** One round of the loop: it moves on, wraps, or stops with the rotated buffer. */
  lemma {:induction false} Round(d: Dump, path: seq<nat>, r: nat, s: State, wrapped: bool, i: nat)
    returns (wrapped': bool, i': nat)
    requires Table(d, path) && DistinctPages(d, path) && r < |path| && HasRwp(d, path, r) && i < |path|
    requires At(d, path, r, s, wrapped, i)
    ensures i' < |path|
    ensures Next(d, s).running ==> At(d, path, r, Next(d, s), wrapped', i')
    ensures Next(d, s).running ==> Left(path, r, wrapped', i') < Left(path, r, wrapped, i)
    ensures !Next(d, s).running ==> Next(d, s).out == Rotated(d, path, r)
  {
    hide Range, Pages;
    var n := |path|;
    if i + 1 < n {
      assert Follows(d, path, i);
    }
    if HasRwp(d, path, i) {
      OnePage(d, path, i, r);
    }
    if i == r && s.bottomRead {
      Finish(d, path, r, s.out);
      wrapped', i' := wrapped, i;
    } else {
      wrapped', i' := if i + 1 < n then wrapped else true, if i + 1 < n then i + 1 else 0;
      Extend(d, path, r, i);
    }
  }

  /** Rounds left before the loop must stop. */
  ghost function Left(path: seq<nat>, r: nat, wrapped: bool, i: nat): nat
    requires r < |path| && i < |path|
  {
    if wrapped then |path| - i else 2 * |path| - i
  }

  lemma {:induction false} Extend(d: Dump, path: seq<nat>, r: nat, i: nat)
    requires i < |path| && r < |path|
    ensures i > r ==> Pages(d, path, r + 1, i + 1) == Pages(d, path, r + 1, i) + PageOf(d, path, i)
    ensures Pages(d, path, 0, i + 1) == Pages(d, path, 0, i) + PageOf(d, path, i)
    ensures Pages(d, path, r + 1, r + 1) == [] && Pages(d, path, 0, 0) == []
  {
  }

  lemma {:induction false} Finish(d: Dump, path: seq<nat>, r: nat, out: seq<byte>)
    requires r < |path| && HasRwp(d, path, r)
    requires out == Range(d, d.rwp, Block(d.word(path[r])) + PAGE) + Pages(d, path, r + 1, |path|)
                 + Pages(d, path, 0, r)
    ensures out + Range(d, Block(d.word(path[r])), d.rwp) == Rotated(d, path, r)
  {
    hide Pages;
    var n, block := |path|, Block(d.word(path[r]));
    var before, after := Pages(d, path, 0, r), Pages(d, path, r + 1, n);
    PagesSplit(d, path, 0, r, n);
    PagesSplit(d, path, r, r + 1, n);
    OnePageOf(d, path, r);
    var lo, hi := Range(d, block, d.rwp), Range(d, d.rwp, block + PAGE);
    assert PageOf(d, path, r) == lo + hi;
    assert Pages(d, path, 0, n) == (before + lo) + (hi + after);
    assert out + lo == (hi + after) + (before + lo);
  }

  lemma {:induction false} OnePageOf(d: Dump, path: seq<nat>, r: nat)
    requires r < |path|
    ensures Pages(d, path, r, r + 1) == PageOf(d, path, r)
  {
    assert Pages(d, path, r, r) == [];
  }

  /** qdss.py read_sg_data, buffer full: the output is every byte of the buffer once, oldest first. */
  method ReadFull(d: Dump, ghost path: seq<nat>, ghost r: nat) returns (out: seq<byte>)
    requires Table(d, path) && DistinctPages(d, path) && r < |path| && HasRwp(d, path, r)
    ensures out == Rotated(d, path, r)
  {
    hide Rotated, Pages;
    var start: nat, bottomRead, running := d.base, false, true;
    out := [];
    ghost var wrapped, i: nat := false, 0;
    while running
      invariant i < |path|
      invariant running ==> At(d, path, r, State(start, bottomRead, running, out), wrapped, i)
      invariant !running ==> out == Rotated(d, path, r)
      decreases running, Left(path, r, wrapped, i)
    {
      ghost var s := State(start, bottomRead, running, out);
      ghost var wrapped', i' := Round(d, path, r, s, wrapped, i);
      var entry := d.word(start);
      var block := (entry / 16) * PAGE;
      if entry % 4 == 3 {
        start := block;
      } else if entry % 4 == 0 {
        running := false;
      } else {
        var lo, hi := block, block + PAGE;
        if block <= d.rwp && d.rwp < block + PAGE {
          if !bottomRead {
            lo := d.rwp;
            bottomRead := true;
          } else {
            hi := d.rwp;
            running := false;
          }
        } else if !bottomRead {
          hi := lo;
        }
        start := if entry % 4 == 2 then start + 4 else d.base;
        out := CopyRange(d, lo, hi, out);
      }
      assert State(start, bottomRead, running, out) == Next(d, s);
      wrapped, i := wrapped', i';
    }
  }

  method CopyRange(d: Dump, lo: nat, hi: nat, before: seq<byte>) returns (out: seq<byte>)
    ensures out == before + RangeOrNone(d, lo, hi)
  {
    out := before;
    if lo > hi {
      return;
    }
    for k := lo to hi
      invariant out == before + Range(d, lo, k)
    {
      out := out + [d.data(k)];
    }
  }

  // ----- when the loop stops -----

  /** With the write pointer in a page, some number of rounds ends the loop with the rotated buffer. */
  lemma {:induction false} Stops(d: Dump, path: seq<nat>, r: nat, n: nat, wrapped: bool, i: nat) returns (m: nat)
    requires Table(d, path) && DistinctPages(d, path) && r < |path| && HasRwp(d, path, r) && i < |path|
    requires At(d, path, r, Rounds(d, n), wrapped, i)
    ensures !Rounds(d, m).running && Rounds(d, m).out == Rotated(d, path, r)
    decreases Left(path, r, wrapped, i)
  {
    hide Rotated, Next, At;
    var wrapped', i' := Round(d, path, r, Rounds(d, n), wrapped, i);
    AtRuns(d, path, r, Rounds(d, n), wrapped, i);
    assert Rounds(d, n + 1) == Next(d, Rounds(d, n));
    if Rounds(d, n + 1).running {
      m := Stops(d, path, r, n + 1, wrapped', i');
    } else {
      m := n + 1;
    }
  }

  lemma {:induction false} AtRuns(d: Dump, path: seq<nat>, r: nat, s: State, wrapped: bool, i: nat)
    requires r < |path| && HasRwp(d, path, r) && i < |path| && At(d, path, r, s, wrapped, i)
    ensures s.running
  {
  }

  /** With the write pointer in no page, the loop goes round the table for ever. */
  lemma {:induction false} NeverStops(d: Dump, path: seq<nat>, n: nat) returns (i: nat)
    requires Table(d, path) && forall k :: 0 <= k < |path| ==> !HasRwp(d, path, k)
    ensures i < |path| && Rounds(d, n) == State(path[i], false, true, [])
    decreases n
  {
    if n == 0 {
      i := 0;
    } else {
      var j := NeverStops(d, path, n - 1);
      assert !HasRwp(d, path, j);
      if j + 1 < |path| {
        assert Follows(d, path, j);
        i := j + 1;
      } else {
        i := 0;
      }
    }
  }

  ghost predicate Halts(d: Dump) {
    exists n: nat :: !Rounds(d, n).running
  }

  /** read_sg_data ends on a well-formed table exactly when the write pointer lies in one of its pages. */
  lemma {:induction false} HaltsExactly(d: Dump, path: seq<nat>)
    requires Table(d, path) && DistinctPages(d, path)
    ensures Halts(d) <==> exists r :: 0 <= r < |path| && HasRwp(d, path, r)
  {
    if r :| 0 <= r < |path| && HasRwp(d, path, r) {
      assert At(d, path, r, Rounds(d, 0), false, 0);
      var m := Stops(d, path, r, 0, false, 0);
    } else {
      forall n: nat
        ensures Rounds(d, n).running
      {
        var i := NeverStops(d, path, n);
      }
    }
  }

  /** For instance a table of one page, at address 0, and a write pointer just past it. */
  lemma {:induction false} PastTheEnd()
    ensures !Halts(Dump(_ => 1, _ => 0, 0, PAGE))
  {
    var d := Dump(_ => 1, _ => 0, 0, PAGE);
    assert Table(d, [0]);
    assert !HasRwp(d, [0], 0);
    HaltsExactly(d, [0]);
  }

  // ----- the words of a table -----

  /** An entry with the page number of `a` in its upper bits points at `a`, whatever the low four bits hold. */
  lemma {:induction false} BlockOf(a: nat, low: nat)
    requires a % 4096 == 0 && low < 16
    ensures Block(a / 4096 * 16 + low) == a && (a / 4096 * 16 + low) % 4 == low % 4
  {
    var q := a / 4096;
    DivUnique(q * 16 + low, 16, q, low);
    DivUnique(q * 16 + low, 4, q * 4 + low / 4, low % 4);
    DivUnique(a, 4096, q, 0);
  }

  /** One table page: word `i` points at page `pages[i]`, type 2 for all but the last, which has type 1. */
  ghost predicate Listed(d: Dump, pages: seq<nat>) {
    && pages != []
    && (forall i :: 0 <= i < |pages| ==> pages[i] % 4096 == 0)
    && (forall i, j :: 0 <= i < j < |pages| ==> pages[i] != pages[j])
    && (forall i :: 0 <= i < |pages| ==>
          d.word(d.base + 4 * i) == pages[i] / 4096 * 16 + if i + 1 < |pages| then 2 else 1)
  }

  function WordsFrom(base: nat, n: nat): (path: seq<nat>)
    ensures |path| == n && forall i :: 0 <= i < n ==> path[i] == base + 4 * i
  {
    seq(n, i requires 0 <= i < n => base + 4 * i)
  }

  lemma {:induction false} ListedWord(d: Dump, pages: seq<nat>, i: nat)
    requires Listed(d, pages) && i < |pages|
    ensures d.word(d.base + 4 * i) == pages[i] / 4096 * 16 + if i + 1 < |pages| then 2 else 1
    ensures pages[i] % 4096 == 0
  {
  }

  lemma {:induction false} ListedEntry(d: Dump, pages: seq<nat>, i: nat)
    requires Listed(d, pages) && i < |pages|
    ensures var w := d.word(d.base + 4 * i);
            && Block(w) == pages[i] && w % 4 == if i + 1 < |pages| then 2 else 1
  {
    ListedWord(d, pages, i);
    hide Block, Listed;
    BlockOf(pages[i], if i + 1 < |pages| then 2 else 1);
  }

  lemma {:induction false} ListedIsTable(d: Dump, pages: seq<nat>)
    requires Listed(d, pages)
    ensures var path := WordsFrom(d.base, |pages|);
            && Table(d, path) && DistinctPages(d, path)
            && forall i :: 0 <= i < |pages| ==> IsPage(d, path, i) && Block(d.word(path[i])) == pages[i]
  {
    hide Block, WordsFrom;
    var n, path := |pages|, WordsFrom(d.base, |pages|);
    assert forall i, j :: 0 <= i < j < n ==> pages[i] != pages[j];
    forall i | 0 <= i < n
      ensures IsPage(d, path, i) && Block(d.word(path[i])) == pages[i]
      ensures i < n - 1 ==> Follows(d, path, i)
      ensures i == n - 1 ==> d.word(path[i]) % 4 == 1
    {
      ListedEntry(d, pages, i);
    }
    assert path[0] == d.base;
  }

  /** Byte `j` of the pages laid end to end. */
  function ByteOf(d: Dump, pages: seq<nat>, j: nat): byte
    requires j < 4096 * |pages|
  {
    d.data(pages[j / 4096] + j % 4096)
  }

  lemma {:induction false} PagesAt(d: Dump, path: seq<nat>, pages: seq<nat>, n: nat)
    requires n <= |path| == |pages|
    requires forall i :: 0 <= i < n ==> IsPage(d, path, i) && Block(d.word(path[i])) == pages[i]
    ensures |Pages(d, path, 0, n)| == 4096 * n
    ensures forall j :: 0 <= j < 4096 * n ==> Pages(d, path, 0, n)[j] == ByteOf(d, pages, j)
    decreases n
  {
    hide IsPage, Block, ByteOf;
    if n > 0 {
      PagesAt(d, path, pages, n - 1);
      assert PageOf(d, path, n - 1) == Range(d, pages[n - 1], pages[n - 1] + PAGE);
      forall j | 4096 * (n - 1) <= j < 4096 * n
        ensures Range(d, pages[n - 1], pages[n - 1] + PAGE)[j - 4096 * (n - 1)] == ByteOf(d, pages, j)
      {
        LastPageByte(d, pages, n, j);
      }
    }
  }

  lemma {:induction false} LastPageByte(d: Dump, pages: seq<nat>, n: nat, j: nat)
    requires 1 <= n <= |pages| && 4096 * (n - 1) <= j < 4096 * n
    ensures ByteOf(d, pages, j) == Range(d, pages[n - 1], pages[n - 1] + PAGE)[j - 4096 * (n - 1)]
  {
    DivUnique(j, 4096, n - 1, j - 4096 * (n - 1));
  }

  /** What read_sg_data returns for such a table when the write pointer is in page `r`: byte `k` is byte `k` of the
      pages after the write pointer, going round at the end of the last page. */
  lemma {:induction false} ListedRead(d: Dump, pages: seq<nat>, r: nat)
    requires Listed(d, pages) && r < |pages| && pages[r] <= d.rwp < pages[r] + 4096
    ensures var path := WordsFrom(d.base, |pages|);
            && Table(d, path) && DistinctPages(d, path) && HasRwp(d, path, r)
            && |Rotated(d, path, r)| == 4096 * |pages|
            && forall k :: 0 <= k < 4096 * |pages| ==>
                 Rotated(d, path, r)[k] == ByteOf(d, pages, (4096 * r + d.rwp - pages[r] + k) % (4096 * |pages|))
  {
    hide Pages, DistinctPages, Table, ByteOf;
    var n, path := |pages|, WordsFrom(d.base, |pages|);
    ListedIsTable(d, pages);
    PagesAt(d, path, pages, n);
    PagesAt(d, path, pages, r);
    var cut, all := 4096 * r + d.rwp - pages[r], Pages(d, path, 0, n);
    assert Rotated(d, path, r) == all[cut..] + all[..cut];
    forall k | 0 <= k < 4096 * n
      ensures Rotated(d, path, r)[k] == ByteOf(d, pages, (cut + k) % (4096 * n))
    {
      Turned(cut, k, 4096 * n);
    }
  }

  lemma {:induction false} Turned(cut: nat, k: nat, size: nat)
    requires cut < size && k < size
    ensures (cut + k) % size == if cut + k < size then cut + k else cut + k - size
  {
  }

  // ----- the contiguous buffer -----

  /** The pages of the table are consecutive from `buffer`. */
  ghost predicate Contiguous(d: Dump, path: seq<nat>, buffer: nat) {
    forall i :: 0 <= i < |path| ==> IsPage(d, path, i) && Block(d.word(path[i])) == buffer + PAGE * i
  }

  lemma {:induction false} PagesContiguous(d: Dump, path: seq<nat>, buffer: nat, n: nat)
    requires Contiguous(d, path, buffer) && n <= |path|
    ensures Pages(d, path, 0, n) == Range(d, buffer, buffer + PAGE * n)
    decreases n
  {
    hide Range, PageOf;
    if n > 0 {
      PagesContiguous(d, path, buffer, n - 1);
      PageAt(d, path, buffer, n - 1);
      RangeJoin(d, buffer, buffer + PAGE * (n - 1), buffer + PAGE * n);
    } else {
      NoRange(d, buffer);
    }
  }

  lemma {:induction false} PageAt(d: Dump, path: seq<nat>, buffer: nat, i: nat)
    requires Contiguous(d, path, buffer) && i < |path|
    ensures PageOf(d, path, i) == Range(d, buffer + PAGE * i, buffer + PAGE * (i + 1))
  {
    hide Range;
    assert IsPage(d, path, i) && Block(d.word(path[i])) == buffer + PAGE * i;
  }

  lemma {:induction false} NoRange(d: Dump, lo: nat)
    ensures Range(d, lo, lo) == []
  {
  }

  lemma {:induction false} RangeJoin(d: Dump, lo: nat, mid: nat, hi: nat)
    requires lo <= mid <= hi
    ensures Range(d, lo, mid) + Range(d, mid, hi) == Range(d, lo, hi)
  {
  }

  /** Python's range: nothing if it is turned round. */
  function RangeOrNone(d: Dump, lo: nat, hi: nat): seq<byte> {
    if lo <= hi then Range(d, lo, hi) else []
  }

  /** qdss.py save_etr_bin, contiguous memory: a full buffer from the write pointer to the end, then from the start up
      to it; one that is not full from start to end. */
  method ReadContiguous(d: Dump, buffer: nat, size: nat, full: bool) returns (out: seq<byte>)
    ensures full ==> out == RangeOrNone(d, d.rwp, buffer + size) + RangeOrNone(d, buffer, d.rwp)
    ensures full && buffer <= d.rwp <= buffer + size ==>
              var all, cut := Range(d, buffer, buffer + size), d.rwp - buffer;
              out == all[cut..] + all[..cut]
    ensures !full ==> out == Range(d, buffer, buffer + size)
  {
    out := [];
    if full {
      out := CopyRange(d, d.rwp, buffer + size, out);
      out := CopyRange(d, buffer, d.rwp, out);
      if buffer <= d.rwp <= buffer + size {
        RangeSplit(d, buffer, d.rwp, buffer + size);
      }
    } else {
      out := CopyRange(d, buffer, buffer + size, out);
    }
  }

  /** On a contiguous buffer the scatter-gather reader and the contiguous one write the same bytes. */
  lemma {:induction false} SameAsContiguous(d: Dump, path: seq<nat>, r: nat, buffer: nat)
    requires Contiguous(d, path, buffer) && r < |path| && HasRwp(d, path, r)
    ensures Rotated(d, path, r) == Range(d, d.rwp, buffer + PAGE * |path|) + Range(d, buffer, d.rwp)
  {
    hide Range, Pages;
    var n := |path|;
    PagesContiguous(d, path, buffer, n);
    PagesContiguous(d, path, buffer, r);
    RangeSplit(d, buffer, d.rwp, buffer + PAGE * n);
  }

  lemma {:induction false} RangeSplit(d: Dump, lo: nat, mid: nat, hi: nat)
    requires lo <= mid <= hi
    ensures Range(d, lo, hi)[mid - lo..] == Range(d, mid, hi)
    ensures Range(d, lo, hi)[..mid - lo] == Range(d, lo, mid)
  {
  }
}
