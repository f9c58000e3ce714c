/** checksparse.py genfile: splitting an Android sparse image into plain files and their start sectors. */
module Sparse {
  import opened Options
  import opened Arith
  import opened Bytes
  import opened Record

  const MAGIC := 0xed26ff3a
  const MAJOR := 1
  const FILE_HEADER := 28
  const CHUNK_HEADER := 12
  const COPY_BUF_SIZE := 0x100000
  const RAW := 0xCAC1
  const DONT_CARE := 0xCAC3

  datatype Header = Header(chunkHeader: nat, blockSize: nat, totalBlocks: nat, totalChunks: nat)

  /** A chunk covers `blocks` blocks, `len` bytes; a raw one has data, shorter than `len` if the file is cut off. */
  datatype Chunk = Raw(blocks: nat, len: nat, data: seq<byte>) | Skip(blocks: nat, len: nat)

  /** An output file and where to program it. */
  datatype Extent = Extent(start: nat, sectors: nat, data: seq<byte>)

  // ----- the sparse format -----

  /** The header, and the position of the first chunk. */
  function ReadHeader(file: seq<byte>): Option<(Header, nat)> {
    if |file| < FILE_HEADER then None
    else if FromLE(file[0..4]) != MAGIC || FromLE(file[4..6]) != MAJOR then None
    else
      var size := FromLE(file[8..10]);
      Some((Header(FromLE(file[10..12]), FromLE(file[12..16]), FromLE(file[16..20]), FromLE(file[20..24])),
            if size > FILE_HEADER then size else FILE_HEADER))
  }

  /** The chunk at `pos` and the position after it; None where genfile reports an error. */
  function ReadChunk(file: seq<byte>, h: Header, pos: nat): Option<(Chunk, nat)> {
    var head := ReadAt(file, pos, CHUNK_HEADER);
    if |head| < CHUNK_HEADER then None
    else
      var kind, blocks, total := FromLE(head[0..2]), FromLE(head[4..8]), FromLE(head[8..12]);
      var at := pos + if h.chunkHeader > CHUNK_HEADER then h.chunkHeader else CHUNK_HEADER;
      var len := blocks * h.blockSize;
      if kind == RAW then
        if total != h.chunkHeader + len || len % SECTOR != 0 then None
        else Some((Raw(blocks, len, ReadAt(file, at, len)), at + |ReadAt(file, at, len)|))
      else if kind == DONT_CARE then
        if total != h.chunkHeader || len % SECTOR != 0 then None else Some((Skip(blocks, len), at))
      else None
  }

  function ReadChunks(file: seq<byte>, h: Header, pos: nat, n: nat): Option<seq<Chunk>>
    decreases n
  {
    if n == 0 then Some([])
    else
      var c := ReadChunk(file, h, pos);
      if c.None? then None
      else
        var rest := ReadChunks(file, h, c.value.1, n - 1);
        if rest.None? then None else Some([c.value.0] + rest.value)
  }

  function Blocks(cs: seq<Chunk>): nat {
    if cs == [] then 0 else Blocks(cs[..|cs| - 1]) + cs[|cs| - 1].blocks
  }

  /** The chunks of a file genfile accepts. */
  function Parse(file: seq<byte>): Option<seq<Chunk>> {
    var h := ReadHeader(file);
    if h.None? then None
    else
      var cs := ReadChunks(file, h.value.0, h.value.1, h.value.0.totalChunks);
      if cs.Some? && Blocks(cs.value) == h.value.0.totalBlocks then cs else None
  }

  ghost predicate Whole(c: Chunk) {
    c.len % SECTOR == 0 && (c.Raw? ==> |c.data| == c.len)
  }

  /** No raw chunk is cut off by the end of the file. */
  ghost predicate Complete(cs: seq<Chunk>) {
    forall i :: 0 <= i < |cs| ==> Whole(cs[i])
  }

  // ----- images -----

  /** A byte of an image, or nothing where the image does not care. */
  type Image = seq<Option<byte>>

  function Data(s: seq<byte>): (r: Image)
    ensures |r| == |s|
    ensures forall i :: 0 <= i < |r| ==> r[i] == Some(s[i])
  {
    seq(|s|, i requires 0 <= i < |s| => Some(s[i]))
  }

  function Gap(n: nat): (r: Image)
    ensures |r| == n
    ensures forall i :: 0 <= i < n ==> r[i] == None
  {
    seq(n, _ => None)
  }

  /** Reference: the image the sparse file stands for. */
  function Unsparse(cs: seq<Chunk>): Image {
    if cs == [] then []
    else
      var c := cs[|cs| - 1];
      Unsparse(cs[..|cs| - 1]) + if c.Raw? then Data(c.data) else Gap(c.len)
  }

  /** Extents are whole sectors, ascending and disjoint, between sectors `base` and `end`. */
  ghost predicate Ascending(es: seq<Extent>, base: nat, end: nat) {
    && base <= end
    && (forall i :: 0 <= i < |es| ==>
        |es[i].data| == es[i].sectors * SECTOR && base <= es[i].start && es[i].start + es[i].sectors <= end)
    && (forall i, j :: 0 <= i < j < |es| ==> es[i].start + es[i].sectors <= es[j].start)
  }

  /** The image obtained by programming every extent at its start sector. */
  function LayOut(es: seq<Extent>, base: nat, end: nat): (r: Image)
    requires Ascending(es, base, end)
    ensures |r| == (end - base) * SECTOR
  {
    if es == [] then Gap((end - base) * SECTOR)
    else
      var e := es[|es| - 1];
      LayOut(es[..|es| - 1], base, e.start) + Data(e.data) + Gap((end - e.start - e.sectors) * SECTOR)
  }

  /** Every byte of an extent is at its place. */
  lemma {:induction false} LayOutHas(es: seq<Extent>, base: nat, end: nat, k: nat, i: nat)
    requires Ascending(es, base, end) && k < |es| && i < |es[k].data|
    ensures (es[k].start - base) * SECTOR + i < |LayOut(es, base, end)|
    ensures LayOut(es, base, end)[(es[k].start - base) * SECTOR + i] == Some(es[k].data[i])
    decreases |es|
  {
    if k < |es| - 1 {
      LayOutHas(es[..|es| - 1], base, es[|es| - 1].start, k, i);
    }
  }

  /** A sector outside every extent is left alone. */
  lemma {:induction false} LayOutLeaves(es: seq<Extent>, base: nat, end: nat, x: nat)
    requires Ascending(es, base, end) && x < (end - base) * SECTOR
    requires forall k :: 0 <= k < |es| ==> !(es[k].start <= base + x / SECTOR < es[k].start + es[k].sectors)
    ensures LayOut(es, base, end)[x] == None
    decreases |es|
  {
    if es != [] {
      var e := es[|es| - 1];
      if x < (e.start - base) * SECTOR {
        LayOutLeaves(es[..|es| - 1], base, e.start, x);
      }
    }
  }

  // ----- the loop -----

  /** `results` and the state of the output file after some chunks; `sector` is current_start_sector. */
  datatype Progress = Progress(results: seq<Extent>, open: bool, sector: nat)

  /** A raw chunk opens a new file or is appended to the open one. */
  function AddRaw(p: Progress, len: nat, data: seq<byte>): Progress
    requires p.open ==> p.results != []
  {
    var n := len / SECTOR;
    var last := |p.results| - 1;
    Progress(
      if !p.open then p.results + [Extent(p.sector, n, data)]
      else p.results[last := Extent(p.results[last].start, p.results[last].sectors + n, p.results[last].data + data)],
      true, p.sector + n)
  }

  /** A don't-care chunk closes the file and moves on. */
  function AddSkip(p: Progress, len: nat): Progress {
    Progress(p.results, false, p.sector + len / SECTOR)
  }

  ghost predicate Sound(p: Progress, base: nat) {
    && (p.open ==> p.results != [])
    && base <= p.sector
    && (p.open ==> var e := p.results[|p.results| - 1]; e.start + e.sectors == p.sector)
    && (forall i :: 0 <= i < |p.results| ==> |p.results[i].data| <= p.results[i].sectors * SECTOR)
  }

  ghost predicate Filled(es: seq<Extent>) {
    forall i :: 0 <= i < |es| ==> |es[i].data| == es[i].sectors * SECTOR
  }

  /** The files so far program exactly the image of the chunks so far. */
  ghost predicate Faithful(p: Progress, base: nat, cs: seq<Chunk>) {
    Ascending(p.results, base, p.sector) && LayOut(p.results, base, p.sector) == Unsparse(cs)
  }

  lemma {:induction false} GapGrows(es: seq<Extent>, base: nat, end: nat, more: nat)
    requires Ascending(es, base, end)
    ensures Ascending(es, base, end + more)
    ensures LayOut(es, base, end + more) == LayOut(es, base, end) + Gap(more * SECTOR)
  {
    if es == [] {
      assert Gap((end + more - base) * SECTOR) == Gap((end - base) * SECTOR) + Gap(more * SECTOR);
    } else {
      var e := es[|es| - 1];
      assert Gap((end + more - e.start - e.sectors) * SECTOR)
          == Gap((end - e.start - e.sectors) * SECTOR) + Gap(more * SECTOR);
    }
  }

  lemma {:induction false} SkipFaithful(p: Progress, base: nat, cs: seq<Chunk>, c: Chunk)
    requires Sound(p, base) && Faithful(p, base, cs) && c.Skip? && Whole(c)
    ensures Faithful(AddSkip(p, c.len), base, cs + [c])
  {
    hide LayOut, Unsparse;
    GapGrows(p.results, base, p.sector, c.len / SECTOR);
    UnsparseSnoc(cs, c);
  }

  lemma {:induction false} UnsparseSnoc(cs: seq<Chunk>, c: Chunk)
    ensures Unsparse(cs + [c]) == Unsparse(cs) + if c.Raw? then Data(c.data) else Gap(c.len)
  {
    assert (cs + [c])[..|cs|] == cs;
  }

  lemma {:induction false} RawFaithful(p: Progress, base: nat, cs: seq<Chunk>, c: Chunk)
    requires Sound(p, base) && Faithful(p, base, cs) && c.Raw? && Whole(c)
    ensures Faithful(AddRaw(p, c.len, c.data), base, cs + [c])
  {
    hide LayOut, Unsparse;
    UnsparseSnoc(cs, c);
    if p.open {
      AppendRaw(p.results, base, p.sector, c.len / SECTOR, c.data);
    } else {
      NewRaw(p.results, base, p.sector, c.len / SECTOR, c.data);
    }
  }

  lemma {:induction false} NewRaw(es: seq<Extent>, base: nat, end: nat, n: nat, data: seq<byte>)
    requires Ascending(es, base, end) && |data| == n * SECTOR
    ensures Ascending(es + [Extent(end, n, data)], base, end + n)
    ensures LayOut(es + [Extent(end, n, data)], base, end + n) == LayOut(es, base, end) + Data(data)
  {
    var e := Extent(end, n, data);
    assert (es + [e])[..|es|] == es;
    assert Gap(0) == [];
  }

  lemma {:induction false} AppendRaw(es: seq<Extent>, base: nat, end: nat, n: nat, data: seq<byte>)
    requires Ascending(es, base, end) && |data| == n * SECTOR && es != []
    requires var e := es[|es| - 1]; e.start + e.sectors == end
    ensures var e := es[|es| - 1];
            var es' := es[|es| - 1 := Extent(e.start, e.sectors + n, e.data + data)];
            && Ascending(es', base, end + n)
            && LayOut(es', base, end + n) == LayOut(es, base, end) + Data(data)
  {
    var k := |es| - 1;
    var e := es[k];
    var es' := es[k := Extent(e.start, e.sectors + n, e.data + data)];
    assert es'[..k] == es[..k];
    assert Gap(0) == [];
    assert Data(e.data + data) == Data(e.data) + Data(data);
  }

  /** How often a raw chunk comes first or after a don't-care chunk. */
  ghost function RawRuns(cs: seq<Chunk>): nat {
    if cs == [] then 0
    else
      var n := |cs| - 1;
      RawRuns(cs[..n]) + if cs[n].Raw? && (n > 0 ==> cs[n - 1].Skip?) then 1 else 0
  }

  /** There is a file for every run of raw chunks, open while the run lasts. */
  ghost predicate OnePerRun(p: Progress, cs: seq<Chunk>) {
    |p.results| == RawRuns(cs) && (p.open <==> cs != [] && cs[|cs| - 1].Raw?)
  }

  lemma {:induction false} NoRuns()
    ensures RawRuns([]) == 0
  {
  }

  lemma {:induction false} RunStep(p: Progress, cs: seq<Chunk>, c: Chunk)
    requires OnePerRun(p, cs) && (p.open ==> p.results != [])
    ensures OnePerRun(if c.Raw? then AddRaw(p, c.len, c.data) else AddSkip(p, c.len), cs + [c])
  {
    assert (cs + [c])[..|cs|] == cs;
  }

  /** Everything the loop keeps. */
  ghost predicate Kept(p: Progress, base: nat, cs: seq<Chunk>) {
    && Sound(p, base)
    && (Filled(p.results) <==> Complete(cs))
    && (Complete(cs) ==> Faithful(p, base, cs))
  }

  lemma {:induction false} CompleteSnoc(cs: seq<Chunk>, c: Chunk)
    ensures Complete(cs + [c]) <==> Complete(cs) && Whole(c)
  {
    if Complete(cs + [c]) {
      assert forall i :: 0 <= i < |cs| ==> (cs + [c])[i] == cs[i];
      assert (cs + [c])[|cs|] == c;
    }
  }

  lemma {:induction false} KeptStep(p: Progress, base: nat, cs: seq<Chunk>, c: Chunk)
    requires Kept(p, base, cs) && c.len % SECTOR == 0 && (c.Raw? ==> |c.data| <= c.len)
    ensures Kept(if c.Raw? then AddRaw(p, c.len, c.data) else AddSkip(p, c.len), base, cs + [c])
  {
    hide Faithful, LayOut, Unsparse;
    CompleteSnoc(cs, c);
    if c.Raw? {
      RawFilled(p, base, c);
      if Complete(cs) && Whole(c) {
        RawFaithful(p, base, cs, c);
      }
    } else if Complete(cs) {
      SkipFaithful(p, base, cs, c);
    }
  }

  lemma {:induction false} RawFilled(p: Progress, base: nat, c: Chunk)
    requires Sound(p, base) && c.Raw? && c.len % SECTOR == 0 && |c.data| <= c.len
    ensures var q := AddRaw(p, c.len, c.data);
            Sound(q, base) && (Filled(q.results) <==> Filled(p.results) && |c.data| == c.len)
  {
    var q := AddRaw(p, c.len, c.data);
    var n := |p.results| - 1;
    if Filled(q.results) {
      forall i | 0 <= i < |p.results|
        ensures |p.results[i].data| == p.results[i].sectors * SECTOR
      {
        assert |q.results[i].data| == q.results[i].sectors * SECTOR;
      }
      assert |q.results[|q.results| - 1].data| == q.results[|q.results| - 1].sectors * SECTOR;
    }
  }

  /** checksparse.py process_raw_chunk: the copy goes through a bounded buffer. */
  method CopyRaw(file: seq<byte>, pos: nat, length: nat) returns (data: seq<byte>)
    ensures data == ReadAt(file, pos, length)
  {
    hide ReadAt;
    data := [];
    var left: nat, at: nat := length, pos;
    while left != 0
      invariant left <= length
      invariant data == ReadAt(file, pos, length - left) && at == pos + |data|
      decreases left
    {
      var chunk := if left > COPY_BUF_SIZE then COPY_BUF_SIZE else left;
      var buf := ReadAt(file, at, chunk);
      ReadOn(file, pos, length - left, chunk);
      data := data + buf;
      at := at + |buf|;
      left := left - chunk;
    }
  }

  lemma {:induction false} ReadOn(file: seq<byte>, pos: nat, n: nat, m: nat)
    ensures ReadAt(file, pos, n) + ReadAt(file, pos + |ReadAt(file, pos, n)|, m) == ReadAt(file, pos, n + m)
  {
  }

  /** Reading the chunk at `pos`, as genfile does. */
  method NextChunk(file: seq<byte>, h: Header, pos: nat) returns (c: Option<(Chunk, nat)>)
    ensures c == ReadChunk(file, h, pos)
  {
    hide FromLE;
    var head := ReadAt(file, pos, CHUNK_HEADER);
    if |head| < CHUNK_HEADER {
      return None;
    }
    var at := pos + CHUNK_HEADER;
    if h.chunkHeader > CHUNK_HEADER {
      at := at + (h.chunkHeader - CHUNK_HEADER);
    }
    var kind, blocks, total := FromLE(head[0..2]), FromLE(head[4..8]), FromLE(head[8..12]);
    var len := blocks * h.blockSize;
    if kind == RAW {
      if total != h.chunkHeader + len || len % SECTOR != 0 {
        return None;
      }
      var data := CopyRaw(file, at, len);
      c := Some((Raw(blocks, len, data), at + |data|));
    } else if kind == DONT_CARE {
      if total != h.chunkHeader || len % SECTOR != 0 {
        return None;
      }
      c := Some((Skip(blocks, len), at));
    } else {
      c := None;
    }
  }

  /** What is left to read after `done`. */
  ghost predicate Reading(whole: Option<seq<Chunk>>, done: seq<Chunk>, rest: Option<seq<Chunk>>) {
    if rest.None? then whole.None? else whole == Some(done + rest.value)
  }

  /** checksparse.py genfile. It accepts exactly the well-formed files and writes one file for every run of raw chunks.
      Programming its output files reproduces the image, with every raw byte in place and every don't-care sector
      untouched, and the files have the sizes it reports, if and only if no raw chunk is cut off by the end of the
      input. */
  method GenFile(file: seq<byte>, startSector: nat) returns (r: Option<seq<Extent>>)
    ensures r.Some? <==> Parse(file).Some?
    ensures r.Some? ==> |r.value| == RawRuns(Parse(file).value)
    ensures r.Some? ==> (Filled(r.value) <==> Complete(Parse(file).value))
    ensures r.Some? && Complete(Parse(file).value) ==>
              var cs := Parse(file).value;
              var end := startSector + |Unsparse(cs)| / SECTOR;
              Ascending(r.value, startSector, end) && LayOut(r.value, startSector, end) == Unsparse(cs)
  {
    hide ReadHeader, ReadChunk, ReadChunks, Kept, LayOut, Unsparse, Reading, RawRuns;
    var head := ReadHeader(file);
    if head.None? {
      return None;
    }
    var h, pos: nat := head.value.0, head.value.1;
    var results: seq<Extent>, open, sector: nat, total: nat := [], false, startSector, 0;
    ghost var done: seq<Chunk>, whole := [], ReadChunks(file, h, pos, h.totalChunks);
    KeptStart(startSector);
    assert RawRuns(done) == 0 by { NoRuns(); }
    ReadingStart(whole);
    for i := 0 to h.totalChunks
      invariant Reading(whole, done, ReadChunks(file, h, pos, h.totalChunks - i))
      invariant total == Blocks(done)
      invariant Kept(Progress(results, open, sector), startSector, done)
      invariant OnePerRun(Progress(results, open, sector), done)
    {
      var c := NextChunk(file, h, pos);
      if c.None? {
        ReadingFails(file, h, pos, h.totalChunks - i, whole, done);
        return None;
      }
      KeptOpen(Progress(results, open, sector), startSector, done);
      ReadingOn(file, h, pos, h.totalChunks - i, whole, done, c.value);
      ChunkShape(file, h, pos);
      KeptStep(Progress(results, open, sector), startSector, done, c.value.0);
      RunStep(Progress(results, open, sector), done, c.value.0);
      results, open, sector := AddChunk(results, open, sector, c.value.0);
      total := total + c.value.0.blocks;
      BlocksSnoc(done, c.value.0);
      done, pos := done + [c.value.0], c.value.1;
    }
    ReadingEnd(file, h, pos, whole, done);
    if h.totalBlocks != total {
      return None;
    }
    KeptEnd(Progress(results, open, sector), startSector, done);
    r := Some(results);
  }

  /** A raw chunk is written to a new file or to the open one; a don't-care chunk closes it. */
  method AddChunk(results: seq<Extent>, open: bool, sector: nat, c: Chunk)
      returns (results': seq<Extent>, open': bool, sector': nat)
    requires open ==> results != []
    ensures Progress(results', open', sector')
         == var p := Progress(results, open, sector); if c.Raw? then AddRaw(p, c.len, c.data) else AddSkip(p, c.len)
  {
    results', open', sector' := results, open, sector;
    match c {
      case Raw(_, len, data) =>
        var n := len / SECTOR;
        if !open {
          results' := results' + [Extent(sector, n, data)];
          open' := true;
        } else {
          var last := results[|results| - 1];
          results' := results[|results| - 1 := Extent(last.start, last.sectors + n, last.data + data)];
        }
        sector' := sector' + n;
      case Skip(_, len) =>
        open' := false;
        sector' := sector' + len / SECTOR;
    }
  }

  lemma {:induction false} ReadingStart(whole: Option<seq<Chunk>>)
    ensures Reading(whole, [], whole)
  {
    assert whole.Some? ==> [] + whole.value == whole.value;
  }

  lemma {:induction false} ReadingOn(file: seq<byte>, h: Header, pos: nat, n: nat, whole: Option<seq<Chunk>>,
                                     done: seq<Chunk>, c: (Chunk, nat))
    requires n > 0 && ReadChunk(file, h, pos) == Some(c) && Reading(whole, done, ReadChunks(file, h, pos, n))
    ensures Reading(whole, done + [c.0], ReadChunks(file, h, c.1, n - 1))
  {
    hide ReadChunk;
    var rest := ReadChunks(file, h, c.1, n - 1);
    if rest.Some? {
      assert (done + [c.0]) + rest.value == done + ([c.0] + rest.value);
    }
  }

  lemma {:induction false} ReadingFails(file: seq<byte>, h: Header, pos: nat, n: nat, whole: Option<seq<Chunk>>,
                                        done: seq<Chunk>)
    requires n > 0 && ReadChunk(file, h, pos).None? && Reading(whole, done, ReadChunks(file, h, pos, n))
    ensures whole.None?
  {
    hide ReadChunk;
  }

  lemma {:induction false} ReadingEnd(file: seq<byte>, h: Header, pos: nat, whole: Option<seq<Chunk>>, done: seq<Chunk>)
    requires Reading(whole, done, ReadChunks(file, h, pos, 0))
    ensures whole == Some(done)
  {
    assert done + [] == done;
  }

  lemma {:induction false} BlocksSnoc(cs: seq<Chunk>, c: Chunk)
    ensures Blocks(cs + [c]) == Blocks(cs) + c.blocks
  {
    assert (cs + [c])[..|cs|] == cs;
  }

  lemma {:induction false} KeptStart(base: nat)
    ensures Kept(Progress([], false, base), base, [])
  {
  }

  lemma {:induction false} KeptOpen(p: Progress, base: nat, cs: seq<Chunk>)
    requires Kept(p, base, cs)
    ensures p.open ==> p.results != []
  {
  }

  lemma {:induction false} KeptEnd(p: Progress, base: nat, cs: seq<Chunk>)
    requires Kept(p, base, cs)
    ensures Filled(p.results) <==> Complete(cs)
    ensures Complete(cs) ==>
              var end := base + |Unsparse(cs)| / SECTOR;
              Ascending(p.results, base, end) && LayOut(p.results, base, end) == Unsparse(cs)
  {
    hide LayOut, Unsparse, Sound, Filled, Complete, Ascending;
    if Complete(cs) {
      assert |Unsparse(cs)| == (p.sector - base) * SECTOR;
    }
  }

  lemma {:induction false} ChunkShape(file: seq<byte>, h: Header, pos: nat)
    requires ReadChunk(file, h, pos).Some?
    ensures var c := ReadChunk(file, h, pos).value.0;
            c.len % SECTOR == 0 && (c.Raw? ==> |c.data| <= c.len)
  {
  }

  // ----- a truncated image -----

  /** Header and chunk header of an image of one raw block of 512 bytes. */
  function OneBlockCells(): seq<Cell> {
    [Cell(4, MAGIC), Cell(2, 1), Cell(2, 0), Cell(2, 28), Cell(2, 12), Cell(4, 512), Cell(4, 1), Cell(4, 1), Cell(4, 0),
     Cell(2, RAW), Cell(2, 0), Cell(4, 1), Cell(4, 524)]
  }

  lemma {:induction false} OneBlockOffsets()
    ensures var cs := OneBlockCells();
            && Offset(cs, 0) == 0 && Offset(cs, 1) == 4 && Offset(cs, 3) == 8 && Offset(cs, 4) == 10
            && Offset(cs, 5) == 12
            && Offset(cs, 6) == 16 && Offset(cs, 7) == 20 && Offset(cs, 9) == 28 && Offset(cs, 11) == 32
            && Offset(cs, 12) == 36
            && |Encode(cs)| == 40
  {
    var cs := OneBlockCells();
    EncodeLength(cs);
    assert Offset(cs, 1) == 4;
    assert Offset(cs, 2) == 6;
    assert Offset(cs, 3) == 8;
    assert Offset(cs, 4) == 10;
    assert Offset(cs, 5) == 12;
    assert Offset(cs, 6) == 16;
    assert Offset(cs, 7) == 20;
    assert Offset(cs, 8) == 24;
    assert Offset(cs, 9) == 28;
    assert Offset(cs, 10) == 30;
    assert Offset(cs, 11) == 32;
    assert Offset(cs, 12) == 36;
  }

  /** A field of two or four bytes reads back. */
  lemma {:induction false} CellValue(cs: seq<Cell>, k: nat)
    requires k < |cs| && ((cs[k].width == 2 && cs[k].value < 0x1_0000) ||
            (cs[k].width == 4 && cs[k].value < 0x1_0000_0000))
    ensures Offset(cs, k) + cs[k].width <= |Encode(cs)|
    ensures FromLE(Encode(cs)[Offset(cs, k)..Offset(cs, k) + cs[k].width]) == cs[k].value
  {
    hide Encode, Offset, LE, FromLE;
    EncodeRead(cs, k);
    FieldRoundTrip(cs[k].value, cs[k].width);
    PowValues();
    assert Pow256(2) == 0x1_0000 by { assert Pow256(1) == 256; }
  }

  lemma {:induction false} OneBlockHeader()
    ensures ReadHeader(Encode(OneBlockCells())) == Some((Header(12, 512, 1, 1), 28))
  {
    hide Encode, FromLE, Offset, LE;
    var cs := OneBlockCells();
    OneBlockOffsets();
    CellValue(cs, 0);
    CellValue(cs, 1);
    CellValue(cs, 3);
    CellValue(cs, 4);
    CellValue(cs, 5);
    CellValue(cs, 6);
    CellValue(cs, 7);
  }

  lemma {:induction false} OneBlockChunk()
    ensures ReadChunk(Encode(OneBlockCells()), Header(12, 512, 1, 1), 28) == Some((Raw(1, 512, []), 40))
  {
    hide Encode, FromLE, Offset, LE;
    var cs := OneBlockCells();
    var file := Encode(cs);
    OneBlockOffsets();
    CellValue(cs, 9);
    CellValue(cs, 11);
    CellValue(cs, 12);
    SliceOfSlice(file, 28, 40, 0, 2);
    SliceOfSlice(file, 28, 40, 4, 8);
    SliceOfSlice(file, 28, 40, 8, 12);
    assert ReadAt(file, 40, 512) == [];
  }

  /** genfile accepts an image that is cut off right after the header of its only chunk, though the data of the chunk is
      missing. */
  lemma {:induction false} TruncatedAccepted()
    ensures Parse(Encode(OneBlockCells())) == Some([Raw(1, 512, [])]) && !Complete([Raw(1, 512, [])])
  {
    hide Encode, ReadHeader, ReadChunk, OneBlockCells;
    var file, h, c := Encode(OneBlockCells()), Header(12, 512, 1, 1), Raw(1, 512, []);
    OneBlockHeader();
    OneBlockChunk();
    assert ReadChunks(file, h, 40, 0) == Some([]);
    assert [c] + [] == [c] && [] + [c] == [c];
    BlocksSnoc([], c);
    assert !Whole([c][0]);
  }
}
