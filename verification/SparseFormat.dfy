/** The sparse format written out, and read back: what genfile takes for an image is what the format says. */
module SparseFormat {
  import opened Options
  import opened Arith
  import opened Bytes
  import opened Sparse

  const TWO32 := 0x1_0000_0000
  const TWO16 := 0x1_0000

  /** Sizes of the file header, the chunk headers and a block. */
  datatype Format = Format(fileHeader: nat, chunkHeader: nat, blockSize: nat)

  ghost predicate Usable(f: Format) {
    28 <= f.fileHeader < TWO16 && 12 <= f.chunkHeader < TWO16 && f.blockSize < TWO32
  }

  /** A chunk of whole sectors whose numbers fit their fields, and whose data is all there. */
  ghost predicate Fits(f: Format, c: Chunk) {
    && c.len == c.blocks * f.blockSize && c.len % 512 == 0 && c.blocks < TWO32 && f.chunkHeader + c.len < TWO32
    && (c.Raw? ==> |c.data| == c.len)
  }

  /** Type, two reserved bytes, blocks, size of the chunk with its header, the rest of the header, the data. */
  function WriteChunk(f: Format, c: Chunk): seq<byte>
    requires f.chunkHeader >= 12
  {
    match c
    case Raw(blocks, len, data) =>
      [0xC1, 0xCA, 0, 0] + LE(blocks, 4) + LE(f.chunkHeader + len, 4) + ZeroBytes(f.chunkHeader - 12) + data
    case Skip(blocks, len) =>
      [0xC3, 0xCA, 0, 0] + LE(blocks, 4) + LE(f.chunkHeader, 4) + ZeroBytes(f.chunkHeader - 12)
  }

  function WriteChunks(f: Format, cs: seq<Chunk>): seq<byte>
    requires f.chunkHeader >= 12
  {
    if cs == [] then [] else WriteChunk(f, cs[0]) + WriteChunks(f, cs[1..])
  }

  /** Magic, version 1.0, header sizes, block size, blocks, chunks, checksum, the rest of the header. */
  function WriteHeader(f: Format, blocks: nat, chunks: nat): seq<byte>
    requires f.fileHeader >= 28
  {
    [0x3A, 0xFF, 0x26, 0xED, 1, 0, 0, 0] + LE(f.fileHeader, 2) + LE(f.chunkHeader, 2) + LE(f.blockSize, 4)
    + LE(blocks, 4) + LE(chunks, 4) + [0, 0, 0, 0] + ZeroBytes(f.fileHeader - 28)
  }

  function WriteImage(f: Format, cs: seq<Chunk>): seq<byte>
    requires Usable(f)
  {
    WriteHeader(f, Blocks(cs), |cs|) + WriteChunks(f, cs)
  }

  // ----- reading back -----

  lemma {:induction false} Field4(v: nat)
    requires v < TWO32
    ensures FromLE(LE(v, 4)) == v
  {
    hide LE, FromLE, Pow256;
    PowValues();
    FieldRoundTrip(v, 4);
  }

  lemma {:induction false} Field2(v: nat)
    requires v < TWO16
    ensures FromLE(LE(v, 2)) == v
  {
    hide LE, FromLE;
    assert Pow256(2) == TWO16 by { assert Pow256(1) == 256; }
    FieldRoundTrip(v, 2);
  }

  lemma {:induction false} TwoByteValue(a: byte, b: byte)
    ensures FromLE([a, b]) == a + 256 * b
  {
    assert [a, b][1..] == [b] && [b][1..] == [];
    assert FromLE([b]) == b + 256 * FromLE([]);
  }

  lemma {:induction false} FourByteValue(a: byte, b: byte, c: byte, d: byte)
    ensures FromLE([a, b, c, d]) == a + 256 * (b + 256 * (c + 256 * d))
  {
    hide FromLE;
    TwoByteValue(c, d);
    FromLECons(a, [b, c, d]);
    FromLECons(b, [c, d]);
    assert [a] + [b, c, d] == [a, b, c, d] && [b] + [c, d] == [b, c, d];
  }

  lemma {:induction false} FromLECons(a: byte, s: seq<byte>)
    ensures FromLE([a] + s) == a + 256 * FromLE(s)
  {
    assert ([a] + s)[1..] == s;
  }

  /** The fields of a chunk header. */
  lemma {:induction false} HeadFields(kind: seq<byte>, blocks: nat, total: nat)
    requires |kind| == 4 && blocks < TWO32 && total < TWO32
    ensures var head := kind + LE(blocks, 4) + LE(total, 4);
            && head[0..2] == kind[0..2] && FromLE(head[4..8]) == blocks && FromLE(head[8..12]) == total
  {
    hide LE, FromLE;
    var head := kind + LE(blocks, 4) + LE(total, 4);
    Field4(blocks);
    Field4(total);
    assert head[4..8] == LE(blocks, 4) && head[8..12] == LE(total, 4);
  }

  /** The first twelve bytes of a chunk. */
  function ChunkHead(f: Format, c: Chunk): seq<byte> {
    [if c.Raw? then 0xC1 else 0xC3, 0xCA, 0, 0] + LE(c.blocks, 4)
    + LE(if c.Raw? then f.chunkHeader + c.len else f.chunkHeader, 4)
  }

  lemma {:induction false} HeadRead(file: seq<byte>, f: Format, pos: nat, c: Chunk)
    requires Usable(f)
    requires var e := WriteChunk(f, c); pos + |e| <= |file| && file[pos..pos + |e|] == e
    ensures |WriteChunk(f, c)| == f.chunkHeader + if c.Raw? then |c.data| else 0
    ensures ReadAt(file, pos, 12) == ChunkHead(f, c)
    ensures c.Raw? ==> ReadAt(file, pos + f.chunkHeader, |c.data|) == c.data
  {
    hide LE;
    var e := WriteChunk(f, c);
    assert e[0..12] == ChunkHead(f, c);
    SliceOfSlice(file, pos, pos + |e|, 0, 12);
    if c.Raw? {
      assert e[f.chunkHeader..] == c.data;
      SliceOfSlice(file, pos, pos + |e|, f.chunkHeader, |e|);
    }
  }

  lemma {:induction false} HeadMeans(f: Format, c: Chunk)
    requires Fits(f, c)
    ensures var head := ChunkHead(f, c);
            && |head| == 12 && FromLE(head[0..2]) == (if c.Raw? then 0xCAC1 else 0xCAC3)
            && FromLE(head[4..8]) == c.blocks
            && FromLE(head[8..12]) == f.chunkHeader + if c.Raw? then c.len else 0
  {
    hide LE, FromLE;
    var kind: seq<byte> := [if c.Raw? then 0xC1 else 0xC3, 0xCA, 0, 0];
    HeadFields(kind, c.blocks, if c.Raw? then f.chunkHeader + c.len else f.chunkHeader);
    TwoByteValue(kind[0], kind[1]);
    assert kind[0..2] == [kind[0], kind[1]];
  }

  /** A chunk found in a file is read as it was written. */
  lemma {:induction false} ChunkReadBack(file: seq<byte>, f: Format, h: Header, pos: nat, c: Chunk)
    requires Usable(f) && Fits(f, c) && h.chunkHeader == f.chunkHeader && h.blockSize == f.blockSize
    requires var e := WriteChunk(f, c); pos + |e| <= |file| && file[pos..pos + |e|] == e
    ensures ReadChunk(file, h, pos) == Some((c, pos + |WriteChunk(f, c)|))
  {
    HeadRead(file, f, pos, c);
    HeadMeans(f, c);
    hide LE, FromLE, ReadAt, ChunkHead, WriteChunk;
  }

  lemma {:induction false} ChunksReadBack(file: seq<byte>, f: Format, h: Header, pos: nat, cs: seq<Chunk>)
    requires Usable(f) && h.chunkHeader == f.chunkHeader && h.blockSize == f.blockSize
    requires forall i :: 0 <= i < |cs| ==> Fits(f, cs[i])
    requires pos <= |file| && file[pos..] == WriteChunks(f, cs)
    ensures ReadChunks(file, h, pos, |cs|) == Some(cs)
    decreases |cs|
  {
    hide ReadChunk, WriteChunk;
    if cs != [] {
      var e, rest := WriteChunk(f, cs[0]), WriteChunks(f, cs[1..]);
      assert file[pos..] == e + rest;
      assert file[pos..pos + |e|] == e && file[pos + |e|..] == rest;
      ChunkReadBack(file, f, h, pos, cs[0]);
      ChunksReadBack(file, f, h, pos + |e|, cs[1..]);
      assert [cs[0]] + cs[1..] == cs;
    }
  }

  lemma {:induction false} HeaderReadBack(f: Format, blocks: nat, chunks: nat, body: seq<byte>)
    requires Usable(f) && blocks < TWO32 && chunks < TWO32
    ensures ReadHeader(WriteHeader(f, blocks, chunks) + body)
         == Some((Header(f.chunkHeader, f.blockSize, blocks, chunks), f.fileHeader))
  {
    hide LE, FromLE;
    var s := WriteHeader(f, blocks, chunks) + body;
    FourByteValue(0x3A, 0xFF, 0x26, 0xED);
    TwoByteValue(1, 0);
    Field2(f.fileHeader);
    Field2(f.chunkHeader);
    Field4(f.blockSize);
    Field4(blocks);
    Field4(chunks);
    assert s[0..4] == [0x3A, 0xFF, 0x26, 0xED] && s[4..6] == [1, 0];
    assert s[8..10] == LE(f.fileHeader, 2) && s[10..12] == LE(f.chunkHeader, 2) && s[12..16] == LE(f.blockSize, 4);
    assert s[16..20] == LE(blocks, 4) && s[20..24] == LE(chunks, 4);
  }

  /** Every image written in the format is accepted, and read as exactly its chunks. */
  lemma {:induction false} ImageReadBack(f: Format, cs: seq<Chunk>)
    requires Usable(f) && Blocks(cs) < TWO32 && |cs| < TWO32 && forall i :: 0 <= i < |cs| ==> Fits(f, cs[i])
    ensures Parse(WriteImage(f, cs)) == Some(cs) && Complete(cs)
  {
    hide ReadHeader, WriteHeader, ReadChunks, WriteChunks;
    var file, h := WriteImage(f, cs), Header(f.chunkHeader, f.blockSize, Blocks(cs), |cs|);
    HeaderReadBack(f, Blocks(cs), |cs|, WriteChunks(f, cs));
    HeaderLength(f, Blocks(cs), |cs|);
    assert file[f.fileHeader..] == WriteChunks(f, cs);
    ChunksReadBack(file, f, h, f.fileHeader, cs);
  }

  lemma {:induction false} HeaderLength(f: Format, blocks: nat, chunks: nat)
    requires Usable(f)
    ensures |WriteHeader(f, blocks, chunks)| == f.fileHeader
  {
    hide LE;
  }

  // ----- what is accepted -----

  /** Where the chunk after the header at `pos` begins, or its data. */
  function AfterHead(pos: nat, chunkHeader: nat): nat {
    if chunkHeader > 12 then pos + chunkHeader else pos + 12
  }

  /** The bytes at `pos` are those of chunk `c`: its type, its blocks, its size with the header, whole sectors; and, for
      a raw chunk, as much of its data as the file has. */
  ghost predicate ChunkAt(file: seq<byte>, chunkHeader: nat, blockSize: nat, pos: nat, c: Chunk) {
    && pos + 12 <= |file|
    && file[pos] == (if c.Raw? then 0xC1 else 0xC3) && file[pos + 1] == 0xCA
    && c.blocks == FromLE(file[pos + 4..pos + 8])
    && c.len == c.blocks * blockSize && c.len % 512 == 0
    && FromLE(file[pos + 8..pos + 12]) == chunkHeader + (if c.Raw? then c.len else 0)
    && (c.Raw? ==> DataAt(file, AfterHead(pos, chunkHeader), c))
  }

  ghost predicate DataAt(file: seq<byte>, at: nat, c: Chunk)
    requires c.Raw?
  {
    && |c.data| == (if at + c.len <= |file| then c.len else if at <= |file| then |file| - at else 0)
    && forall i :: 0 <= i < |c.data| ==> c.data[i] == file[at + i]
  }

  /** The chunks lie one after the other from `pos`; after a don't-care chunk no data is skipped. */
  ghost predicate ChunksAt(file: seq<byte>, chunkHeader: nat, blockSize: nat, pos: nat, cs: seq<Chunk>)
    decreases |cs|
  {
    cs != [] ==>
      && ChunkAt(file, chunkHeader, blockSize, pos, cs[0])
      && ChunksAt(file, chunkHeader, blockSize,
                  AfterHead(pos, chunkHeader) + if cs[0].Raw? then |cs[0].data| else 0, cs[1..])
  }

  lemma {:induction false} ChunkAccepted(file: seq<byte>, h: Header, pos: nat, c: Chunk)
    ensures var next := AfterHead(pos, h.chunkHeader) + if c.Raw? then |c.data| else 0;
            ReadChunk(file, h, pos) == Some((c, next)) <==> ChunkAt(file, h.chunkHeader, h.blockSize, pos, c)
  {
    hide FromLE, ReadAt, DataAt;
    HeadBytes(file, pos);
    if pos + 12 <= |file| {
      TwoByteValue(file[pos], file[pos + 1]);
      if c.Raw? {
        DataRead(file, AfterHead(pos, h.chunkHeader), c);
      }
    }
  }

  lemma {:induction false} HeadBytes(file: seq<byte>, pos: nat)
    ensures var head := ReadAt(file, pos, 12);
            if pos + 12 > |file| then |head| < 12
            else
              && |head| == 12 && head[0..2] == [file[pos], file[pos + 1]]
              && head[4..8] == file[pos + 4..pos + 8] && head[8..12] == file[pos + 8..pos + 12]
  {
    if pos + 12 <= |file| {
      assert ReadAt(file, pos, 12) == file[pos..pos + 12];
      SliceOfSlice(file, pos, pos + 12, 4, 8);
      SliceOfSlice(file, pos, pos + 12, 8, 12);
    }
  }

  lemma {:induction false} DataRead(file: seq<byte>, at: nat, c: Chunk)
    requires c.Raw?
    ensures c.data == ReadAt(file, at, c.len) <==> DataAt(file, at, c)
  {
    var data := ReadAt(file, at, c.len);
    if DataAt(file, at, c) {
      assert |c.data| == |data|;
    }
  }

  lemma {:induction false} ChunkSomewhere(file: seq<byte>, h: Header, pos: nat)
    requires ReadChunk(file, h, pos).Some?
    ensures var (c, next) := ReadChunk(file, h, pos).value;
            next == AfterHead(pos, h.chunkHeader) + if c.Raw? then |c.data| else 0
  {
  }

  lemma {:induction false} ChunksAccepted(file: seq<byte>, h: Header, pos: nat, n: nat, cs: seq<Chunk>)
    ensures ReadChunks(file, h, pos, n) == Some(cs) <==>
            |cs| == n && ChunksAt(file, h.chunkHeader, h.blockSize, pos, cs)
    decreases n
  {
    hide ReadChunk, ChunkAt;
    if n > 0 {
      var r := ReadChunk(file, h, pos);
      if r.Some? {
        ChunkSomewhere(file, h, pos);
        if |cs| == n {
          ChunkAccepted(file, h, pos, cs[0]);
          ChunksAccepted(file, h, r.value.1, n - 1, cs[1..]);
          assert cs == [cs[0]] + cs[1..];
        }
        LengthRead(file, h, r.value.1, n - 1);
      } else if |cs| == n {
        ChunkAccepted(file, h, pos, cs[0]);
      }
    }
  }

  lemma {:induction false} LengthRead(file: seq<byte>, h: Header, pos: nat, n: nat)
    ensures ReadChunks(file, h, pos, n).Some? ==> |ReadChunks(file, h, pos, n).value| == n
    decreases n
  {
    hide ReadChunk;
    if n > 0 && ReadChunk(file, h, pos).Some? {
      LengthRead(file, h, ReadChunk(file, h, pos).value.1, n - 1);
    }
  }

  /** genfile accepts a file, with chunks `cs`, if and only if it has 28 bytes, magic and major version are right, the
      chunks lie after the header, and they are as many, with as many blocks, as the header says. */
  lemma {:induction false} AcceptedExactly(file: seq<byte>, cs: seq<Chunk>)
    ensures Parse(file) == Some(cs) <==>
            && |file| >= 28 && file[0..4] == [0x3A, 0xFF, 0x26, 0xED] && file[4..6] == [1, 0]
            && |cs| == FromLE(file[20..24]) && Blocks(cs) == FromLE(file[16..20])
            && ChunksAt(file, FromLE(file[10..12]), FromLE(file[12..16]), FirstChunk(FromLE(file[8..10])), cs)
  {
    hide FromLE, ReadChunks, ChunksAt, Blocks;
    if |file| >= 28 {
      MagicExactly(file[0..4]);
      VersionExactly(file[4..6]);
      var h := Header(FromLE(file[10..12]), FromLE(file[12..16]), FromLE(file[16..20]), FromLE(file[20..24]));
      ChunksAccepted(file, h, FirstChunk(FromLE(file[8..10])), h.totalChunks, cs);
    }
  }

  function FirstChunk(size: nat): nat {
    if size > 28 then size else 28
  }

  lemma {:induction false} MagicExactly(s: seq<byte>)
    requires |s| == 4
    ensures FromLE(s) == 0xED26FF3A <==> s == [0x3A, 0xFF, 0x26, 0xED]
  {
    assert s == [s[0], s[1], s[2], s[3]];
    FourByteValue(s[0], s[1], s[2], s[3]);
  }

  lemma {:induction false} VersionExactly(s: seq<byte>)
    requires |s| == 2
    ensures FromLE(s) == 1 <==> s == [1, 0]
  {
    assert s == [s[0], s[1]];
    TwoByteValue(s[0], s[1]);
  }
}
