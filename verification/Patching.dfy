/** The patch list of ptool.py and the msp.py routine that carries it out on a disk. */
module Patching {
  import opened Options
  import opened Bytes
  import opened Crc

  /** A number in a patch file: plain, or `NUM_DISK_SECTORS-n`. */
  datatype Field = Lit(n: nat) | DiskMinus(n: nat)

  datatype Value = Number(field: Field) | Checksum(start: Field, len: nat)

  datatype Patch = Patch(sector: Field, offset: nat, size: nat, value: Value)

  /** msp.py HandleNUM_DISK_SECTORS, with the disk size known. */
  function Resolve(f: Field, sectors: nat): int {
    match f
    case Lit(n) => n
    case DiskMinus(n) => sectors - n
  }

  // ----- what a patch means -----

  function SectorsOf(len: nat): (n: nat)
    ensures n >= 1 && len <= n * SECTOR && (n == 1 || (n - 1) * SECTOR < len)
  {
    if len / SECTOR == 0 || len % SECTOR > 0 then len / SECTOR + 1 else len / SECTOR
  }

  /** The bytes a checksum is taken over, if msp can read them: above sector 64 it reads them as the
      tail of a 64-sector window, below it reads exactly them. */
  function ChecksumBytes(disk: seq<byte>, start: int, len: nat): Option<seq<byte>> {
    if start < 0 then None
    else if start > 64 then
      if SectorsOf(len) <= 64 && (start + SectorsOf(len)) * SECTOR <= |disk|
      then Some(disk[start * SECTOR..start * SECTOR + len]) else None
    else if len == 0 then Some([])
    else if start * SECTOR + len <= |disk| then Some(disk[start * SECTOR..start * SECTOR + len]) else None
  }

  function PatchChecksum(disk: seq<byte>, start: int, len: nat): Option<nat> {
    var data := ChecksumBytes(disk, start, len);
    if data.None? then None else Some(Crc32(data.value))
  }

  function PatchValue(disk: seq<byte>, v: Value): Option<int> {
    match v
    case Number(f) => Some(Resolve(f, |disk| / SECTOR))
    case Checksum(start, len) => PatchChecksum(disk, Resolve(start, |disk| / SECTOR), len)
  }

  /** Little-endian overlay of `v` on one sector's worth of bytes. */
  function Overlay(s: seq<byte>, at: nat, v: nat, size: nat): (r: seq<byte>)
    requires size == 0 || at + size <= |s|
    ensures |r| == |s|
  {
    if size == 0 then s else Splice(s, at, LE(v, size))
  }

  /** Where the file stands when msp turns to the sector of a patch. */
  function FilePosition(disk: seq<byte>, v: Value): nat {
    match v
    case Number(_) => 0
    case Checksum(start, len) => AfterChecksum(Resolve(start, |disk| / SECTOR), len)
  }

  function AfterChecksum(start: int, len: nat): nat {
    if start < 0 then 0
    else if start > 64 then (start + SectorsOf(len)) * SECTOR else start * SECTOR + len
  }

  /** Rewriting sector `s`. msp moves to the sector before reading it only if `s` is not 0;
      otherwise it modifies the bytes found at `from` and writes them to sector 0. */
  function Rewrite(disk: seq<byte>, from: nat, s: int, offset: nat, v: int, size: nat): Option<seq<byte>> {
    if v < 0 || s < 0 || !(size == 0 || offset + size <= SECTOR) then None
    else if s == 0 then
      if from + SECTOR <= |disk|
          then Some(Splice(disk, 0, Overlay(disk[from..from + SECTOR], offset, v, size))) else None
    else if (s + 1) * SECTOR <= |disk| then Some(Overlay(disk, s * SECTOR + offset, v, size))
    else None
  }

  /** The disk after a patch; None when msp gives up. */
  function Apply(disk: seq<byte>, p: Patch): Option<seq<byte>> {
    var v := PatchValue(disk, p.value);
    if v.None? then None
    else Rewrite(disk, FilePosition(disk, p.value), Resolve(p.sector, |disk| / SECTOR), p.offset, v.value, p.size)
  }

  function Run(disk: seq<byte>, ps: seq<Patch>): Option<seq<byte>> {
    if ps == [] then Some(disk)
    else
      var d := Run(disk, ps[..|ps| - 1]);
      if d.None? then None else Apply(d.value, ps[|ps| - 1])
  }

  // ----- how msp carries it out -----

  /** The opened disk: its bytes and the file position. */
  class DiskFile {
    var bytes: seq<byte>
    var pos: nat

    constructor (bytes: seq<byte>)
      ensures this.bytes == bytes && pos == 0
    {
      this.bytes := bytes;
      pos := 0;
    }

    method Seek(to: nat)
      modifies `pos
      ensures pos == to
    {
      pos := to;
    }

    method Read(n: nat) returns (r: seq<byte>)
      modifies `pos
      ensures r == ReadAt(bytes, old(pos), n)
      ensures pos == old(pos) + |r|
    {
      r := ReadAt(bytes, pos, n);
      pos := pos + |r|;
    }

    method Write(data: seq<byte>)
      requires pos + |data| <= |bytes|
      modifies this
      ensures bytes == Splice(old(bytes), old(pos), data)
      ensures pos == old(pos) + |data|
    {
      bytes := Splice(bytes, pos, data);
      pos := pos + |data|;
    }

    /** The CRC32 branch of PerformPatching. */
    method ReadChecksum(start: int, len: nat) returns (v: Option<int>)
      modifies `pos
      ensures v == PatchChecksum(bytes, start, len)
      ensures v.Some? ==> pos == AfterChecksum(start, len)
    {
      hide Crc32;
      if start < 0 {
        return None;
      }
      var numSectors := len / SECTOR;
      if numSectors == 0 || len % SECTOR > 0 {
        numSectors := numSectors + 1;
      }
      if start > 64 {
        Seek((start - (64 - numSectors)) * SECTOR);
        var data := Read(64 * SECTOR);
        if |data| != 64 * SECTOR || numSectors > 64 {
          return None;
        }
        var tail := data[(64 - numSectors) * SECTOR..];
        var crc := CalcCRC32(tail, len);
        assert tail[..len] == bytes[start * SECTOR..start * SECTOR + len];
        v := Some(crc);
      } else {
        Seek(start * SECTOR);
        var data := Read(len);
        if |data| != len {
          return None;
        }
        var crc := CalcCRC32(data, len);
        assert data[..len] == data;
        v := Some(crc);
      }
    }

    method FetchValue(v: Value) returns (r: Option<int>)
      requires pos == 0
      modifies `pos
      ensures r == PatchValue(bytes, v)
      ensures r.Some? ==> pos == FilePosition(bytes, v)
    {
      match v {
        case Number(f) =>
          r := Some(Resolve(f, |bytes| / SECTOR));
        case Checksum(start, len) =>
          r := ReadChecksum(Resolve(start, |bytes| / SECTOR), len);
      }
    }

    /** Read a window that ends with sector `s`, change the patched bytes, write it back. */
    method RewriteSector(s: int, offset: nat, value: int, size: nat) returns (ok: bool)
      modifies this
      ensures var r := Rewrite(old(bytes), old(pos), s, offset, value, size);
              ok == r.Some? && bytes == if ok then r.value else old(bytes)
    {
      hide Splice, LE, Overlay;
      var wide := s > 64;
      var start := if wide then (s - 63) * SECTOR else s * SECTOR;
      var length := if wide then 64 * SECTOR else SECTOR;
      var at := (if wide then 63 * SECTOR else 0) + offset;
      if s > 0 {
        Seek(start);
      }
      var window := Read(length);
      if |window| != length || start < 0 || value < 0 {
        return false;
      }
      Seek(start);
      if size > 0 && at + size > |window| {
        return false;
      }
      window := PutBytes(window, at, value, size);
      if s > 0 {
        WindowWrite(bytes, start, length, at, value, size);
      }
      Write(window);
      ok := true;
    }

    /** One round of PerformPatching. */
    method PerformPatch(p: Patch) returns (ok: bool)
      modifies this
      ensures ok == Apply(old(bytes), p).Some?
      ensures bytes == if ok then Apply(old(bytes), p).value else old(bytes)
    {
      hide PatchValue, Rewrite;
      pos := 0;
      var v := FetchValue(p.value);
      if v.None? {
        return false;
      }
      ok := RewriteSector(Resolve(p.sector, |bytes| / SECTOR), p.offset, v.value, p.size);
    }

    /** PerformPatching over the whole list; it stops at the first patch that fails. */
    method PerformPatching(ps: seq<Patch>) returns (ok: bool)
      modifies this
      ensures ok == Run(old(bytes), ps).Some?
      ensures ok ==> bytes == Run(old(bytes), ps).value
    {
      hide Apply;
      for i := 0 to |ps|
        invariant Run(old(bytes), ps[..i]) == Some(bytes)
      {
        ok := PerformPatch(ps[i]);
        assert ps[..i + 1][..i] == ps[..i];
        if !ok {
          RunFailed(old(bytes), ps, i + 1);
          return;
        }
      }
      assert ps[..|ps|] == ps;
      ok := true;
    }
  }

  lemma {:induction false} RunFailed(disk: seq<byte>, ps: seq<Patch>, k: nat)
    requires k <= |ps| && Run(disk, ps[..k]).None?
    ensures Run(disk, ps).None?
    decreases |ps| - k
  {
    hide Apply;
    if k == |ps| {
      assert ps[..k] == ps;
    } else {
      assert ps[..k + 1][..k] == ps[..k];
      RunFailed(disk, ps, k + 1);
    }
  }

  /** The byte loop of PerformPatching. */
  method PutBytes(window: seq<byte>, at: nat, value: nat, size: nat) returns (r: seq<byte>)
    requires size == 0 || at + size <= |window|
    ensures r == Overlay(window, at, value, size)
  {
    r := window;
    if size == 0 {
      return;
    }
    hide Splice;
    var rest := value;
    for j := 0 to size
      invariant |r| == |window|
      invariant Splice(r, at + j, LE(rest, size - j)) == Overlay(window, at, value, size)
    {
      SpliceCons(r, at + j, rest % 256, LE(rest / 256, size - j - 1));
      r := r[at + j := rest % 256];
      rest := rest / 256;
    }
    SpliceEmpty(r, at + size);
  }

  /** Writing a changed window back is changing the disk in place. */
  lemma {:induction false} WindowWrite(disk: seq<byte>, base: nat, length: nat, at: nat, v: nat, size: nat)
    requires base + length <= |disk| && (size == 0 || at + size <= length)
    ensures Splice(disk, base, Overlay(disk[base..base + length], at, v, size)) == Overlay(disk, base + at, v, size)
  {
    hide Splice, LE;
    if size > 0 {
      SpliceInside(disk, base + at, LE(v, size), base, base + length);
      SpliceAt(disk, base + at, LE(v, size));
      var d := Overlay(disk, base + at, v, size);
      assert d[base..base + length] == Overlay(disk[base..base + length], at, v, size);
      SpliceSelf(disk, d, base, base + length);
    } else {
      SpliceSelf(disk, disk, base, base + length);
    }
  }

  lemma {:induction false} SpliceSelf(disk: seq<byte>, d: seq<byte>, lo: nat, hi: nat)
    requires |d| == |disk| && lo <= hi <= |disk|
    requires forall k :: 0 <= k < |disk| && !(lo <= k < hi) ==> d[k] == disk[k]
    ensures Splice(disk, lo, d[lo..hi]) == d
  {
  }

  // ----- when a patch touches only the bytes it names -----

  /** A patch is an in-place write, unless it puts a checksum into sector 0. */
  lemma {:induction false} PatchedInPlace(disk: seq<byte>, p: Patch)
    requires Apply(disk, p).Some?
    requires p.value.Number? || Resolve(p.sector, |disk| / SECTOR) != 0
    ensures var s := Resolve(p.sector, |disk| / SECTOR);
            && s >= 0 && PatchValue(disk, p.value).Some? && PatchValue(disk, p.value).value >= 0
            && (p.size == 0 || s * SECTOR + p.offset + p.size <= |disk|)
            && Apply(disk, p).value == Overlay(disk, s * SECTOR + p.offset, PatchValue(disk, p.value).value, p.size)
  {
    hide PatchValue, LE, Splice;
    if Resolve(p.sector, |disk| / SECTOR) == 0 {
      WindowWrite(disk, 0, SECTOR, p.offset, PatchValue(disk, p.value).value, p.size);
    }
  }

  /** A checksum put into sector 0 is an in-place write exactly when the sector found where reading for the checksum
      stopped agrees with sector 0 outside the patched bytes. */
  lemma {:induction false} SectorZeroExactly(disk: seq<byte>, p: Patch)
    requires Apply(disk, p).Some? && p.value.Checksum? && Resolve(p.sector, |disk| / SECTOR) == 0
    ensures var from := FilePosition(disk, p.value);
            && PatchValue(disk, p.value).Some? && PatchValue(disk, p.value).value >= 0
            && from + SECTOR <= |disk| && (p.size == 0 || p.offset + p.size <= SECTOR)
            && (Apply(disk, p).value == Overlay(disk, p.offset, PatchValue(disk, p.value).value, p.size)
                <==> forall k :: 0 <= k < SECTOR && !(p.offset <= k < p.offset + p.size) ==> disk[from + k] == disk[k])
  {
    hide PatchValue, LE, FilePosition;
    var from, v := FilePosition(disk, p.value), PatchValue(disk, p.value).value;
    SectorZeroOverlay(disk, from, p.offset, v, p.size);
  }

  lemma {:induction false} SectorZeroOverlay(disk: seq<byte>, from: nat, at: nat, v: nat, size: nat)
    requires from + SECTOR <= |disk| && (size == 0 || at + size <= SECTOR)
    ensures Splice(disk, 0, Overlay(disk[from..from + SECTOR], at, v, size)) == Overlay(disk, at, v, size)
        <==> forall k :: 0 <= k < SECTOR && !(at <= k < at + size) ==> disk[from + k] == disk[k]
  {
    hide LE;
    var s, t := disk[from..from + SECTOR], LE(v, size);
    var x, y := Splice(disk, 0, Overlay(s, at, v, size)), Overlay(disk, at, v, size);
    forall k | 0 <= k < |disk|
      ensures x[k] == y[k] <==> k >= SECTOR || at <= k < at + size || disk[from + k] == disk[k]
    {
    }
  }

  /** For instance a four-byte checksum of sector 0, stored in sector 0 of a disk of two sectors: sector 0 is replaced
      by sector 1, with the checksum laid over it. */
  lemma {:induction false} ChecksumIntoSectorZero(disk: seq<byte>)
    requires |disk| == 2 * SECTOR && disk[4] != disk[SECTOR + 4]
    ensures var p, crc := Patch(Lit(0), 0, 4, Checksum(Lit(0), SECTOR)), Crc32(disk[0..SECTOR]);
            && Apply(disk, p) == Some(LE(crc, 4) + disk[SECTOR + 4..] + disk[SECTOR..])
            && Apply(disk, p) != Some(Overlay(disk, 0, crc, 4))
  {
    hide Crc32, LE;
    var p, crc := Patch(Lit(0), 0, 4, Checksum(Lit(0), SECTOR)), Crc32(disk[0..SECTOR]);
    assert PatchValue(disk, p.value) == Some(crc);
    var found := disk[SECTOR..SECTOR + SECTOR];
    assert Overlay(found, 0, crc, 4) == LE(crc, 4) + disk[SECTOR + 4..];
    assert Splice(disk, 0, Overlay(found, 0, crc, 4)) == LE(crc, 4) + disk[SECTOR + 4..] + disk[SECTOR..];
    assert Apply(disk, p).value[4] == disk[SECTOR + 4] && Overlay(disk, 0, crc, 4)[4] == disk[4];
  }
}
