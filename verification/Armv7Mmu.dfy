/** mmu.py Armv7MMU: a snapshot of the two-level page tables of the short-descriptor format
    (ARM DDI 0406C section B3.5), and the TLB in front of it. */
module Armv7Mmu {
  import opened Arith
  import opened Options

  const MEG := 0x10_0000
  const LARGE := 0x1_0000
  const PAGE := 0x1000

  /** Reading a word of the dump; None if it is not in the dump. */
  type Memory = nat -> Option<nat>

  // ----- reference: walking the dump itself -----

  function L1(mem: Memory, ttbr: nat, index: nat): Option<nat> {
    mem(ttbr + 4 * index)
  }

  function L2(mem: Memory, l1: nat, index: nat): Option<nat> {
    mem(l1 / 1024 * 1024 + 4 * index)
  }

  /** Physical address for an l2 entry; a fault entry gives address 0. */
  function FromL2(l2: nat, virt: nat): nat {
    if l2 % 4 == 2 || l2 % 4 == 3 then l2 / PAGE % MEG * PAGE + virt % PAGE
    else if l2 % 4 == 1 then l2 / LARGE % LARGE * LARGE + virt % LARGE
    else 0
  }

  function DirectWalk(mem: Memory, ttbr: nat, virt: nat): Option<nat> {
    var l1 := L1(mem, ttbr, virt / MEG % 4096);
    if l1.None? then None
    else if l1.value % 4 == 1 then
      var l2 := L2(mem, l1.value, virt / PAGE % 256);
      if l2.None? then None else Some(FromL2(l2.value, virt))
    else if l1.value % 4 == 2 then Some(l1.value / MEG % 4096 * MEG + virt % MEG)
    else Some(0)
  }

  // ----- the walk by the words of the dump -----

  ghost predicate Words32(mem: Memory) {
    forall a :: mem(a).Some? ==> mem(a).value < 0x1_0000_0000
  }

  /** The address of page `p` of megabyte `m`, at offset `o`: sections of 1 MB, pages of 4 kB, and pages of 64 kB,
      whose number is in the upper half of the word. Every other descriptor gives address 0. */
  function Expected(mem: Memory, ttbr: nat, m: nat, p: nat, o: nat): Option<nat> {
    match mem(ttbr + 4 * m)
    case None => None
    case Some(l1) =>
      if l1 % 4 == 1 then
        match mem(l1 - l1 % 0x400 + 4 * p)
        case None => None
        case Some(l2) =>
          if l2 % 4 >= 2 then Some(l2 - l2 % 0x1000 + o)
          else if l2 % 4 == 1 then Some(l2 - l2 % 0x1_0000 + p % 16 * 0x1000 + o)
          else Some(0)
      else if l1 % 4 == 2 then Some(l1 - l1 % 0x10_0000 + p * 0x1000 + o)
      else Some(0)
  }

  lemma {:induction false} WalkIs(mem: Memory, ttbr: nat, m: nat, p: nat, o: nat)
    requires Words32(mem) && m < 4096 && p < 256 && o < 0x1000
    ensures DirectWalk(mem, ttbr, m * 0x10_0000 + p * 0x1000 + o) == Expected(mem, ttbr, m, p, o)
  {
    var va := m * 0x10_0000 + p * 0x1000 + o;
    AddressFields(m, p, o);
    var l1 := mem(ttbr + 4 * m);
    if l1.Some? {
      Upper(l1.value, MEG, 4096);
      Upper(l1.value, 1024, 0x40_0000);
      var l2 := mem(l1.value - l1.value % 1024 + 4 * p);
      if l2.Some? {
        LeafIs(l2.value, m, p, o);
      }
    }
  }

  lemma {:induction false} LeafIs(l2: nat, m: nat, p: nat, o: nat)
    requires l2 < 0x1_0000_0000 && m < 4096 && p < 256 && o < 0x1000
    ensures FromL2(l2, m * 0x10_0000 + p * 0x1000 + o)
         == if l2 % 4 >= 2 then l2 - l2 % 0x1000 + o
            else if l2 % 4 == 1 then l2 - l2 % 0x1_0000 + p % 16 * 0x1000 + o
            else 0
  {
    AddressFields(m, p, o);
    Upper(l2, PAGE, MEG);
    Upper(l2, LARGE, LARGE);
  }

  lemma {:induction false} AddressFields(m: nat, p: nat, o: nat)
    requires m < 4096 && p < 256 && o < 0x1000
    ensures var va := m * 0x10_0000 + p * 0x1000 + o;
            && va / 0x10_0000 % 4096 == m && va / 0x1000 % 256 == p
            && va % 0x1000 == o && va % 0x10_0000 == p * 0x1000 + o && va % 0x1_0000 == p % 16 * 0x1000 + o
  {
    var va := m * 0x10_0000 + p * 0x1000 + o;
    DivUnique(va, 0x10_0000, m, p * 0x1000 + o);
    DivUnique(va, 0x1000, m * 256 + p, o);
    DivUnique(m * 256 + p, 256, m, p);
    DivUnique(va, 0x1_0000, m * 16 + p / 16, p % 16 * 0x1000 + o);
  }

  /** The upper bits of a 32-bit word, in place. */
  lemma {:induction false} Upper(x: nat, unit: nat, count: nat)
    requires unit > 0 && count > 0 && x < unit * count
    ensures x / unit % count * unit == x - x % unit
  {
    var q := x / unit;
    assert x == q * unit + x % unit;
    if q >= count {
      Grows(count, q, unit);
      assert false;
    }
    DivUnique(q, count, 0, q);
  }

  lemma {:induction false} Grows(a: nat, b: nat, unit: nat)
    requires a <= b
    ensures unit * a <= b * unit
  {
    assert b * unit == unit * a + (b - a) * unit;
  }

  // ----- the snapshot -----

  datatype Snapshot = Snapshot(primary: seq<Option<nat>>, secondary: seq<seq<Option<nat>>>)

  /** The first `n` primary entries, and the secondary tables they point to, are copied from the dump. */
  ghost predicate Copied(t: Snapshot, mem: Memory, ttbr: nat, n: nat) {
    && |t.primary| == 4096 == |t.secondary| && n <= 4096
    && (forall g :: 0 <= g < 4096 ==> |t.secondary[g]| == 256)
    && (forall g :: 0 <= g < n ==> t.primary[g] == L1(mem, ttbr, g))
    && (forall g, k :: 0 <= g < n && t.primary[g].Some? && t.primary[g].value % 4 == 1 && 0 <= k < 256 ==>
          t.secondary[g][k] == L2(mem, t.primary[g].value, k))
  }

  /** mmu.py Armv7MMU.page_table_walk. */
  function PageTableWalk(t: Snapshot, virt: nat): Option<nat>
    requires |t.primary| == 4096 == |t.secondary| && forall g :: 0 <= g < 4096 ==> |t.secondary[g]| == 256
  {
    var g := virt / MEG % 4096;
    var l1 := t.primary[g];
    if l1.None? then None
    else if l1.value % 4 == 1 then
      var l2 := t.secondary[g][virt / PAGE % 256];
      if l2.None? then None
      else if l2.value % 4 == 2 || l2.value % 4 == 3 then Some(l2.value / PAGE % MEG * PAGE + virt % PAGE)
      else if l2.value % 4 == 1 then Some(l2.value / LARGE % LARGE * LARGE + virt % LARGE)
      else Some(0)
    else if l1.value % 4 == 2 then Some(l1.value / MEG % 4096 * MEG + virt % MEG)
    else Some(0)
  }

  /** Walking the snapshot is walking the dump. */
  lemma {:induction false} SnapshotWalk(t: Snapshot, mem: Memory, ttbr: nat, virt: nat)
    requires Copied(t, mem, ttbr, 4096)
    ensures PageTableWalk(t, virt) == DirectWalk(mem, ttbr, virt)
  {
    var g, k := virt / MEG % 4096, virt / PAGE % 256;
    assert t.primary[g] == L1(mem, ttbr, g);
    assert t.primary[g].Some? && t.primary[g].value % 4 == 1 ==> t.secondary[g][k] == L2(mem, t.primary[g].value, k);
  }

  /** mmu.py Armv7MMU.load_page_tables. */
  method LoadPageTables(mem: Memory, ttbr: nat) returns (t: Snapshot)
    ensures Copied(t, mem, ttbr, 4096)
  {
    var primary: seq<Option<nat>> := seq(4096, _ => Some(0));
    var secondary: seq<seq<Option<nat>>> := seq(4096, _ => seq(256, _ => Some(0)));
    var gb := 0;
    while gb < 4096
      invariant gb <= 4096 && Copied(Snapshot(primary, secondary), mem, ttbr, gb)
    {
      var l1 := mem(ttbr + 4 * gb);
      primary := primary[gb := l1];
      if l1.Some? && l1.value % 4 == 1 {
        var row := LoadSecondary(mem, l1.value);
        secondary := secondary[gb := row];
      }
      gb := gb + 1;
    }
    t := Snapshot(primary, secondary);
  }

  method LoadSecondary(mem: Memory, l1: nat) returns (row: seq<Option<nat>>)
    ensures |row| == 256 && forall k :: 0 <= k < 256 ==> row[k] == L2(mem, l1, k)
  {
    row := seq(256, _ => Some(0));
    for k := 0 to 256
      invariant |row| == 256 && forall j :: 0 <= j < k ==> row[j] == L2(mem, l1, j)
    {
      row := row[k := mem(l1 / 1024 * 1024 + 4 * k)];
    }
  }

  // ----- the TLB -----

  /** One call: the address, or None, and the two flags. */
  datatype Call = Call(addr: Option<nat>, skipTlb: bool, saveInTlb: bool)

  function Answer(mem: Memory, ttbr: nat, addr: Option<nat>): Option<nat> {
    if addr.None? then None else DirectWalk(mem, ttbr, addr.value)
  }

  class Mmu {
    const mem: Memory
    const ttbr: nat
    var tables: Snapshot
    var tlb: map<nat, Option<nat>>

    /** Snapshot and TLB refine the dump. */
    ghost predicate Valid()
      reads this
    {
      Copied(tables, mem, ttbr, 4096) && forall a :: a in tlb ==> tlb[a] == DirectWalk(mem, ttbr, a)
    }

    constructor (mem: Memory, ttbr: nat)
      ensures Valid() && this.mem == mem && this.ttbr == ttbr && tlb == map[]
    {
      var snapshot := LoadPageTables(mem, ttbr);
      this.mem := mem;
      this.ttbr := ttbr;
      tables := snapshot;
      tlb := map[];
    }

    /** mmu.py MMU.virt_to_phys. */
    method VirtToPhys(addr: Option<nat>, skipTlb: bool, saveInTlb: bool) returns (phys: Option<nat>)
      requires Valid()
      modifies `tlb
      ensures Valid() && phys == Answer(mem, ttbr, addr)
      ensures tlb == if addr.Some? && saveInTlb && (skipTlb || addr.value !in old(tlb))
                     then old(tlb)[addr.value := phys] else old(tlb)
    {
      if addr.None? {
        return None;
      }
      if !skipTlb {
        if addr.value in tlb {
          return tlb[addr.value];
        }
      }
      SnapshotWalk(tables, mem, ttbr, addr.value);
      phys := PageTableWalk(tables, addr.value);
      if saveInTlb {
        tlb := tlb[addr.value := phys];
      }
    }

    /** Any sequence of calls, with any flags, is answered from the dump. */
    method Lookups(calls: seq<Call>) returns (answers: seq<Option<nat>>)
      requires Valid()
      modifies `tlb
      ensures Valid() && |answers| == |calls|
      ensures forall i :: 0 <= i < |calls| ==> answers[i] == Answer(mem, ttbr, calls[i].addr)
    {
      answers := [];
      for i := 0 to |calls|
        invariant Valid() && |answers| == i
        invariant forall k :: 0 <= k < i ==> answers[k] == Answer(mem, ttbr, calls[k].addr)
      {
        var phys := VirtToPhys(calls[i].addr, calls[i].skipTlb, calls[i].saveInTlb);
        answers := answers + [phys];
      }
    }
  }
}
