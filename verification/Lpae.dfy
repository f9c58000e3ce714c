/** ARMv7 long-descriptor page tables (ARM DDI 0406C sections B3.6): the walk of mmu.py and the exhaustive enumeration
    of lpaeiommulib.py, for a 32-bit input address split with n = 5.

    Addresses and descriptors are natural numbers; a bit field is a quotient and a remainder by powers of two. */
module Lpae {
  import opened Options
  import opened Arith
  import opened Registers

  const GIG := 0x4000_0000
  const MEG2 := 0x20_0000
  const PAGE := 0x1000
  const TOP := 0x1_0000_0000

  /** The dump: `first` reads a doubleword of the first-level table, `next` one of the others; None if unreadable. */
  datatype Dump = Dump(first: nat -> Option<nat>, next: nat -> Option<nat>, pgtbl: nat)

  /** Mapping info: a block or page, or the next table. */
  datatype Info = Leaf(phys: nat, size: nat, attributes: (nat, nat)) | Table(address: nat)

  /** A flat mapping: virtual addresses from `start` up to `end`. */
  datatype Mapping = Mapping(start: nat, end: nat, info: Info)

  // ----- descriptors -----

  /** Bits 58:52 and 11:2, the attribute fields that are compared and printed. */
  function Attributes(d: nat): (nat, nat) {
    (d / 0x10_0000_0000_0000 % 128, d / 4 % 1024)
  }

  /** Bits 39:12. */
  function Upper(d: nat): nat {
    d / PAGE % 0x1000_0000
  }

  /** Is it a table descriptor? */
  predicate IsTable(d: Option<nat>) {
    d.Some? && d.value % 4 == 3
  }

  predicate IsBlock(d: Option<nat>) {
    d.Some? && d.value % 4 == 1
  }

  // ----- the walk -----

  /** mmu.py do_level_lookup, for n = 5: bits 39:5 of the table address, with the index assigned to the two-bit field
      (4, 3). A nine-bit index spills out of it. */
  function DescriptorAddress(table: nat, index: nat): nat {
    Assign(4, 3, Assign(39, 5, 0, Select(39, 5, table)), index)
  }

  /** Descriptor `index` of the first-level table. */
  function First(w: Dump, index: nat): Option<nat> {
    w.first(DescriptorAddress(w.pgtbl, index))
  }

  /** Descriptor `index` of a second- or third-level table. */
  function Lower(w: Dump, table: nat, index: nat): Option<nat> {
    w.next(DescriptorAddress(table, index))
  }

  /** The address is the table's plus eight times the index: in the first-level table because the index fits, in the
      others because the bits that spill out meet only zeros of a page-aligned table. */
  lemma {:induction false} DescriptorAt(table: nat, index: nat)
    ensures index < 4 ==> DescriptorAddress(table, index) == table / 32 % 0x8_0000_0000 * 32 + 8 * index
    ensures table % PAGE == 0 && table < 0x100_0000_0000 && index < 512 ==>
              DescriptorAddress(table, index) == table + 8 * index
  {
    hide Assign, Select;
    var base := Select(39, 5, table);
    SelectBase(table);
    AssignBase(base);
    if index < 4 {
      BaseMultiple(base);
      OffsetAssigned(base * 32, index, 5);
    }
    if table % PAGE == 0 && table < 0x100_0000_0000 && index < 512 {
      WholeBase(table);
      OffsetAssigned(table, index, 12);
    }
  }

  lemma {:induction false} OffsetAssigned(v: nat, index: nat, width: nat)
    requires (width == 5 && v % 32 == 0 && index < 4) || (width == 12 && v % PAGE == 0 && index < 512)
    ensures Assign(4, 3, v, index) == v + 8 * index
  {
    hide Assign, Pow2;
    PowValues();
    AssignSpills(4, 3, v, index, width);
  }

  lemma {:induction false} WholeBase(table: nat)
    requires table % PAGE == 0 && table < 0x100_0000_0000
    ensures table / 32 % 0x8_0000_0000 * 32 == table
  {
  }

  lemma {:induction false} SelectBase(table: nat)
    ensures Select(39, 5, table) == table / 32 % 0x8_0000_0000
  {
    hide Select, Pow2;
    PowValues();
    SelectValue(39, 5, table);
  }

  lemma {:induction false} AssignBase(base: nat)
    requires base < 0x8_0000_0000
    ensures Assign(39, 5, 0, base) == base * 32
  {
    hide Assign, Pow2;
    PowValues();
    AssignValue(39, 5, 0, base);
    assert Field(39, 5, 0) == 0;
  }

  lemma {:induction false} BaseMultiple(base: nat)
    ensures base * 32 % 32 == 0
  {
  }

  /** mmu.py translate_first_level. */
  function FirstLevel(w: Dump, virt: nat): Option<Info> {
    var d := First(w, virt / GIG % 4);
    if IsBlock(d) then Some(Leaf(d.value / GIG % 1024 * GIG + virt % GIG, GIG, Attributes(d.value)))
    else if IsTable(d) then Some(Table(Upper(d.value) * PAGE))
    else None
  }

  /** mmu.py translate_second_level. The block split in use is 12, so bits 39:12 of a block descriptor are
      placed above a 21-bit offset. */
  function SecondLevel(w: Dump, table: nat, virt: nat): Option<Info> {
    var d := Lower(w, table, virt / MEG2 % 512);
    if IsBlock(d) then Some(Leaf(Upper(d.value) * MEG2 + virt % MEG2, MEG2, Attributes(d.value)))
    else if IsTable(d) then Some(Table(Upper(d.value) * PAGE))
    else None
  }

  /** mmu.py translate_third_level. */
  function ThirdLevel(w: Dump, table: nat, virt: nat): (r: Option<Info>)
    ensures r.Some? ==> r.value.Leaf?
  {
    var d := Lower(w, table, virt / PAGE % 512);
    if IsTable(d) then Some(Leaf(Upper(d.value) * PAGE + virt % PAGE, PAGE, Attributes(d.value))) else None
  }

  /** mmu.py translate. */
  function Translate(w: Dump, virt: nat): (r: Option<Info>)
    ensures r.Some? ==> r.value.Leaf?
  {
    var a := FirstLevel(w, virt);
    if a.None? || a.value.Leaf? then a
    else
      var b := SecondLevel(w, a.value.address, virt);
      if b.None? || b.value.Leaf? then b else ThirdLevel(w, b.value.address, virt)
  }

  // ----- the enumeration -----

  /** The key and info recorded for the register value `virt`. */
  function Record(virt: nat, info: Info): Mapping
    requires info.Leaf?
  {
    Mapping(virt, virt + info.size, info)
  }

  /** Third-level entries 0 to n of a table reached with register value `base`. */
  function Pages(w: Dump, table: nat, base: nat, n: nat): seq<Mapping> {
    if n == 0 then []
    else
      var virt := base + (n - 1) * PAGE;
      var info := ThirdLevel(w, table, virt);
      Pages(w, table, base, n - 1) + if info.Some? then [Record(virt, info.value)] else []
  }

  /** tl_index as left behind by the second-level entries before `n`: it is not reset between them. */
  function Stale(w: Dump, table: nat, n: nat): nat {
    if n == 0 then 0 else if IsTable(Lower(w, table, n - 1)) then 511 else Stale(w, table, n - 1)
  }

  /** Second-level entries 0 to n. */
  function Sections(w: Dump, table: nat, base: nat, n: nat): seq<Mapping> {
    if n == 0 then [] else Sections(w, table, base, n - 1) + Section(w, table, base, n - 1)
  }

  /** Second-level entry `s`. */
  function Section(w: Dump, table: nat, base: nat, s: nat): seq<Mapping> {
    var virt := base + s * MEG2;
    var info := SecondLevel(w, table, virt + Stale(w, table, s) * PAGE);
    if info.None? then []
    else if info.value.Leaf? then [Record(virt + Stale(w, table, s) * PAGE, info.value)]
    else Pages(w, info.value.address, virt, 512)
  }

  /** First-level entries 0 to n. */
  function Flat(w: Dump, n: nat): seq<Mapping> {
    if n == 0 then [] else Flat(w, n - 1) + Gigabyte(w, n - 1)
  }

  function Gigabyte(w: Dump, f: nat): seq<Mapping> {
    var info := FirstLevel(w, f * GIG);
    if info.None? then []
    else if info.value.Leaf? then [Record(f * GIG, info.value)]
    else Sections(w, info.value.address, f * GIG, 512)
  }

  /** The register of get_flat_mappings, for n = 5. */
  const FIELDS: Layout := map["fl_index" := (31, 30), "sl_index" := (29, 21), "tl_index" := (20, 12),
      "page_index" := (11, 0)]

  lemma {:induction false} FieldBits()
    ensures "fl_index" in FIELDS && FIELDS["fl_index"] == (31, 30)
    ensures "sl_index" in FIELDS && FIELDS["sl_index"] == (29, 21)
    ensures "tl_index" in FIELDS && FIELDS["tl_index"] == (20, 12)
  {
  }

  /** The indices held in the register. */
  ghost predicate Holds(r: Register, f: nat, s: nat, t: nat)
    reads r
  {
    r.regs == FIELDS && r.value == Some(f * GIG + s * MEG2 + t * PAGE)
  }

  /** lpaeiommulib.py get_flat_mappings: one address register is shared by the three loops. */
  method GetFlatMappings(w: Dump) returns (ms: seq<Mapping>)
    ensures ms == Flat(w, 4)
  {
    hide FirstLevel, Sections, FIELDS, DescriptorAddress;
    ms := [];
    var virt := new Register(Some(0), FIELDS);
    for f := 0 to 4
      invariant virt.regs == FIELDS
      invariant ms == Flat(w, f)
    {
      SetFirst(virt, f);
      var info := FirstLevel(w, virt.value.value);
      if info.Some? && info.value.Leaf? {
        ms := ms + [Record(virt.value.value, info.value)];
      } else if info.Some? {
        var more := EnumerateSections(w, info.value.address, virt, f);
        ms := ms + more;
      }
    }
  }

  /** The second-level loop; the third-level index stays in the register. */
  method EnumerateSections(w: Dump, table: nat, virt: Register, ghost f: nat) returns (ms: seq<Mapping>)
    requires f < 4 && Holds(virt, f, 0, 0)
    modifies virt`value
    ensures ms == Sections(w, table, f * GIG, 512)
  {
    hide SecondLevel, Pages, FIELDS, DescriptorAddress;
    ms := [];
    ghost var last: nat, tl: nat := 0, 0;
    for s := 0 to 512
      invariant Holds(virt, f, last, tl) && last < 512
      invariant tl == Stale(w, table, s) && tl < 512
      invariant ms == Sections(w, table, f * GIG, s)
    {
      SetSecond(virt, f, last, tl, s);
      last := s;
      var info := SecondLevel(w, table, virt.value.value);
      SecondKind(w, table, f, s, tl);
      if info.Some? && info.value.Leaf? {
        ms := ms + [Record(virt.value.value, info.value)];
      } else if info.Some? {
        var more := EnumeratePages(w, info.value.address, virt, f, s, tl);
        tl := 511;
        ms := ms + more;
      }
    }
  }

  /** The third-level loop. It leaves its last index behind. */
  method EnumeratePages(w: Dump, table: nat, virt: Register, ghost f: nat, ghost s: nat,
                        ghost stale: nat) returns (ms: seq<Mapping>)
    requires f < 4 && s < 512 && stale < 512 && Holds(virt, f, s, stale)
    modifies virt`value
    ensures ms == Pages(w, table, f * GIG + s * MEG2, 512) && Holds(virt, f, s, 511)
  {
    hide ThirdLevel, FIELDS, DescriptorAddress;
    ms := [];
    ghost var tl := stale;
    for t := 0 to 512
      invariant Holds(virt, f, s, tl) && tl < 512
      invariant t > 0 ==> tl == t - 1
      invariant ms == Pages(w, table, f * GIG + s * MEG2, t)
    {
      SetThird(virt, f, s, tl, t);
      tl := t;
      var info := ThirdLevel(w, table, virt.value.value);
      if info.Some? {
        ms := ms + [Record(virt.value.value, info.value)];
      }
    }
  }

  method SetFirst(virt: Register, f: nat)
    requires f < 4 && virt.regs == FIELDS
    modifies virt`value
    ensures Holds(virt, f, 0, 0)
  {
    hide Assign, Pow2, Field, FIELDS, DescriptorAddress;
    FieldBits();
    virt.Zero();
    AssignFirst(f);
    var _ := virt.SetField("fl_index", f);
  }

  method SetSecond(virt: Register, ghost f: nat, ghost s: nat, ghost t: nat, x: nat)
    requires s < 512 && t < 512 && x < 512 && Holds(virt, f, s, t)
    modifies virt`value
    ensures Holds(virt, f, x, t)
  {
    hide Assign, Pow2, Field, FIELDS;
    FieldBits();
    AssignSecond(f, s, t, x);
    var _ := virt.SetField("sl_index", x);
  }

  method SetThird(virt: Register, ghost f: nat, ghost s: nat, ghost t: nat, x: nat)
    requires s < 512 && t < 512 && x < 512 && Holds(virt, f, s, t)
    modifies virt`value
    ensures Holds(virt, f, s, x)
  {
    hide Assign, Pow2, Field, FIELDS;
    FieldBits();
    AssignThird(f, s, t, x);
    var _ := virt.SetField("tl_index", x);
  }

  // ----- addresses and indices -----

  /** The fields of an address. */
  lemma {:induction false} Fields(f: nat, s: nat, t: nat, o: nat)
    requires s < 512 && t < 512 && o < PAGE
    ensures var va := f * GIG + s * MEG2 + t * PAGE + o;
            && va / GIG == f && va % GIG == s * MEG2 + t * PAGE + o
            && va / MEG2 % 512 == s && va % MEG2 == t * PAGE + o
            && va / PAGE % 512 == t && va % PAGE == o
  {
    var va := f * GIG + s * MEG2 + t * PAGE + o;
    DivUnique(va, GIG, f, s * MEG2 + t * PAGE + o);
    DivUnique(va, MEG2, f * 512 + s, t * PAGE + o);
    DivUnique(f * 512 + s, 512, f, s);
    DivUnique(va, PAGE, f * 0x4_0000 + s * 512 + t, o);
    DivUnique(f * 0x4_0000 + s * 512 + t, 512, f * 512 + s, t);
  }

  lemma {:induction false} PowValues()
    ensures Pow2(2) == 4 && Pow2(3) == 8 && Pow2(5) == 32 && Pow2(9) == 512 && Pow2(12) == PAGE &&
            Pow2(21) == MEG2 && Pow2(30) == GIG && Pow2(35) == 0x8_0000_0000
  {
    assert Pow2(4) == 16;
    assert Pow2(8) == 256;
    assert Pow2(12) == PAGE;
    assert Pow2(16) == 0x1_0000;
    assert Pow2(20) == 0x10_0000;
    assert Pow2(24) == 0x100_0000;
    assert Pow2(28) == 0x1000_0000;
    assert Pow2(32) == 0x1_0000_0000;
  }

  lemma {:induction false} AssignFirst(f: nat)
    requires f < 4
    ensures Assign(31, 30, 0, f) == f * GIG
  {
    hide Assign, Pow2, DescriptorAddress;
    PowValues();
    AssignValue(31, 30, 0, f);
    assert Field(31, 30, 0) == 0;
  }

  lemma {:induction false} AssignSecond(f: nat, s: nat, t: nat, x: nat)
    requires s < 512 && t < 512 && x < 512
    ensures Assign(29, 21, f * GIG + s * MEG2 + t * PAGE, x) == f * GIG + x * MEG2 + t * PAGE
  {
    hide Assign, Pow2;
    PowValues();
    AssignValue(29, 21, f * GIG + s * MEG2 + t * PAGE, x);
    Fields(f, s, t, 0);
  }

  lemma {:induction false} AssignThird(f: nat, s: nat, t: nat, x: nat)
    requires s < 512 && t < 512 && x < 512
    ensures Assign(20, 12, f * GIG + s * MEG2 + t * PAGE, x) == f * GIG + s * MEG2 + x * PAGE
  {
    hide Assign, Pow2;
    PowValues();
    AssignValue(20, 12, f * GIG + s * MEG2 + t * PAGE, x);
    Fields(f, s, t, 0);
  }

  lemma {:induction false} SecondKind(w: Dump, table: nat, f: nat, s: nat, tl: nat)
    requires s < 512 && tl < 512
    ensures var info := SecondLevel(w, table, f * GIG + s * MEG2 + tl * PAGE);
            info.Some? && info.value.Table? <==> IsTable(Lower(w, table, s))
  {
    hide DescriptorAddress;
    Fields(f, s, tl, 0);
  }

  lemma {:induction false} Decompose(base: nat, f: nat, s: nat, va: nat) returns (t: nat, o: nat)
    requires base == f * GIG + s * MEG2 && base <= va < base + MEG2
    ensures t < 512 && o < PAGE && va == f * GIG + s * MEG2 + t * PAGE + o
  {
    t, o := (va - base) / PAGE, (va - base) % PAGE;
  }

  // ----- agreement -----

  /** Mappings are leaves between `lo` and `hi`, ascending and disjoint. */
  ghost predicate Within(ms: seq<Mapping>, lo: nat, hi: nat) {
    && (forall k :: 0 <= k < |ms| ==> ms[k].info.Leaf? && lo <= ms[k].start < ms[k].end <= hi)
    && (forall i, j :: 0 <= i < j < |ms| ==> ms[i].end <= ms[j].start)
  }

  /** The mapping tells what the walk finds at `va`. */
  ghost predicate Explains(m: Mapping, leaf: Info, va: nat) {
    && m.info.Leaf? && leaf.Leaf?
    && m.start <= va < m.end
    && leaf.phys == m.info.phys + (va - m.start) && leaf.attributes == m.info.attributes && leaf.size == m.info.size
  }

  /** A mapping covers `va`, and explains it, exactly if the walk ends in a leaf. */
  ghost predicate Agrees(w: Dump, ms: seq<Mapping>, va: nat) {
    var r := Translate(w, va);
    if r.None? then forall k :: 0 <= k < |ms| ==> !(ms[k].start <= va < ms[k].end)
    else exists k :: 0 <= k < |ms| && Explains(ms[k], r.value, va)
  }

  ghost predicate Good(w: Dump, ms: seq<Mapping>, lo: nat, hi: nat) {
    Within(ms, lo, hi) && forall va: nat :: lo <= va < hi ==> Agrees(w, ms, va)
  }

  lemma {:induction false} GoodConcat(w: Dump, a: seq<Mapping>, b: seq<Mapping>, lo: nat, mid: nat, hi: nat)
    requires lo <= mid <= hi && Good(w, a, lo, mid) && Good(w, b, mid, hi)
    ensures Good(w, a + b, lo, hi)
  {
    hide Translate;
    var c := a + b;
    assert forall k :: 0 <= k < |a| ==> c[k] == a[k];
    assert forall k :: |a| <= k < |c| ==> c[k] == b[k - |a|];
    forall va: nat | lo <= va < hi
      ensures Agrees(w, c, va)
    {
      var r := Translate(w, va);
      if va < mid {
        assert Agrees(w, a, va);
        if r.Some? {
          var k :| 0 <= k < |a| && Explains(a[k], r.value, va);
          assert Explains(c[k], r.value, va);
        }
      } else {
        assert Agrees(w, b, va);
        if r.Some? {
          var k :| 0 <= k < |b| && Explains(b[k], r.value, va);
          assert Explains(c[k + |a|], r.value, va);
        }
      }
    }
  }

  lemma {:induction false} GoodNone(w: Dump, lo: nat, hi: nat)
    requires forall va: nat :: lo <= va < hi ==> Translate(w, va).None?
    ensures Good(w, [], lo, hi)
  {
    hide Translate;
  }

  lemma {:induction false} GoodOne(w: Dump, m: Mapping)
    requires m.start < m.end && m.info.Leaf?
    requires forall va: nat :: m.start <= va < m.end ==>
            Translate(w, va).Some? && Explains(m, Translate(w, va).value, va)
    ensures Good(w, [m], m.start, m.end)
  {
    hide Translate;
    forall va: nat | m.start <= va < m.end
      ensures Agrees(w, [m], va)
    {
      assert Explains([m][0], Translate(w, va).value, va);
    }
  }

  /** First-level entry `f` points to the second-level table `table`. */
  ghost predicate HasTable(w: Dump, f: nat, table: nat) {
    f < 4 && IsTable(First(w, f)) && table == Upper(First(w, f).value) * PAGE
  }

  lemma {:induction false} WalkBelow(w: Dump, f: nat, table: nat, s: nat, t: nat, o: nat)
    requires HasTable(w, f, table) && s < 512 && t < 512 && o < PAGE
    ensures var va := f * GIG + s * MEG2 + t * PAGE + o;
            && FirstLevel(w, va) == Some(Table(table))
            && SecondLevel(w, table, va) ==
               (var d := Lower(w, table, s);
                if IsBlock(d) then Some(Leaf(Upper(d.value) * MEG2 + (t * PAGE + o), MEG2, Attributes(d.value)))
                else if IsTable(d) then Some(Table(Upper(d.value) * PAGE)) else None)
  {
    hide DescriptorAddress;
    Fields(f, s, t, o);
  }

  lemma {:induction false} PageGood(w: Dump, f: nat, table: nat, s: nat, t: nat)
    requires HasTable(w, f, table) && s < 512 && t < 512 && IsTable(Lower(w, table, s))
    ensures var virt, third := f * GIG + s * MEG2 + t * PAGE, Upper(Lower(w, table, s).value) * PAGE;
            var info := ThirdLevel(w, third, virt);
            Good(w, if info.Some? then [Record(virt, info.value)] else [], virt, virt + PAGE)
  {
    hide Good, FirstLevel, SecondLevel, Upper, Attributes, DescriptorAddress;
    var virt, third := f * GIG + s * MEG2 + t * PAGE, Upper(Lower(w, table, s).value) * PAGE;
    Fields(f, s, t, 0);
    var info := ThirdLevel(w, third, virt);
    forall va: nat | virt <= va < virt + PAGE
      ensures info.None? ==> Translate(w, va).None?
      ensures info.Some? ==> Translate(w, va).Some? && Explains(Record(virt, info.value), Translate(w, va).value, va)
    {
      WalkBelow(w, f, table, s, t, va - virt);
      Fields(f, s, t, va - virt);
    }
    if info.Some? {
      GoodOne(w, Record(virt, info.value));
    } else {
      GoodNone(w, virt, virt + PAGE);
    }
  }

  lemma {:induction false} PagesGood(w: Dump, f: nat, table: nat, s: nat, n: nat)
    requires HasTable(w, f, table) && s < 512 && n <= 512 && IsTable(Lower(w, table, s))
    ensures var virt, third := f * GIG + s * MEG2, Upper(Lower(w, table, s).value) * PAGE;
            Good(w, Pages(w, third, virt, n), virt, virt + n * PAGE)
    decreases n
  {
    hide Good, ThirdLevel, Upper, Lower, DescriptorAddress;
    var virt, third := f * GIG + s * MEG2, Upper(Lower(w, table, s).value) * PAGE;
    if n == 0 {
      GoodNone(w, virt, virt);
    } else {
      PagesGood(w, f, table, s, n - 1);
      PageGood(w, f, table, s, n - 1);
      var info := ThirdLevel(w, third, virt + (n - 1) * PAGE);
      GoodConcat(w, Pages(w, third, virt, n - 1),
          if info.Some? then [Record(virt + (n - 1) * PAGE, info.value)] else [],
                 virt, virt + (n - 1) * PAGE, virt + n * PAGE);
    }
  }

  lemma {:induction false} SectionGood(w: Dump, f: nat, table: nat, s: nat)
    requires HasTable(w, f, table) && s < 512
    requires IsBlock(Lower(w, table, s)) ==> Stale(w, table, s) == 0
    ensures Good(w, Section(w, table, f * GIG, s), f * GIG + s * MEG2, f * GIG + (s + 1) * MEG2)
  {
    hide Good, Pages, Upper, Attributes, FirstLevel, SecondLevel, DescriptorAddress;
    var virt := f * GIG + s * MEG2;
    StaleBound(w, table, s);
    WalkBelow(w, f, table, s, Stale(w, table, s), 0);
    if IsTable(Lower(w, table, s)) {
      PagesGood(w, f, table, s, 512);
    } else {
      var info := SecondLevel(w, table, virt + Stale(w, table, s) * PAGE);
      forall va: nat | virt <= va < virt + MEG2
        ensures info.None? ==> Translate(w, va).None?
        ensures info.Some? ==> Translate(w, va).Some? && Explains(Record(virt, info.value), Translate(w, va).value, va)
      {
        var t, o := Decompose(virt, f, s, va);
        WalkBelow(w, f, table, s, t, o);
      }
      if info.Some? {
        GoodOne(w, Record(virt, info.value));
      } else {
        GoodNone(w, virt, virt + MEG2);
      }
    }
  }

  lemma {:induction false} StaleBound(w: Dump, table: nat, n: nat)
    ensures Stale(w, table, n) == 0 || Stale(w, table, n) == 511
    ensures Stale(w, table, n) == 511 <==> exists k :: 0 <= k < n && IsTable(Lower(w, table, k))
    decreases n
  {
    hide DescriptorAddress;
    if n > 0 {
      StaleBound(w, table, n - 1);
      if IsTable(Lower(w, table, n - 1)) {
      } else if k :| 0 <= k < n && IsTable(Lower(w, table, k)) {
        assert k < n - 1;
      }
    }
  }

  /** No block descriptor comes after a table descriptor among the first `n` of a second-level table. */
  ghost predicate BlocksFirst(w: Dump, table: nat, n: nat) {
    forall s :: 0 <= s < n && IsBlock(Lower(w, table, s)) ==> Stale(w, table, s) == 0
  }

  /** BlocksFirst, said of the descriptors alone. */
  lemma {:induction false} BlocksFirstMeans(w: Dump, table: nat, n: nat)
    ensures BlocksFirst(w, table, n)
        <==> forall r, s :: 0 <= r < s < n && IsTable(Lower(w, table, r)) ==> !IsBlock(Lower(w, table, s))
  {
    hide DescriptorAddress;
    forall s | 0 <= s < n
      ensures Stale(w, table, s) == 0 || Stale(w, table, s) == 511
      ensures Stale(w, table, s) == 511 <==> exists r :: 0 <= r < s && IsTable(Lower(w, table, r))
    {
      StaleBound(w, table, s);
    }
    hide Stale, IsTable, IsBlock;
  }

  lemma {:induction false} SectionsGood(w: Dump, f: nat, table: nat, n: nat)
    requires HasTable(w, f, table) && n <= 512 && BlocksFirst(w, table, n)
    ensures Good(w, Sections(w, table, f * GIG, n), f * GIG, f * GIG + n * MEG2)
    decreases n
  {
    hide Good, Section, Lower, Stale, DescriptorAddress;
    if n == 0 {
      GoodNone(w, f * GIG, f * GIG);
    } else {
      SectionsGood(w, f, table, n - 1);
      SectionGood(w, f, table, n - 1);
      GoodConcat(w, Sections(w, table, f * GIG, n - 1), Section(w, table, f * GIG, n - 1),
                 f * GIG, f * GIG + (n - 1) * MEG2, f * GIG + n * MEG2);
    }
  }

  /** In every second-level table in use, blocks come before tables: what a reader can check in the dump. */
  ghost predicate Orderly(w: Dump, f: nat) {
    forall table :: HasTable(w, f, table) ==> BlocksFirst(w, table, 512)
  }

  lemma {:induction false} WalkTop(w: Dump, f: nat, va: nat)
    requires f < 4 && f * GIG <= va < (f + 1) * GIG
    ensures FirstLevel(w, va) ==
            (var d := First(w, f);
             if IsBlock(d) then Some(Leaf(d.value / GIG % 1024 * GIG + (va - f * GIG), GIG, Attributes(d.value)))
             else if IsTable(d) then Some(Table(Upper(d.value) * PAGE)) else None)
  {
    hide DescriptorAddress;
    DivUnique(va, GIG, f, va - f * GIG);
  }

  lemma {:induction false} GigabyteGood(w: Dump, f: nat)
    requires f < 4 && Orderly(w, f)
    ensures Good(w, Gigabyte(w, f), f * GIG, (f + 1) * GIG)
  {
    hide Good, Sections, Upper, Attributes, FirstLevel, BlocksFirst, DescriptorAddress;
    var base := f * GIG;
    WalkTop(w, f, base);
    if IsTable(First(w, f)) {
      SectionsGood(w, f, Upper(First(w, f).value) * PAGE, 512);
    } else {
      var info := FirstLevel(w, base);
      forall va: nat | base <= va < base + GIG
        ensures info.None? ==> Translate(w, va).None?
        ensures info.Some? ==> Translate(w, va).Some? && Explains(Record(base, info.value), Translate(w, va).value, va)
      {
        WalkTop(w, f, va);
      }
      if info.Some? {
        GoodOne(w, Record(base, info.value));
      } else {
        GoodNone(w, base, base + GIG);
      }
    }
  }

  lemma {:induction false} FlatGood(w: Dump, n: nat)
    requires n <= 4 && forall f :: 0 <= f < n ==> Orderly(w, f)
    ensures Good(w, Flat(w, n), 0, n * GIG)
    decreases n
  {
    hide Good, Gigabyte, Orderly, DescriptorAddress;
    if n == 0 {
      GoodNone(w, 0, 0);
    } else {
      FlatGood(w, n - 1);
      GigabyteGood(w, n - 1);
      GoodConcat(w, Flat(w, n - 1), Gigabyte(w, n - 1), 0, (n - 1) * GIG, n * GIG);
    }
  }

  /** Two mappings of an ascending list do not cover the same address. */
  lemma {:induction false} OneMapping(ms: seq<Mapping>, lo: nat, hi: nat, i: nat, j: nat, va: nat)
    requires Within(ms, lo, hi) && i < |ms| && j < |ms|
    requires ms[i].start <= va < ms[i].end && ms[j].start <= va < ms[j].end
    ensures i == j
  {
  }

  // ----- what goes wrong otherwise -----

  ghost predicate StartsFrom(ms: seq<Mapping>, lo: nat) {
    forall k :: 0 <= k < |ms| ==> ms[k].start >= lo
  }

  lemma {:induction false} PagesStart(w: Dump, table: nat, base: nat, n: nat)
    ensures StartsFrom(Pages(w, table, base, n), base)
    decreases n
  {
    hide ThirdLevel, DescriptorAddress;
    if n > 0 {
      PagesStart(w, table, base, n - 1);
    }
  }

  lemma {:induction false} SectionsStart(w: Dump, table: nat, base: nat, m: nat, n: nat)
    requires m <= n
    ensures exists rest ::
            Sections(w, table, base, n) == Sections(w, table, base, m) + rest && StartsFrom(rest, base + m * MEG2)
    decreases n
  {
    hide SecondLevel, Stale, Pages, DescriptorAddress;
    if n == m {
      assert Sections(w, table, base, n) == Sections(w, table, base, m) + [] && StartsFrom([], base + m * MEG2);
    } else {
      SectionsStart(w, table, base, m, n - 1);
      var rest :| Sections(w, table, base, n - 1) == Sections(w, table, base, m) + rest &&
          StartsFrom(rest, base + m * MEG2);
      var more := Section(w, table, base, n - 1);
      SectionStart(w, table, base, n - 1);
      assert Sections(w, table, base, n) == Sections(w, table, base, m) + (rest + more);
      assert StartsFrom(rest + more, base + m * MEG2);
    }
  }

  lemma {:induction false} SectionStart(w: Dump, table: nat, base: nat, s: nat)
    ensures StartsFrom(Section(w, table, base, s), base + s * MEG2)
  {
    hide SecondLevel, Pages, Stale, DescriptorAddress;
    var info := SecondLevel(w, table, base + s * MEG2 + Stale(w, table, s) * PAGE);
    if info.Some? && info.value.Table? {
      PagesStart(w, info.value.address, base + s * MEG2, 512);
    }
  }

  lemma {:induction false} FlatStart(w: Dump, m: nat, n: nat)
    requires m <= n
    ensures exists rest :: Flat(w, n) == Flat(w, m) + rest && StartsFrom(rest, m * GIG)
    decreases n
  {
    hide Gigabyte, DescriptorAddress;
    if n == m {
      assert Flat(w, n) == Flat(w, m) + [] && StartsFrom([], m * GIG);
    } else {
      FlatStart(w, m, n - 1);
      var rest :| Flat(w, n - 1) == Flat(w, m) + rest && StartsFrom(rest, m * GIG);
      var more := Gigabyte(w, n - 1);
      GigabyteStart(w, n - 1);
      assert Flat(w, n) == Flat(w, m) + (rest + more);
      assert StartsFrom(rest + more, m * GIG);
    }
  }

  lemma {:induction false} GigabyteStart(w: Dump, f: nat)
    ensures StartsFrom(Gigabyte(w, f), f * GIG)
  {
    hide FirstLevel, Sections, DescriptorAddress;
    var info := FirstLevel(w, f * GIG);
    if info.Some? && info.value.Table? {
      SectionsStart(w, info.value.address, f * GIG, 0, 512);
      SectionsEmpty(w, info.value.address, f * GIG);
    }
  }

  lemma {:induction false} SectionsEmpty(w: Dump, table: nat, base: nat)
    ensures forall rest: seq<Mapping> :: Sections(w, table, base, 0) + rest == rest
  {
    assert forall rest: seq<Mapping> :: [] + rest == rest;
  }

  ghost predicate Uncovered(ms: seq<Mapping>, va: nat) {
    forall k :: 0 <= k < |ms| ==> !(ms[k].start <= va < ms[k].end)
  }

  lemma {:induction false} UncoveredConcat(a: seq<Mapping>, b: seq<Mapping>, va: nat)
    requires Uncovered(a, va) && Uncovered(b, va)
    ensures Uncovered(a + b, va)
  {
  }

  /** The first block that follows a table is recorded 511 pages too high, so the walk finds it and the
      enumeration does not. */
  lemma {:induction false} StaleBlockMissed(w: Dump, f: nat, table: nat, s: nat)
    requires HasTable(w, f, table) && s < 512 && IsBlock(Lower(w, table, s)) && Stale(w, table, s) != 0
    requires BlocksFirst(w, table, s) && forall g :: 0 <= g < f ==> Orderly(w, g)
    ensures var va := f * GIG + s * MEG2;
            va < TOP && Translate(w, va).Some? && Uncovered(Flat(w, 4), va)
  {
    hide DescriptorAddress;
    hide Good, FirstLevel, SecondLevel, Sections, Gigabyte, Pages, Orderly, BlocksFirst, Upper, Uncovered, StartsFrom,
        Flat, Section;
    var va, base := f * GIG + s * MEG2, f * GIG;
    WalkBelow(w, f, table, s, 0, 0);
    WalkTop(w, f, base);
    FlatGood(w, f);
    SectionsGood(w, f, table, s);
    BelowIsUncovered(w, Flat(w, f), 0, f * GIG, va);
    BelowIsUncovered(w, Sections(w, table, base, s), base, va, va);
    StaleSection(w, f, table, s);
    SectionsStart(w, table, base, s + 1, 512);
    var after :| Sections(w, table, base, 512) == Sections(w, table, base, s + 1) + after &&
        StartsFrom(after, base + (s + 1) * MEG2);
    AboveIsUncovered(after, base + (s + 1) * MEG2, va);
    SectionsNext(w, table, base, s);
    UncoveredConcat(Sections(w, table, base, s), Section(w, table, base, s), va);
    UncoveredConcat(Sections(w, table, base, s + 1), after, va);
    FlatStart(w, f + 1, 4);
    var rest :| Flat(w, 4) == Flat(w, f + 1) + rest && StartsFrom(rest, (f + 1) * GIG);
    AboveIsUncovered(rest, (f + 1) * GIG, va);
    GigabyteTable(w, f, table);
    UncoveredConcat(Flat(w, f), Gigabyte(w, f), va);
    UncoveredConcat(Flat(w, f + 1), rest, va);
  }

  lemma {:induction false} AboveIsUncovered(ms: seq<Mapping>, lo: nat, va: nat)
    requires StartsFrom(ms, lo) && va < lo
    ensures Uncovered(ms, va)
  {
  }

  lemma {:induction false} SectionsNext(w: Dump, table: nat, base: nat, s: nat)
    ensures Sections(w, table, base, s + 1) == Sections(w, table, base, s) + Section(w, table, base, s)
  {
  }

  lemma {:induction false} GigabyteTable(w: Dump, f: nat, table: nat)
    requires HasTable(w, f, table)
    ensures Gigabyte(w, f) == Sections(w, table, f * GIG, 512)
    ensures Flat(w, f + 1) == Flat(w, f) + Gigabyte(w, f)
  {
    hide DescriptorAddress;
    WalkTop(w, f, f * GIG);
  }

  lemma {:induction false} BelowIsUncovered(w: Dump, ms: seq<Mapping>, lo: nat, hi: nat, va: nat)
    requires Good(w, ms, lo, hi) && va >= hi
    ensures Uncovered(ms, va)
  {
  }

  lemma {:induction false} StaleSection(w: Dump, f: nat, table: nat, s: nat)
    requires HasTable(w, f, table) && s < 512 && IsBlock(Lower(w, table, s)) && Stale(w, table, s) != 0
    ensures Uncovered(Section(w, table, f * GIG, s), f * GIG + s * MEG2)
  {
    hide FirstLevel, SecondLevel, Upper, DescriptorAddress;
    StaleBound(w, table, s);
    WalkBelow(w, f, table, s, 511, 0);
  }

  /** The enumeration agrees with the walk on every 32-bit address exactly if, in every second-level table in use, no
      block descriptor comes after a table descriptor. */
  lemma {:induction false} EnumerationAgrees(w: Dump)
    ensures (forall va: nat :: va < TOP ==> Agrees(w, Flat(w, 4), va)) <==> (forall f :: 0 <= f < 4 ==> Orderly(w, f))
    ensures (forall f :: 0 <= f < 4 ==> Orderly(w, f)) ==> Within(Flat(w, 4), 0, TOP)
  {
    hide Flat, Translate, Orderly, DescriptorAddress;
    if forall f :: 0 <= f < 4 ==> Orderly(w, f) {
      FlatGood(w, 4);
    } else {
      var f, table, s := FirstDisorder(w, 4);
      StaleBlockMissed(w, f, table, s);
      assert !Agrees(w, Flat(w, 4), f * GIG + s * MEG2);
    }
  }

  lemma {:induction false} FirstDisorder(w: Dump, n: nat) returns (f: nat, table: nat, s: nat)
    requires n <= 4 && exists g :: 0 <= g < n && !Orderly(w, g)
    ensures HasTable(w, f, table) && s < 512 && IsBlock(Lower(w, table, s)) && Stale(w, table, s) != 0
    ensures BlocksFirst(w, table, s) && forall g :: 0 <= g < f ==> Orderly(w, g)
    decreases n
  {
    hide DescriptorAddress;
    if exists g :: 0 <= g < n - 1 && !Orderly(w, g) {
      f, table, s := FirstDisorder(w, n - 1);
    } else {
      f := n - 1;
      table :| HasTable(w, f, table) && !BlocksFirst(w, table, 512);
      s := FirstStale(w, table, 512);
    }
  }

  lemma {:induction false} FirstStale(w: Dump, table: nat, n: nat) returns (s: nat)
    requires !BlocksFirst(w, table, n)
    ensures s < n && IsBlock(Lower(w, table, s)) && Stale(w, table, s) != 0 && BlocksFirst(w, table, s)
    decreases n
  {
    hide Stale, DescriptorAddress;
    if BlocksFirst(w, table, n - 1) {
      s := n - 1;
    } else {
      s := FirstStale(w, table, n - 1);
    }
  }

  /** A dump with one second-level table at 0x1000: a table descriptor, then a block. */
  function BlockAfterTable(): Dump {
    Dump(a => if a == 0 then Some(0x1003) else None,
         a => if a == 0x1000 then Some(0x2003) else if a == 0x1008 then Some(0x3001) else None,
         0)
  }

  /** The block maps the addresses from 2 MB on; the enumeration leaves them out. */
  lemma {:induction false} BlockIsMissed()
    ensures var w := BlockAfterTable(); Translate(w, MEG2).Some? && Uncovered(Flat(w, 4), MEG2)
  {
    hide DescriptorAddress;
    hide Translate, Flat, BlocksFirst, Orderly, HasTable, Stale, Lower, Uncovered, BlockAfterTable;
    BlockAfterTableFacts();
    StaleBlockMissed(BlockAfterTable(), 0, 0x1000, 1);
  }

  lemma {:induction false} BlockAfterTableFacts()
    ensures var w := BlockAfterTable();
            HasTable(w, 0, 0x1000) && IsBlock(Lower(w, 0x1000, 1)) && Stale(w, 0x1000, 1) != 0 &&
                BlocksFirst(w, 0x1000, 1)
  {
    hide Stale, DescriptorAddress;
    var w := BlockAfterTable();
    DescriptorAt(0, 0);
    DescriptorAt(0x1000, 0);
    DescriptorAt(0x1000, 1);
    assert First(w, 0) == Some(0x1003);
    assert Lower(w, 0x1000, 0) == Some(0x2003);
    StaleBound(w, 0x1000, 1);
  }

  // ----- alignment -----

  ghost predicate PageAligned(ms: seq<Mapping>) {
    forall k :: 0 <= k < |ms| ==> ms[k].start % PAGE == 0 && ms[k].end % PAGE == 0
  }

  lemma {:induction false} RecordAligned(virt: nat, info: Info)
    requires info.Leaf? && virt % PAGE == 0 && (info.size == PAGE || info.size == MEG2 || info.size == GIG)
    ensures PageAligned([Record(virt, info)])
  {
  }

  lemma {:induction false} PageUp(base: nat, k: nat)
    requires base % PAGE == 0
    ensures (base + k * PAGE) % PAGE == 0 && (base + k * MEG2) % PAGE == 0
  {
    DivUnique(base + k * PAGE, PAGE, base / PAGE + k, 0);
    DivUnique(base + k * MEG2, PAGE, base / PAGE + 512 * k, 0);
  }

  lemma {:induction false} PagesAligned(w: Dump, table: nat, base: nat, n: nat)
    requires base % PAGE == 0
    ensures PageAligned(Pages(w, table, base, n))
    decreases n
  {
    hide Upper, Attributes, DescriptorAddress;
    if n > 0 {
      PagesAligned(w, table, base, n - 1);
      PageUp(base, n - 1);
      hide PageAligned;
      var info := ThirdLevel(w, table, base + (n - 1) * PAGE);
      NoneAligned();
      if info.Some? {
        RecordAligned(base + (n - 1) * PAGE, info.value);
      }
      AlignedConcat(Pages(w, table, base, n - 1),
          if info.Some? then [Record(base + (n - 1) * PAGE, info.value)] else []);
    }
  }

  lemma {:induction false} NoneAligned()
    ensures PageAligned([])
  {
  }

  lemma {:induction false} AlignedConcat(a: seq<Mapping>, b: seq<Mapping>)
    requires PageAligned(a) && PageAligned(b)
    ensures PageAligned(a + b)
  {
  }

  lemma {:induction false} SectionsAligned(w: Dump, table: nat, base: nat, n: nat)
    requires base % PAGE == 0
    ensures PageAligned(Sections(w, table, base, n))
    decreases n
  {
    hide Section, DescriptorAddress;
    if n > 0 {
      hide PageAligned;
      SectionsAligned(w, table, base, n - 1);
      SectionAligned(w, table, base, n - 1);
      AlignedConcat(Sections(w, table, base, n - 1), Section(w, table, base, n - 1));
    }
  }

  lemma {:induction false} SectionAligned(w: Dump, table: nat, base: nat, s: nat)
    requires base % PAGE == 0
    ensures PageAligned(Section(w, table, base, s))
  {
    hide Pages, Stale, Upper, Attributes, PageAligned, SecondLevel, DescriptorAddress;
    var virt := base + s * MEG2;
    NoneAligned();
    PageUp(base, s);
    PageUp(virt, Stale(w, table, s));
    var info := SecondLevel(w, table, virt + Stale(w, table, s) * PAGE);
    SecondSize(w, table, virt + Stale(w, table, s) * PAGE);
    if info.Some? && info.value.Table? {
      PagesAligned(w, info.value.address, virt, 512);
    } else if info.Some? {
      RecordAligned(virt + Stale(w, table, s) * PAGE, info.value);
    }
  }

  lemma {:induction false} SecondSize(w: Dump, table: nat, virt: nat)
    ensures var info := SecondLevel(w, table, virt); info.Some? && info.value.Leaf? ==> info.value.size == MEG2
  {
    hide DescriptorAddress;
  }

  lemma {:induction false} FlatAligned(w: Dump, n: nat)
    ensures PageAligned(Flat(w, n))
    decreases n
  {
    hide Gigabyte, DescriptorAddress;
    if n > 0 {
      hide PageAligned;
      FlatAligned(w, n - 1);
      GigabyteAligned(w, n - 1);
      AlignedConcat(Flat(w, n - 1), Gigabyte(w, n - 1));
    }
  }

  lemma {:induction false} GigabyteAligned(w: Dump, f: nat)
    ensures PageAligned(Gigabyte(w, f))
  {
    hide Sections, PageAligned, FirstLevel, DescriptorAddress;
    NoneAligned();
    PageUp(0, f * 0x4_0000);
    FirstSize(w, f * GIG);
    var info := FirstLevel(w, f * GIG);
    if info.Some? && info.value.Table? {
      SectionsAligned(w, info.value.address, f * GIG, 512);
    } else if info.Some? {
      RecordAligned(f * GIG, info.value);
    }
  }

  lemma {:induction false} FirstSize(w: Dump, virt: nat)
    ensures var info := FirstLevel(w, virt); info.Some? && info.value.Leaf? ==> info.value.size == GIG
  {
    hide DescriptorAddress;
  }
}
