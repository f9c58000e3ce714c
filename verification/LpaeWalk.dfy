/** The long-descriptor walk in closed form, over the words of the dump alone (ARM DDI 0406C section B3.6). */
module LpaeWalk {
  import opened Options
  import opened Lpae

  /** Bits 39:12 of a descriptor. */
  function Bits39To12(d: nat): nat {
    d / 0x1000 % 0x1000_0000
  }

  /** A leaf with bits 58:52 and 11:2 of its descriptor as attributes. */
  function LeafOf(d: nat, phys: nat, size: nat): (r: Info)
    ensures r.Leaf?
  {
    Leaf(phys, size, (d / 0x10_0000_0000_0000 % 0x80, d / 4 % 0x400))
  }

  /** What address `f` GB + `s` * 2 MB + `t` * 4 KB + `o` maps to: the descriptor at 8 * f of the first table, at
      8 * s of the second, at 8 * t of the third; type 3 goes on, or is a page in the third; type 1 is a block in the
      first two. A block of the second table keeps bits 39:12 above its 21-bit offset. */
  function Expected(w: Dump, f: nat, s: nat, t: nat, o: nat): Option<Info> {
    match w.first(w.pgtbl / 0x20 % 0x8_0000_0000 * 0x20 + 8 * f)
    case None => None
    case Some(a) =>
      if a % 4 == 1 then
        var offset := s * 0x20_0000 + t * 0x1000 + o;
        Some(LeafOf(a, a / 0x4000_0000 % 0x400 * 0x4000_0000 + offset, 0x4000_0000))
      else if a % 4 != 3 then None
      else match w.next(Bits39To12(a) * 0x1000 + 8 * s)
        case None => None
        case Some(b) =>
          if b % 4 == 1 then Some(LeafOf(b, Bits39To12(b) * 0x20_0000 + (t * 0x1000 + o), 0x20_0000))
          else if b % 4 != 3 then None
          else match w.next(Bits39To12(b) * 0x1000 + 8 * t)
            case None => None
            case Some(c) =>
              if c % 4 == 3 then Some(LeafOf(c, Bits39To12(c) * 0x1000 + o, 0x1000)) else None
  }

  /** The walk does exactly that for every 32-bit address. */
  lemma {:induction false} TranslateIs(w: Dump, f: nat, s: nat, t: nat, o: nat)
    requires f < 4 && s < 512 && t < 512 && o < 0x1000
    ensures Translate(w, f * 0x4000_0000 + s * 0x20_0000 + t * 0x1000 + o) == Expected(w, f, s, t, o)
  {
    hide DescriptorAddress, Translate, FirstLevel, SecondLevel, ThirdLevel, First, Lower, LeafOf;
    var va := f * GIG + s * MEG2 + t * PAGE + o;
    Fields(f, s, t, o);
    FirstIs(w, va, f);
    Composed(w, va);
    var a := First(w, f);
    if a.Some? && a.value % 4 == 3 {
      var second := Bits39To12(a.value) * 0x1000;
      Aligned(Bits39To12(a.value));
      SecondIs(w, second, va, s);
      var b := Lower(w, second, s);
      if b.Some? && b.value % 4 == 3 {
        Aligned(Bits39To12(b.value));
        ThirdIs(w, Bits39To12(b.value) * 0x1000, va, t);
      }
    }
  }

  lemma {:induction false} Aligned(k: nat)
    requires k < 0x1000_0000
    ensures k * 0x1000 % PAGE == 0 && k * 0x1000 < 0x100_0000_0000
  {
  }

  lemma {:induction false} Composed(w: Dump, va: nat)
    ensures var a := FirstLevel(w, va);
            Translate(w, va)
            == if a.None? || a.value.Leaf? then a
               else
                 var b := SecondLevel(w, a.value.address, va);
                 if b.None? || b.value.Leaf? then b else ThirdLevel(w, b.value.address, va)
  {
    hide FirstLevel, SecondLevel, ThirdLevel;
  }

  /** The three levels, each from its own descriptor. */
  lemma {:induction false} FirstIs(w: Dump, va: nat, f: nat)
    requires f < 4 && va / GIG == f
    ensures First(w, f) == w.first(w.pgtbl / 0x20 % 0x8_0000_0000 * 0x20 + 8 * f)
    ensures var d := First(w, f);
            FirstLevel(w, va)
            == if d.None? || (d.value % 4 != 1 && d.value % 4 != 3) then None
               else if d.value % 4 == 1 then
                 Some(LeafOf(d.value, d.value / 0x4000_0000 % 0x400 * 0x4000_0000 + va % 0x4000_0000, 0x4000_0000))
               else Some(Table(Bits39To12(d.value) * 0x1000))
  {
    hide DescriptorAddress;
    DescriptorAt(w.pgtbl, f);
  }

  lemma {:induction false} SecondIs(w: Dump, table: nat, va: nat, s: nat)
    requires s < 512 && va / MEG2 % 512 == s && table % PAGE == 0 && table < 0x100_0000_0000
    ensures Lower(w, table, s) == w.next(table + 8 * s)
    ensures var d := Lower(w, table, s);
            SecondLevel(w, table, va)
            == if d.None? || (d.value % 4 != 1 && d.value % 4 != 3) then None
               else if d.value % 4 == 1 then
                 Some(LeafOf(d.value, Bits39To12(d.value) * 0x20_0000 + va % 0x20_0000, 0x20_0000))
               else Some(Table(Bits39To12(d.value) * 0x1000))
  {
    hide DescriptorAddress;
    DescriptorAt(table, s);
  }

  lemma {:induction false} ThirdIs(w: Dump, table: nat, va: nat, t: nat)
    requires t < 512 && va / PAGE % 512 == t && table % PAGE == 0 && table < 0x100_0000_0000
    ensures Lower(w, table, t) == w.next(table + 8 * t)
    ensures var d := Lower(w, table, t);
            ThirdLevel(w, table, va)
            == if d.None? || d.value % 4 != 3 then None
               else Some(LeafOf(d.value, Bits39To12(d.value) * 0x1000 + va % 0x1000, 0x1000))
  {
    hide DescriptorAddress;
    DescriptorAt(table, t);
  }
}
