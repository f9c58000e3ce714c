/** The unwinder's instruction set and table words, stated as laws of a step, number by number. */
module UnwindLaws {
  import opened Options
  import opened Arith
  import opened Bytes
  import opened UnwindSearch
  import opened UnwindExec

  // ----- moving the stack pointer -----

  /** 0x00 to 0x3f raise the stack pointer by one to 64 words. */
  lemma {:induction false} Raises(mem: Memory, regs: Registers, b: byte, code: seq<Option<byte>>)
    requires b < 64
    ensures Step(mem, Machine(regs, [Some(b)] + code)) == Ok(Machine(regs[13 := regs[13] + (4 * b + 4)], code))
  {
    assert ([Some(b)] + code)[1..] == code;
  }

  /** 0x40 to 0x7f lower it by one to 64 words. */
  lemma {:induction false} Lowers(mem: Memory, regs: Registers, b: byte, code: seq<Option<byte>>)
    requires 64 <= b < 128
    ensures Step(mem, Machine(regs, [Some(b)] + code)) == Ok(Machine(regs[13 := regs[13] - (4 * (b - 64) + 4)], code))
  {
    assert ([Some(b)] + code)[1..] == code;
  }

  /** 0xb2 n raises it by 129 words and n more. */
  lemma {:induction false} RaisesFar(mem: Memory, regs: Registers, n: byte, code: seq<Option<byte>>)
    ensures Step(mem, Machine(regs, [Some(178), Some(n)] + code)) ==
            Ok(Machine(regs[13 := regs[13] + 4 * (129 + n)], code))
  {
    var c := [Some(178), Some(n)] + code;
    assert c[1..] == [Some(n)] + code && c[1..][1..] == code;
  }

  /** One step after another. */
  ghost function Then(mem: Memory, r: Outcome<Machine>): Outcome<Machine> {
    match r
    case Ok(m) => Step(mem, m)
    case Failed => Failed
    case Crashed => Crashed
  }

  ghost function Steps(mem: Memory, m: Machine, n: nat): Outcome<Machine> {
    if n == 0 then Ok(m) else Then(mem, Steps(mem, m, n - 1))
  }

  /** Raising and lowering by the same number of words restores the registers. */
  lemma {:induction false} RaiseLower(mem: Memory, regs: Registers, b: byte, code: seq<Option<byte>>)
    requires b < 64
    ensures Steps(mem, Machine(regs, [Some(b), Some(64 + b)] + code), 2) == Ok(Machine(regs, code))
  {
    hide Step;
    var next := regs[13 := regs[13] + (4 * b + 4)];
    Raises(mem, regs, b, [Some(64 + b)] + code);
    Lowers(mem, next, 64 + b, code);
    assert [Some(b), Some(64 + b)] + code == [Some(b)] + ([Some(64 + b)] + code);
    assert next[13 := next[13] - (4 * b + 4)] == regs;
    Unfold(mem, Machine(regs, [Some(b), Some(64 + b)] + code));
  }

  lemma {:induction false} Unfold(mem: Memory, m: Machine)
    ensures Steps(mem, m, 1) == Step(mem, m) && Steps(mem, m, 2) == Then(mem, Step(mem, m))
    ensures Steps(mem, m, 3) == Then(mem, Then(mem, Step(mem, m)))
  {
    hide Step;
    assert Steps(mem, m, 0) == Ok(m);
  }

  /** Raising by `b + 1` words and then one is raising by `b + 2`. */
  lemma {:induction false} RaiseOneMore(mem: Memory, regs: Registers, b: byte, code: seq<Option<byte>>)
    requires b < 63
    ensures Steps(mem, Machine(regs, [Some(b), Some(0)] + code), 2)
         == Steps(mem, Machine(regs, [Some(b + 1)] + code), 1)
  {
    hide Step;
    var next := regs[13 := regs[13] + (4 * b + 4)];
    Raises(mem, regs, b, [Some(0)] + code);
    Raises(mem, next, 0, code);
    Raises(mem, regs, b + 1, code);
    assert [Some(b), Some(0)] + code == [Some(b)] + ([Some(0)] + code);
    assert next[13 := next[13] + 4] == regs[13 := regs[13] + (4 * (b + 1) + 4)];
    Unfold(mem, Machine(regs, [Some(b), Some(0)] + code));
    Unfold(mem, Machine(regs, [Some(b + 1)] + code));
  }

  /** The long form is two full short ones and the rest. */
  lemma {:induction false} RaiseFarIsThree(mem: Memory, regs: Registers, n: byte, code: seq<Option<byte>>)
    requires n < 64
    ensures Steps(mem, Machine(regs, [Some(178), Some(n)] + code), 1)
         == Steps(mem, Machine(regs, [Some(63), Some(63), Some(n)] + code), 3)
  {
    hide Step;
    var a := regs[13 := regs[13] + 256];
    var b := a[13 := a[13] + 256];
    RaisesFar(mem, regs, n, code);
    Raises(mem, regs, 63, [Some(63), Some(n)] + code);
    Raises(mem, a, 63, [Some(n)] + code);
    Raises(mem, b, n, code);
    assert [Some(63), Some(63), Some(n)] + code == [Some(63)] + ([Some(63), Some(n)] + code);
    assert [Some(63), Some(n)] + code == [Some(63)] + ([Some(n)] + code);
    assert b[13 := b[13] + (4 * n + 4)] == regs[13 := regs[13] + 4 * (129 + n)];
    Unfold(mem, Machine(regs, [Some(178), Some(n)] + code));
    Unfold(mem, Machine(regs, [Some(63), Some(63), Some(n)] + code));
  }

  /** 0x90 + r sets it to register r, except for 13 and 15, which are refused. */
  lemma {:induction false} Copies(mem: Memory, regs: Registers, r: nat, code: seq<Option<byte>>)
    requires r < 16
    ensures Step(mem, Machine(regs, [Some(144 + r)] + code))
         == if r == 13 || r == 15 then Failed else Ok(Machine(regs[13 := regs[r]], code))
  {
    assert ([Some(144 + r)] + code)[1..] == code;
  }

  // ----- popping -----

  /** Reference: registers `r` to 15 in turn; each that is wanted takes the word at `sp`, and `sp` moves on. */
  ghost function PopWanted(mem: Memory, sp: int, regs: Registers, r: nat, want: set<nat>): Option<(Registers, int)>
    requires r <= 16
    decreases 16 - r
  {
    if r == 16 then Some((regs, sp))
    else if r !in want then PopWanted(mem, sp, regs, r + 1, want)
    else match mem(sp)
      case None => None
      case Some(w) => PopWanted(mem, sp + 4, regs[r := w], r + 1, want)
  }

  /** What popping `want` does: it fails at an unreadable word; the stack pointer is the one popped, or past the
      words. */
  ghost function Popped(mem: Memory, regs: Registers, want: set<nat>, code: seq<Option<byte>>): Outcome<Machine> {
    match PopWanted(mem, regs[13], regs, 0, want)
    case None => Failed
    case Some(r) => Ok(Machine(if 13 in want then r.0 else r.0[13 := r.1], code))
  }

  /** Register `r` is wanted by a mask whose bit 0 is register `first`. */
  ghost predicate Wants(mask: nat, first: nat, r: nat) {
    first <= r && Bit(mask, r - first)
  }

  /** Registers 4 to 15 whose bits are set in a twelve-bit mask. */
  ghost function Masked(mask: nat): set<nat> {
    set r: nat | r < 16 && Wants(mask, 4, r)
  }

  /** Registers 0 to 3 whose bits are set. */
  ghost function LowMasked(mask: nat): set<nat> {
    set r: nat | r < 4 && Wants(mask, 0, r)
  }

  ghost predicate Between(lo: nat, hi: nat, r: nat) {
    lo <= r <= hi
  }

  /** Registers 4 to `4 + n`, and the link register. */
  ghost function Ranged(n: nat): set<nat> {
    var last := 4 + n;
    (set r: nat | r < 16 && Between(4, last, r)) + {14}
  }

  lemma {:induction false} LoadedIs(mem: Memory, sp: int, rs: seq<nat>, regs: Registers, r: nat, want: set<nat>)
    requires r <= 16 && InFile(rs) && Increasing(rs) && forall i :: 0 <= i < |rs| ==> rs[i] >= r
    requires forall x: nat :: r <= x < 16 ==> (x in want <==> x in rs)
    ensures var loaded := Loaded(mem, sp, rs, regs);
            PopWanted(mem, sp, regs, r, want)
            == if loaded.None? then None else Some((loaded.value, sp + 4 * |rs|))
    decreases 16 - r
  {
    hide Loaded, PopWanted, Increasing;
    PopStep(mem, sp, regs, r, want);
    LoadStep(mem, sp, rs, regs);
    if r == 16 {
      Count(rs, 16);
    } else if r in want {
      FirstWanted(rs, r);
      if mem(sp).Some? {
        Suffix(rs, r, want);
        LoadedIs(mem, sp + 4, rs[1..], regs[r := mem(sp).value], r + 1, want);
      }
    } else {
      NotFirst(rs, r);
      LoadedIs(mem, sp, rs, regs, r + 1, want);
    }
  }

  lemma {:induction false} PopStep(mem: Memory, sp: int, regs: Registers, r: nat, want: set<nat>)
    requires r <= 16
    ensures r == 16 ==> PopWanted(mem, sp, regs, r, want) == Some((regs, sp))
    ensures r < 16 && r !in want ==> PopWanted(mem, sp, regs, r, want) == PopWanted(mem, sp, regs, r + 1, want)
    ensures r < 16 && r in want ==>
              PopWanted(mem, sp, regs, r, want)
              == if mem(sp).None? then None else PopWanted(mem, sp + 4, regs[r := mem(sp).value], r + 1, want)
  {
  }

  lemma {:induction false} LoadStep(mem: Memory, sp: int, rs: seq<nat>, regs: Registers)
    requires InFile(rs)
    ensures rs == [] ==> Loaded(mem, sp, rs, regs) == Some(regs)
    ensures rs != [] ==>
              Loaded(mem, sp, rs, regs)
              == if mem(sp).None? then None else Loaded(mem, sp + 4, rs[1..], regs[rs[0] := mem(sp).value])
  {
  }

  lemma {:induction false} NotFirst(rs: seq<nat>, r: nat)
    requires r !in rs && forall i :: 0 <= i < |rs| ==> rs[i] >= r
    ensures forall i :: 0 <= i < |rs| ==> rs[i] >= r + 1
  {
    forall i | 0 <= i < |rs|
      ensures rs[i] >= r + 1
    {
      assert rs[i] in rs;
    }
  }

  lemma {:induction false} FirstWanted(rs: seq<nat>, r: nat)
    requires Increasing(rs) && r in rs && forall i :: 0 <= i < |rs| ==> rs[i] >= r
    ensures rs != [] && rs[0] == r
  {
    var i :| 0 <= i < |rs| && rs[i] == r;
    NotBelow(rs, i);
  }

  lemma {:induction false} NotBelow(rs: seq<nat>, i: nat)
    requires Increasing(rs) && i < |rs|
    ensures rs[0] <= rs[i]
  {
  }

  lemma {:induction false} Count(rs: seq<nat>, r: nat)
    requires r <= 16 && Increasing(rs) && InFile(rs) && forall i :: 0 <= i < |rs| ==> rs[i] >= r
    ensures |rs| <= 16 - r
    decreases |rs|
  {
    if rs != [] {
      assert rs[0] < 16 && forall i :: 0 < i < |rs| ==> rs[0] < rs[i];
      Count(rs[1..], r + 1);
    }
  }

  lemma {:induction false} Suffix(rs: seq<nat>, r: nat, want: set<nat>)
    requires InFile(rs) && Increasing(rs) && rs != [] && rs[0] == r
    requires forall x: nat :: r <= x < 16 ==> (x in want <==> x in rs)
    ensures InFile(rs[1..]) && Increasing(rs[1..]) && forall i :: 0 <= i < |rs[1..]| ==> rs[1..][i] >= r + 1
    ensures forall x: nat :: r + 1 <= x < 16 ==> (x in want <==> x in rs[1..])
  {
    assert rs == [r] + rs[1..];
    assert forall i :: 0 <= i < |rs| - 1 ==> rs[1..][i] == rs[i + 1] && rs[0] < rs[i + 1];
  }

  /** An instruction that pops `rs` pops that set. */
  lemma {:induction false} PopIs(mem: Memory, regs: Registers, rs: seq<nat>, want: set<nat>, code: seq<Option<byte>>)
    requires InFile(rs) && Increasing(rs) && forall x: nat :: x < 16 ==> (x in want <==> x in rs)
    ensures var e := Effect(mem, Pop(rs), regs);
            Popped(mem, regs, want, code) == if e.None? then Failed else Ok(Machine(e.value, code))
  {
    LoadedIs(mem, regs[13], rs, regs, 0, want);
  }

  /** 0x80 + h, l pops the registers of the mask, bit 0 being r4; an empty mask is refused. */
  lemma {:induction false} PopsMask(mem: Memory, regs: Registers, h: byte, l: byte, code: seq<Option<byte>>)
    requires h < 16
    ensures Step(mem, Machine(regs, [Some(128 + h), Some(l)] + code))
         == if h == 0 && l == 0 then Failed else Popped(mem, regs, Masked(256 * h + l), code)
  {
    hide Loaded, MaskRegs, Popped, Range;
    var mask, c := 256 * h + l, [Some(128 + h), Some(l)] + code;
    assert c[1..] == [Some(l)] + code && c[1..][1..] == code;
    if mask > 0 {
      DecodeWellFormed(128 + h, l);
      var rs := MaskRegs(mask, 4);
      assert Decode(128 + h, l) == Pop(rs);
      MaskedRegs(mask);
      PopIs(mem, regs, rs, Masked(mask), code);
    }
  }

  lemma {:induction false} MaskedRegs(mask: nat)
    ensures forall x: nat :: x < 16 ==> (x in Masked(mask) <==> x in MaskRegs(mask, 4))
  {
    hide MaskRegs;
    forall x: nat | x < 16
      ensures x in Masked(mask) <==> x in MaskRegs(mask, 4)
    {
      if x >= 4 {
        MaskMeans(mask, 4, x - 4);
      } else {
        MaskAbove(mask, 4, x);
      }
    }
  }

  /** 0xb1 m pops r0 to r3 by the mask; a mask of 0 or above 15 is refused. */
  lemma {:induction false} PopsLow(mem: Memory, regs: Registers, m: byte, code: seq<Option<byte>>)
    ensures Step(mem, Machine(regs, [Some(177), Some(m)] + code))
         == if m == 0 || m > 15 then Failed else Popped(mem, regs, LowMasked(m), code)
  {
    hide Loaded, MaskRegs, Popped, Range;
    var c := [Some(177), Some(m)] + code;
    assert c[1..] == [Some(m)] + code && c[1..][1..] == code;
    if 0 < m <= 15 {
      DecodeWellFormed(177, m);
      var rs := MaskRegs(m, 0);
      assert Decode(177, m) == Pop(rs);
      LowRegs(m);
      PopIs(mem, regs, rs, LowMasked(m), code);
    }
  }

  lemma {:induction false} LowRegs(mask: nat)
    requires mask < 16
    ensures forall x: nat :: x < 16 ==> (x in LowMasked(mask) <==> x in MaskRegs(mask, 0))
  {
    assert Pow2(4) == 16;
    MaskOrder(mask, 0, 4);
    hide MaskRegs;
    forall x: nat | x < 16
      ensures x in LowMasked(mask) <==> x in MaskRegs(mask, 0)
    {
      if x < 4 {
        MaskMeans(mask, 0, x);
      }
    }
  }

  /** 0xa0 + n and 0xa8 + n both pop r4 to r4 + n and the link register. */
  lemma {:induction false} PopsRange(mem: Memory, regs: Registers, n: nat, code: seq<Option<byte>>)
    requires n < 8
    ensures var want := Ranged(n);
            && Step(mem, Machine(regs, [Some(160 + n)] + code)) == Popped(mem, regs, want, code)
            && Step(mem, Machine(regs, [Some(168 + n)] + code)) == Popped(mem, regs, want, code)
  {
    hide Loaded, MaskRegs, Popped;
    var want, rs := Ranged(n), Range(4, 5 + n) + [14];
    assert ([Some(160 + n)] + code)[1..] == code && ([Some(168 + n)] + code)[1..] == code;
    assert Decode(160 + n, 0) == Pop(rs) && Decode(168 + n, 0) == Pop(rs);
    DecodeWellFormed(160 + n, 0);
    RangeRegs(n);
    PopIs(mem, regs, rs, want, code);
  }

  lemma {:induction false} RangeRegs(n: nat)
    requires n < 8
    ensures forall x: nat :: x < 16 ==> (x in Ranged(n) <==> x in Range(4, 5 + n) + [14])
  {
    var rs := Range(4, 5 + n) + [14];
    forall x: nat | x < 16
      ensures x in Ranged(n) <==> x in rs
    {
      if 4 <= x <= 4 + n {
        assert rs[x - 4] == x;
      } else if x == 14 {
        assert rs[n + 1] == 14;
      }
    }
  }

  /** Popping the link register after skipping one word takes the word behind it. */
  lemma {:induction false} SkipThenPop(mem: Memory, regs: Registers, code: seq<Option<byte>>)
    ensures Steps(mem, Machine(regs, [Some(0), Some(132), Some(0)] + code), 2)
         == match mem(regs[13] + 4)
            case None => Failed
            case Some(w) => Ok(Machine(regs[14 := w][13 := regs[13] + 8], code))
  {
    hide Step, Masked;
    var next := regs[13 := regs[13] + 4];
    Raises(mem, regs, 0, [Some(132), Some(0)] + code);
    PopsMask(mem, next, 4, 0, code);
    assert [Some(0), Some(132), Some(0)] + code == [Some(0)] + ([Some(132), Some(0)] + code);
    Unfold(mem, Machine(regs, [Some(0), Some(132), Some(0)] + code));
    LinkMask();
    LinkOnly(mem, next);
    if mem(next[13]).Some? {
      var w := mem(next[13]).value;
      assert next[14 := w][13 := next[13] + 4] == regs[14 := w][13 := regs[13] + 8];
    }
  }

  lemma {:induction false} LinkMask()
    ensures Masked(1024) == {14}
  {
    LoopMasks();
    MaskedRegs(1024);
    assert forall r: nat :: r in Masked(1024) ==> r < 16;
    assert forall x: nat :: x < 16 ==> (x in Masked(1024) <==> x in [14]);
  }

  lemma {:induction false} LinkOnly(mem: Memory, regs: Registers)
    ensures PopWanted(mem, regs[13], regs, 0, {14})
         == match mem(regs[13]) case None => None case Some(w) => Some((regs[14 := w], regs[13] + 4))
  {
    var sp := regs[13];
    SkipTo(mem, sp, regs, 0, 14);
    assert PopWanted(mem, sp, regs, 14, {14})
        == match mem(sp) case None => None case Some(w) => PopWanted(mem, sp + 4, regs[14 := w], 15, {14});
    if mem(sp).Some? {
      var r := regs[14 := mem(sp).value];
      assert PopWanted(mem, sp + 4, r, 16, {14}) == Some((r, sp + 4));
    }
  }

  lemma {:induction false} SkipTo(mem: Memory, sp: int, regs: Registers, r: nat, x: nat)
    requires r <= x < 16
    ensures PopWanted(mem, sp, regs, r, {x}) == PopWanted(mem, sp, regs, x, {x})
    decreases x - r
  {
    if r < x {
      SkipTo(mem, sp, regs, r + 1, x);
    }
  }

  // ----- the end, and what is refused -----

  /** 0xb0 ends the code; the program counter is the link register unless it was popped. */
  lemma {:induction false} Finishes(mem: Memory, regs: Registers, code: seq<Option<byte>>)
    ensures Step(mem, Machine(regs, [Some(176)] + code))
         == Ok(Machine(if regs[15] == 0 then regs[15 := regs[14]] else regs, []))
  {
  }

  /** 0xb3 to 0xff are refused. */
  lemma {:induction false} Refuses(mem: Memory, regs: Registers, b: byte, code: seq<Option<byte>>)
    requires 179 <= b
    ensures Step(mem, Machine(regs, [Some(b)] + code)) == Failed
  {
  }

  /** Past the end of the code an operand is zero; an unreadable byte stops the interpreter. */
  lemma {:induction false} AtTheEnd(mem: Memory, regs: Registers, b: byte, code: seq<Option<byte>>)
    ensures HasOperand(b) ==>
              Step(mem, Machine(regs, [Some(b)])) == Step(mem, Machine(regs, [Some(b), Some(0)]))
              && Step(mem, Machine(regs, [Some(b), None] + code)) == Crashed
    ensures Step(mem, Machine(regs, [None] + code)) == Crashed
    ensures HasOperand(b) <==> 128 <= b < 144 || b == 177 || b == 178
  {
    hide Effect, Decode;
    var one: seq<Option<byte>>, two: seq<Option<byte>> := [Some(b)], [Some(b), Some(0)];
    assert one[1..] == [] && two[1..] == [Some(0)] && two[1..][1..] == [];
    assert ([Some(b), None] + code)[1..] == [None] + code;
  }

  // ----- the table words -----

  /** Four bytes as a word. */
  function WordOf(b3: byte, b2: byte, b1: byte, b0: byte): nat {
    0x100_0000 * b3 + 0x1_0000 * b2 + 0x100 * b1 + b0
  }

  lemma {:induction false} BytesOfWord(b3: byte, b2: byte, b1: byte, b0: byte)
    ensures var w := WordOf(b3, b2, b1, b0);
            ByteOf(w, 3) == b3 && ByteOf(w, 2) == b2 && ByteOf(w, 1) == b1 && ByteOf(w, 0) == b0
  {
    var w := WordOf(b3, b2, b1, b0);
    DivUnique(w, 0x100_0000, b3, 0x1_0000 * b2 + 0x100 * b1 + b0);
    DivUnique(w, 0x1_0000, 0x100 * b3 + b2, 0x100 * b1 + b0);
    DivUnique(w, 0x100, 0x1_0000 * b3 + 0x100 * b2 + b1, b0);
  }

  /** A first word 0x80 b2 b1 b0 holds three code bytes; 0x81 n b1 b0 holds two and n words follow; others are
      refused. */
  lemma {:induction false} HeaderMeans(mem: Memory, insn: int, b3: byte, b2: byte, b1: byte, b0: byte)
    requires mem(insn) == Some(WordOf(b3, b2, b1, b0))
    ensures var c := Header(insn, WordOf(b3, b2, b1, b0));
            if b3 == 0x80 then
              c.Some? && Code(mem, c.value.insn, c.value.entries, c.value.i) == [Some(b2), Some(b1), Some(b0)]
            else if b3 == 0x81 then
              c.Some? && Code(mem, c.value.insn, c.value.entries, c.value.i)
                         == [Some(b1), Some(b0)] + Code(mem, insn + 4, b2, 3)
            else c == None
  {
    BytesOfWord(b3, b2, b1, b0);
    hide ByteOf, WordOf, Code;
    if b3 == 0x80 {
      LastThree(mem, insn, WordOf(b3, b2, b1, b0), b2, b1, b0);
    } else if b3 == 0x81 {
      LastTwo(mem, insn, WordOf(b3, b2, b1, b0), 1 + b2, b1, b0);
    }
  }

  lemma {:induction false} LastThree(mem: Memory, insn: int, w: nat, b2: byte, b1: byte, b0: byte)
    requires mem(insn) == Some(w) && ByteOf(w, 2) == b2 && ByteOf(w, 1) == b1 && ByteOf(w, 0) == b0
    ensures Code(mem, insn, 1, 2) == [Some(b2), Some(b1), Some(b0)]
  {
    hide ByteOf, Code;
    CodeSplit(mem, insn, 1, 2);
    CodeSplit(mem, insn, 1, 1);
    CodeSplit(mem, insn, 1, 0);
  }

  lemma {:induction false} LastTwo(mem: Memory, insn: int, w: nat, entries: nat, b1: byte, b0: byte)
    requires entries > 0 && mem(insn) == Some(w) && ByteOf(w, 1) == b1 && ByteOf(w, 0) == b0
    ensures Code(mem, insn, entries, 1) == [Some(b1), Some(b0)] + Code(mem, insn + 4, entries - 1, 3)
  {
    hide ByteOf, Code;
    CodeSplit(mem, insn, entries, 1);
    CodeSplit(mem, insn, entries, 0);
  }

  /** Each following word holds four code bytes, the most significant first. */
  lemma {:induction false} FollowingWord(mem: Memory, insn: int, entries: nat, b3: byte, b2: byte, b1: byte, b0: byte)
    requires entries > 0 && mem(insn) == Some(WordOf(b3, b2, b1, b0))
    ensures Code(mem, insn, entries, 3)
         == [Some(b3), Some(b2), Some(b1), Some(b0)] + Code(mem, insn + 4, entries - 1, 3)
  {
    BytesOfWord(b3, b2, b1, b0);
    hide ByteOf, WordOf, Code;
    CodeSplit(mem, insn, entries, 3);
    CodeSplit(mem, insn, entries, 2);
    LastTwo(mem, insn, WordOf(b3, b2, b1, b0), entries, b1, b0);
  }

  /** A 31-bit offset is added to the address it is read from; a negative one lands one byte too far, because the carry
      out of 32 bits is added instead of dropped. */
  lemma {:induction false} Prel31Is(address: nat, offset: int)
    requires -0x4000_0000 <= offset < 0x4000_0000 && 0 <= address + offset < 0x1_0000_0000 && address < 0x1_0000_0000
    ensures Prel31(address, offset % 0x8000_0000) == address + offset + if offset < 0 then 1 else 0
  {
    if offset >= 0 {
      DivUnique(offset, 0x8000_0000, 0, offset);
      DivUnique(offset, 0x4000_0000, 0, offset);
      DivUnique(address + offset, 0x1_0000_0000, 0, address + offset);
    } else {
      var value := offset + 0x8000_0000;
      DivUnique(offset, 0x8000_0000, -1, value);
      DivUnique(value, 0x4000_0000, 1, value - 0x4000_0000);
      DivUnique(value, 0x8000_0000, 0, value);
      DivUnique(address + offset + 0x1_0000_0000, 0x1_0000_0000, 1, address + offset);
    }
  }

  /** So it is right exactly for offsets that are not negative. */
  lemma {:induction false} Prel31RightExactly(address: nat, offset: int)
    requires -0x4000_0000 <= offset < 0x4000_0000 && 0 <= address + offset < 0x1_0000_0000 && address < 0x1_0000_0000
    ensures Prel31(address, offset % 0x8000_0000) == address + offset <==> offset >= 0
  {
    Prel31Is(address, offset);
  }

  /** Where the code of an entry begins: nowhere for the word 1; behind a 31-bit offset; or in the entry itself. */
  lemma {:induction false} CodeAddressIs(mem: Memory, e: Entry)
    requires e.insn < 0x1_0000_0000
    ensures CodeAddress(mem, e)
         == if e.insn == 1 then Failed
            else if e.insn < 0x8000_0000 then
              (if mem(e.place + 4).None? then Crashed else Ok(Prel31(e.place + 4, mem(e.place + 4).value)))
            else if e.insn < 0x8100_0000 then Ok(e.place + 4)
            else Failed
  {
    hide Prel31;
    if e.insn >= 0x8000_0000 {
      DivUnique(e.insn, 0x8000_0000, 1, e.insn - 0x8000_0000);
    } else {
      DivUnique(e.insn, 0x8000_0000, 0, e.insn);
    }
  }

  // ----- a frame -----

  /** The registers a frame is unwound with: r11, r13 and r14 from the frame, the others zero. */
  ghost predicate StartsWith(regs: Registers, f: Frame) {
    && regs[11] == f.fp && regs[13] == f.sp && regs[14] == f.lr
    && forall r :: 0 <= r < 16 && r != 11 && r != 13 && r != 14 ==> regs[r] == 0
  }

  /** The caller's frame is r11, r13 and r14 at the end, with the program counter from r15, or from r14 if that is 0. */
  lemma {:induction false} CallerIs(mem: Memory, u: Unwinder, f: Frame)
    requires u.threadSize > 0 && Caller(mem, u, f).Ok?
    ensures StartsWith(Initial(f), f) && FindEntry(u, f.pc).Some? && Start(mem, FindEntry(u, f.pc).value).Ok?
    ensures var c, g := Start(mem, FindEntry(u, f.pc).value).value, Caller(mem, u, f).value;
            var r := Run(mem, f.sp, High(f.sp, u.threadSize), Machine(Initial(f), Code(mem, c.insn, c.entries, c.i)));
            && r.Ok? && g.fp == r.value[11] && g.sp == r.value[13] && g.lr == r.value[14]
            && g.pc == (if r.value[15] == 0 then r.value[14] else r.value[15]) && g.pc != f.pc
  {
    hide Run, Code, FindEntry, Start, High;
  }
}
