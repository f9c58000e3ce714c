/** ramdump.py Unwinder: the bytecode interpreter that turns one stack frame into its caller's. */
module UnwindExec {
  import opened Options
  import opened Arith
  import opened Bytes
  import opened UnwindSearch
  import B = Registers

  const SP := 13
  const LR := 14
  const PC := 15
  const FP := 11

  type Memory = int -> Option<nat>
  type Registers = s: seq<int> | |s| == 16 witness seq(16, _ => 0)

  /** A result, a refusal (the interpreter returns -1), or an unreadable word where the interpreter does arithmetic on
      it and stops with a type error. */
  datatype Outcome<+T> = Ok(value: T) | Failed | Crashed

  // ----- the code bytes -----

  function ByteOf(word: nat, i: nat): byte
    requires i <= 3
  {
    (if i == 0 then word else if i == 1 then word / 256 else if i == 2 then word / 65536 else word / 16777216) % 256
  }

  function CodeByte(mem: Memory, address: int, i: nat): Option<byte>
    requires i <= 3
  {
    match mem(address) case None => None case Some(w) => Some(ByteOf(w, i))
  }

  /** The bytes the cursor (insn, entries, byte) has still to deliver; None where memory is unreadable. */
  ghost function Code(mem: Memory, insn: int, entries: int, i: nat): (s: seq<Option<byte>>)
    requires i <= 3
    ensures |s| == if entries <= 0 then 0 else 4 * (entries - 1) + i + 1
    decreases entries, i
  {
    if entries <= 0 then []
    else [CodeByte(mem, insn, i)] + if i == 0 then Code(mem, insn + 4, entries - 1, 3)
        else Code(mem, insn, entries, i - 1)
  }

  /** The cursor delivers consecutive words, each from its most significant byte: byte `j` of word `w` comes after the
      `4 * w + i - j` bytes in front of it. */
  lemma {:induction false} CodeAt(mem: Memory, insn: int, entries: int, i: nat, w: nat, j: nat)
    requires i <= 3 && j <= 3 && w < entries && (w == 0 ==> j <= i)
    ensures Code(mem, insn, entries, i)[4 * w + i - j] == CodeByte(mem, insn + 4 * w, j)
    decreases w, i
  {
    hide Code;
    CodeSplit(mem, insn, entries, i);
    if i > 0 && (w > 0 || j < i) {
      CodeAt(mem, insn, entries, i - 1, w, j);
    } else if i == 0 && w > 0 {
      CodeAt(mem, insn + 4, entries - 1, 3, w - 1, j);
    }
  }

  lemma {:induction false} CodeSplit(mem: Memory, insn: int, entries: int, i: nat)
    requires i <= 3 && entries > 0
    ensures var s := Code(mem, insn, entries, i);
            && s[0] == CodeByte(mem, insn, i)
            && s[1..] == if i == 0 then Code(mem, insn + 4, entries - 1, 3) else Code(mem, insn, entries, i - 1)
  {
  }

  // ----- instructions -----

  datatype Op = AddSp(delta: int) | Pop(regs: seq<nat>) | MoveSp(reg: nat) | Finish | Refused

  /** Registers of the set bits of `mask`, lowest first, bit 0 being `reg`. */
  function MaskRegs(mask: nat, reg: nat): seq<nat> {
    if mask == 0 then [] else (if mask % 2 == 1 then [reg] else []) + MaskRegs(mask / 2, reg + 1)
  }

  function Range(lo: nat, hi: nat): (r: seq<nat>)
    requires lo <= hi
  {
    seq(hi - lo, i requires 0 <= i => lo + i)
  }

  /** Instructions with an operand byte. */
  predicate HasOperand(insn: byte) {
    128 <= insn < 144 || insn == 177 || insn == 178
  }

  function Decode(insn: byte, operand: byte): Op {
    if insn < 64 then AddSp(4 * insn + 4)
    else if insn < 128 then AddSp(-(4 * (insn - 64) + 4))
    else if insn < 144 then
      var mask := (insn - 128) * 256 + operand;
      if mask == 0 then Refused else Pop(MaskRegs(mask, 4))
    else if insn < 160 then if insn == 157 || insn == 159 then Refused else MoveSp(insn - 144)
    else if insn < 176 then Pop(Range(4, 5 + insn % 8) + [LR])
    else if insn == 176 then Finish
    else if insn == 177 then if operand == 0 || operand >= 16 then Refused else Pop(MaskRegs(operand, 0))
    else if insn == 178 then AddSp(0x204 + 4 * operand)
    else Refused
  }

  ghost predicate InFile(rs: seq<nat>) {
    forall i :: 0 <= i < |rs| ==> rs[i] < 16
  }

  /** Consecutive words from `vsp` loaded into `rs` in turn. */
  ghost function Loaded(mem: Memory, vsp: int, rs: seq<nat>, regs: Registers): Option<Registers>
    requires InFile(rs)
    decreases |rs|
  {
    if rs == [] then Some(regs)
    else match mem(vsp)
      case None => None
      case Some(w) => Loaded(mem, vsp + 4, rs[1..], regs[rs[0] := w])
  }

  ghost predicate WellFormed(op: Op) {
    match op
    case Pop(rs) => InFile(rs) && Increasing(rs)
    case MoveSp(reg) => reg < 16
    case _ => true
  }

  /** What an instruction does to the registers; None if it is refused or a popped word is unreadable. */
  ghost function Effect(mem: Memory, op: Op, regs: Registers): Option<Registers>
    requires WellFormed(op)
  {
    match op
    case AddSp(delta) => Some(regs[SP := regs[SP] + delta])
    case Pop(rs) =>
      (match Loaded(mem, regs[SP], rs, regs)
       case None => None
       case Some(r) => Some(if SP in rs then r else r[SP := regs[SP] + 4 * |rs|]))
    case MoveSp(reg) => Some(regs[SP := regs[reg]])
    case Finish => Some(if regs[PC] == 0 then regs[PC := regs[LR]] else regs)
    case Refused => None
  }

  ghost predicate Increasing(rs: seq<nat>) {
    forall i, j :: 0 <= i < j < |rs| ==> rs[i] < rs[j]
  }

  /** A mask pops registers of its own width, in ascending order. */
  lemma {:induction false} MaskOrder(mask: nat, reg: nat, bits: nat)
    requires mask < Pow2(bits)
    ensures Increasing(MaskRegs(mask, reg))
    ensures forall i :: 0 <= i < |MaskRegs(mask, reg)| ==> reg <= MaskRegs(mask, reg)[i] < reg + bits
    decreases mask
  {
    if mask != 0 {
      MaskOrder(mask / 2, reg + 1, bits - 1);
    }
  }

  /** A mask pops exactly the registers of its bits. */
  lemma {:induction false} MaskMeans(mask: nat, reg: nat, n: nat)
    ensures reg + n in MaskRegs(mask, reg) <==> Bit(mask, n)
    decreases n
  {
    hide MaskRegs;
    MaskSplit(mask, reg, reg + n);
    if mask == 0 {
      NoBits(n);
    } else if n > 0 {
      MaskMeans(mask / 2, reg + 1, n - 1);
    } else {
      MaskAbove(mask / 2, reg + 1, reg);
    }
  }

  lemma {:induction false} MaskSplit(mask: nat, reg: nat, r: nat)
    ensures r in MaskRegs(mask, reg) <==> mask != 0 && ((mask % 2 == 1 && r == reg) || r in MaskRegs(mask / 2, reg + 1))
  {
  }

  lemma {:induction false} MaskAbove(mask: nat, reg: nat, r: nat)
    requires r < reg
    ensures r !in MaskRegs(mask, reg)
    decreases mask
  {
    hide MaskRegs;
    MaskSplit(mask, reg, r);
    if mask != 0 {
      MaskAbove(mask / 2, reg + 1, r);
    }
  }

  /** Popping `rs` gives its k-th register the k-th word of the stack and leaves the others alone; it fails exactly when
      one of those words is unreadable. */
  lemma {:induction false} LoadedMeans(mem: Memory, vsp: int, rs: seq<nat>, regs: Registers)
    requires InFile(rs) && Increasing(rs)
    ensures var after := Loaded(mem, vsp, rs, regs);
            if after.Some? then
              && (forall k :: 0 <= k < |rs| ==> Holds(mem, vsp + 4 * k, after.value[rs[k]]))
              && (forall r: nat :: r < 16 && r !in rs ==> after.value[r] == regs[r])
            else exists k :: 0 <= k < |rs| && Unreadable(mem, vsp + 4 * k)
    decreases |rs|
  {
    if rs != [] {
      if Unreadable(mem, vsp) {
        assert Unreadable(mem, vsp + 4 * 0);
      } else {
        var next := regs[rs[0] := mem(vsp).value];
        LoadedMeans(mem, vsp + 4, rs[1..], next);
        var after := Loaded(mem, vsp + 4, rs[1..], next);
        if after.Some? {
          forall k | 0 <= k < |rs| ensures Holds(mem, vsp + 4 * k, after.value[rs[k]]) {
            if k > 0 {
              assert rs[k] == rs[1..][k - 1] && Holds(mem, (vsp + 4) + 4 * (k - 1), after.value[rs[1..][k - 1]]);
            } else {
              assert rs[0] !in rs[1..];
            }
          }
        } else {
          var k :| 0 <= k < |rs| - 1 && Unreadable(mem, (vsp + 4) + 4 * k);
          assert Unreadable(mem, vsp + 4 * (k + 1));
        }
      }
    }
  }

  ghost predicate Unreadable(mem: Memory, address: int) {
    mem(address).None?
  }

  ghost predicate Holds(mem: Memory, address: int, value: int) {
    mem(address).Some? && mem(address).value == value
  }

  /** Every instruction names registers 0 to 15 only, in ascending order where it pops several. */
  lemma {:induction false} DecodeWellFormed(insn: byte, operand: byte)
    ensures WellFormed(Decode(insn, operand))
  {
    assert Pow2(4) == 16 && Pow2(12) == 4096 by { assert Pow2(8) == 16 * Pow2(4); }
    if 128 <= insn < 144 {
      MaskOrder((insn - 128) * 256 + operand, 4, 12);
    } else if insn == 177 && operand < 16 {
      MaskOrder(operand, 0, 4);
    }
  }

  // ----- one instruction, one frame -----

  /** Registers and the code bytes left. */
  datatype Machine = Machine(regs: Registers, code: seq<Option<byte>>)

  /** The next byte: zero past the end of the code, None if it is unreadable. */
  ghost function Fetch(code: seq<Option<byte>>): Option<byte> {
    if code == [] then Some(0) else code[0]
  }

  ghost function Rest(code: seq<Option<byte>>): seq<Option<byte>> {
    if code == [] then [] else code[1..]
  }

  ghost function Step(mem: Memory, m: Machine): (r: Outcome<Machine>)
    ensures r.Ok? && m.code != [] ==> |r.value.code| < |m.code|
  {
    var insn := Fetch(m.code);
    if insn.None? then Crashed
    else
      var code := Rest(m.code);
      var operand := if HasOperand(insn.value) then Fetch(code) else Some(0);
      if operand.None? then Crashed
      else
        var op := Decode(insn.value, operand.value);
        DecodeWellFormed(insn.value, operand.value);
        match Effect(mem, op, m.regs)
        case None => Failed
        case Some(regs) => Ok(Machine(regs, if op.Finish? then [] else if HasOperand(insn.value)
            then Rest(code) else code))
  }

  /** All the code, with the stack pointer checked after every instruction. */
  ghost function Run(mem: Memory, low: int, high: int, m: Machine): (r: Outcome<Registers>)
    ensures r.Ok? && m.code != [] ==> low <= r.value[SP] < high
    decreases |m.code|
  {
    if m.code == [] then Ok(m.regs)
    else match Step(mem, m)
      case Failed => Failed
      case Crashed => Crashed
      case Ok(next) => if low <= next.regs[SP] < high then Run(mem, low, high, next) else Failed
  }

  datatype Frame = Frame(fp: int, sp: int, lr: int, pc: int)

  datatype Cursor = Cursor(insn: int, entries: int, i: nat)

  /** ramdump.py prel31_to_addr, of the word `value` at `address`. */
  function Prel31(address: nat, value: nat): nat {
    var offset := if value / 0x4000_0000 % 2 == 1 && value / 0x8000_0000 % 2 == 0 then value + 0x8000_0000 else value;
    var temp := address + offset;
    temp % 0x1_0000_0000 + temp / 0x1_0000_0000 % 0x1_0000_0000
  }

  /** Where the code of a table entry begins. */
  function CodeAddress(mem: Memory, e: Entry): Outcome<int> {
    if e.insn == 1 then Failed
    else if e.insn / 0x8000_0000 % 2 == 0 then
      (match mem(e.place + 4) case None => Crashed case Some(value) => Ok(Prel31(e.place + 4, value)))
    else if e.insn / 0x100_0000 % 256 == 128 then Ok(e.place + 4)
    else Failed
  }

  /** The first word says how many code words there are and where the code starts in it. */
  function Header(insn: int, value: nat): (c: Option<Cursor>)
    ensures c.Some? ==> c.value.entries >= 1 && c.value.i <= 3
  {
    if ByteOf(value, 3) == 128 then Some(Cursor(insn, 1, 2))
    else if ByteOf(value, 3) == 129 then Some(Cursor(insn, 1 + ByteOf(value, 2), 1))
    else None
  }

  function Start(mem: Memory, e: Entry): (r: Outcome<Cursor>)
    ensures r.Ok? ==> r.value.entries >= 1 && r.value.i <= 3
  {
    match CodeAddress(mem, e)
    case Failed => Failed
    case Crashed => Crashed
    case Ok(insn) =>
      match mem(insn)
      case None => Crashed
      case Some(value) => match Header(insn, value) case None => Failed case Some(c) => Ok(c)
  }

  /** The stack pointer must stay below this: the next thread-size boundary and one thread size more. */
  function High(low: int, threadSize: nat): (high: int)
    requires threadSize > 0
    ensures low + threadSize <= high < low + 2 * threadSize && high % threadSize == 0
  {
    var up := low + (threadSize - 1);
    Aligned(up / threadSize, threadSize);
    up / threadSize * threadSize + threadSize
  }

  /** For a thread size that is a power of two this is what masking with the complement of the size less one gives. */
  lemma {:induction false} HighMasks(low: nat, bits: nat)
    ensures var size := Pow2(bits); High(low, size) == B.Without(low + (size - 1), size - 1) + size
  {
    WithoutOnes(low + (Pow2(bits) - 1), bits);
  }

  lemma {:induction false} WithoutOnes(v: nat, bits: nat)
    ensures B.Without(v, Pow2(bits) - 1) == v / Pow2(bits) * Pow2(bits)
    decreases bits
  {
    hide B.Without;
    if bits == 0 {
      B.WithoutZero(v);
      assert v / 1 == v;
    } else {
      var d := Pow2(bits - 1);
      B.Halves(v, 2 * d - 1);
      B.Halve(d - 1, 1);
      assert (2 * d - 1) == 2 * (d - 1) + 1;
      WithoutOnes(v / 2, bits - 1);
      B.DivTwice(v, d);
      B.Twice(v / 2 / d, d);
    }
  }

  lemma {:induction false} Aligned(q: int, d: nat)
    requires d > 0
    ensures (q * d + d) % d == 0
  {
    assert q * d + d == d * (q + 1) + 0;
    DivUnique(q * d + d, d, q + 1, 0);
  }

  ghost function Initial(f: Frame): Registers {
    seq(16, r => if r == FP then f.fp else if r == SP then f.sp else if r == LR then f.lr else 0)
  }

  /** What an Unwinder is set up with: its table, the address of the table, and the size of a thread's stack. */
  datatype Unwinder = Unwinder(table: seq<Entry>, startIdx: nat, threadSize: nat)

  /** The table as read from the dump, up to the first entry that cannot be read. */
  function ReadTable(mem: Memory, address: nat, stop: nat): seq<Entry>
    decreases stop - address
  {
    if address >= stop || mem(address).None? || mem(address + 4).None? then []
    else [Entry(mem(address).value, mem(address + 4).value, address)] + ReadTable(mem, address + 8, stop)
  }

  /** The table entry for a program counter. */
  function FindEntry(u: Unwinder, pc: int): Option<Entry> {
    match Search(u.table, Origin(u.table), u.startIdx, pc)
    case None => None
    case Some(i) => Some(u.table[i])
  }

  /** The caller's frame. */
  ghost function Caller(mem: Memory, u: Unwinder, f: Frame): (r: Outcome<Frame>)
    requires u.threadSize > 0
    ensures r.Ok? ==> f.sp <= r.value.sp < High(f.sp, u.threadSize) && r.value.pc != f.pc
  {
    match FindEntry(u, f.pc)
    case None => Failed
    case Some(e) =>
      match Start(mem, e)
      case Failed => Failed
      case Crashed => Crashed
      case Ok(c) =>
        match Run(mem, f.sp, High(f.sp, u.threadSize), Machine(Initial(f), Code(mem, c.insn, c.entries, c.i)))
        case Failed => Failed
        case Crashed => Crashed
        case Ok(regs) =>
          var pc := if regs[PC] == 0 then regs[LR] else regs[PC];
          if f.pc == pc then Failed else Ok(Frame(regs[FP], regs[SP], regs[LR], pc))
  }

  // ----- the control block -----

  class Stackframe {
    var fp: int
    var sp: int
    var lr: int
    var pc: int

    constructor (f: Frame)
      ensures Value() == f
    {
      fp, sp, lr, pc := f.fp, f.sp, f.lr, f.pc;
    }

    function Value(): Frame reads this {
      Frame(fp, sp, lr, pc)
    }
  }

  class UnwindCtrlBlock {
    const vrs: array<int>
    var insn: int
    var entries: int
    var i: nat

    ghost predicate Valid() reads this {
      vrs.Length == 16 && i <= 3
    }

    ghost function State(mem: Memory): Machine
      requires Valid()
      reads this, vrs
    {
      Machine(vrs[..], Code(mem, insn, entries, i))
    }

    constructor (f: Frame, c: Cursor)
      requires c.i <= 3
      ensures Valid() && fresh(vrs)
      ensures forall mem :: State(mem) == Machine(Initial(f), Code(mem, c.insn, c.entries, c.i))
    {
      vrs := new int[16](_ => 0);
      insn, entries, i := c.insn, c.entries, c.i;
      new;
      vrs[FP], vrs[SP], vrs[LR], vrs[PC] := f.fp, f.sp, f.lr, 0;
      assert vrs[..] == Initial(f);
    }

    /** ramdump.py unwind_get_byte. */
    method GetByte(mem: Memory) returns (b: Option<byte>)
      requires Valid()
      modifies this
      ensures Valid()
      ensures b == Fetch(old(State(mem).code))
      ensures b.Some? ==> Code(mem, insn, entries, i) == Rest(old(State(mem).code))
    {
      hide Code;
      if entries <= 0 {
        return Some(0);
      }
      CodeSplit(mem, insn, entries, i);
      var val := mem(insn);
      if val.None? {
        return None;
      }
      b := Some(ByteOf(val.value, i));
      if i == 0 {
        insn := insn + 4;
        entries := entries - 1;
        i := 3;
      } else {
        i := i - 1;
      }
    }

    /** The mask loops: `reg` is the register of the lowest bit. */
    method PopMask(mem: Memory, mask: nat, reg: nat) returns (vsp: int, ok: bool)
      requires Valid() && InFile(MaskRegs(mask, reg))
      modifies vrs
      ensures var rs := MaskRegs(mask, reg); var sp := old(vrs[SP]);
              var after := Loaded(mem, sp, rs, old(vrs[..]));
              ok == after.Some? && (ok ==> vrs[..] == after.value && vsp == sp + 4 * |rs|)
    {
      vsp := vrs[SP];
      ok := true;
      var m: nat, r: nat := mask, reg;
      while m > 0
        invariant InFile(MaskRegs(m, r))
        invariant Loaded(mem, old(vrs[SP]), MaskRegs(mask, reg), old(vrs[..]))
                == Loaded(mem, vsp, MaskRegs(m, r), vrs[..])
        invariant vsp + 4 * |MaskRegs(m, r)| == old(vrs[SP]) + 4 * |MaskRegs(mask, reg)|
        decreases m
      {
        ghost var rs, rest, was := MaskRegs(m, r), MaskRegs(m / 2, r + 1), vrs[..];
        if m % 2 == 1 {
          assert rs[0] == r && rs[1..] == rest;
          var w := mem(vsp);
          if w.None? {
            return vsp, false;
          }
          vrs[r] := w.value;
          assert vrs[..] == was[r := w.value];
          vsp := vsp + 4;
        } else {
          assert rs == rest;
        }
        assert InFile(rest);
        m, r := m / 2, r + 1;
      }
    }

    /** The range loop: registers 4 to `last`, then the link register. */
    method PopRange(mem: Memory, last: nat) returns (vsp: int, ok: bool)
      requires Valid() && 4 <= last <= 11
      modifies vrs
      ensures var rs := Range(4, last + 1) + [LR]; var sp := old(vrs[SP]);
              InFile(rs) && SP !in rs && (var after := Loaded(mem, sp, rs, old(vrs[..]));
              ok == after.Some? && (ok ==> vrs[..] == after.value && vsp == sp + 4 * |rs|))
    {
      hide Loaded;
      vsp := vrs[SP];
      ok := true;
      ghost var all := Range(4, last + 1) + [LR];
      assert all[0..] == all;
      var r: nat := 4;
      while r <= last
        invariant 4 <= r <= last + 1
        invariant Loaded(mem, old(vrs[SP]), all, old(vrs[..])) == Loaded(mem, vsp, all[r - 4..], vrs[..])
        invariant vsp == old(vrs[SP]) + 4 * (r - 4)
      {
        LoadedStep(mem, vsp, all, r - 4, vrs[..]);
        ghost var was := vrs[..];
        var w := mem(vsp);
        if w.None? {
          return vsp, false;
        }
        vrs[r] := w.value;
        assert vrs[..] == was[r := w.value];
        vsp := vsp + 4;
        r := r + 1;
      }
      LoadedStep(mem, vsp, all, r - 4, vrs[..]);
      ghost var was := vrs[..];
      var w := mem(vsp);
      if w.None? {
        return vsp, false;
      }
      vrs[LR] := w.value;
      assert vrs[..] == was[LR := w.value];
      vsp := vsp + 4;
    }

    /** ramdump.py unwind_exec_insn: its operand byte is fetched, then its branches are taken. After a failure the
        control block is abandoned. */
    method ExecInsn(mem: Memory) returns (urc: Outcome<()>)
      requires Valid()
      modifies this, vrs
      ensures Valid()
      ensures match Step(mem, old(State(mem)))
              case Failed => urc == Failed
              case Crashed => urc == Crashed
              case Ok(next) => urc == Ok(()) && State(mem) == next
    {
      hide Effect, Decode;
      hide Code;
      var fetched := GetByte(mem);
      if fetched.None? {
        return Crashed;
      }
      var insn := fetched.value;
      var operand: byte := 0;
      if HasOperand(insn) {
        var second := GetByte(mem);
        if second.None? {
          return Crashed;
        }
        operand := second.value;
      }
      var ok := Execute(mem, insn, operand);
      if !ok {
        return Failed;
      }
      urc := Ok(());
    }

    method Execute(mem: Memory, insn: byte, operand: byte) returns (ok: bool)
      requires Valid()
      modifies this`entries, vrs
      ensures WellFormed(Decode(insn, operand))
      ensures match Effect(mem, Decode(insn, operand), old(vrs[..]))
              case None => !ok
              case Some(regs) => ok && vrs[..] == regs
      ensures entries == if ok && Decode(insn, operand).Finish? then 0 else old(entries)
    {
      hide Loaded, MaskRegs, Range, InFile, Increasing;
      DecodeWellFormed(insn, operand);
      ghost var regs := vrs[..];
      if insn < 64 {
        vrs[SP] := vrs[SP] + 4 * insn + 4;
      } else if insn < 128 {
        vrs[SP] := vrs[SP] - (4 * (insn - 64) + 4);
      } else if insn < 144 {
        var mask: nat := (insn - 128) * 256 + operand;
        if mask == 0 {
          return false;
        }
        var vsp: int;
        vsp, ok := PopMask(mem, mask, 4);
        MaskMeans(mask, 4, 9);
        if ok && !Bit(mask, 9) {
          vrs[SP] := vsp;
        }
        return;
      } else if insn < 160 && insn != 157 && insn != 159 {
        vrs[SP] := vrs[insn - 144];
      } else if 160 <= insn < 176 {
        var vsp: int;
        vsp, ok := PopRange(mem, 4 + insn % 8);
        if ok {
          vrs[SP] := vsp;
        }
        return;
      } else if insn == 176 {
        if vrs[PC] == 0 {
          vrs[PC] := vrs[LR];
        }
        entries := 0;
      } else if insn == 177 {
        if operand == 0 || operand >= 16 {
          return false;
        }
        var vsp: int;
        vsp, ok := PopMask(mem, operand, 0);
        LowMask(operand);
        if ok {
          vrs[SP] := vsp;
        }
        return;
      } else if insn == 178 {
        vrs[SP] := vrs[SP] + 0x204 + 4 * operand;
      } else {
        return false;
      }
      ok := true;
    }
  }

  lemma {:induction false} LoadedStep(mem: Memory, vsp: int, rs: seq<nat>, k: nat, regs: Registers)
    requires InFile(rs) && k < |rs|
    ensures Loaded(mem, vsp, rs[k..], regs)
         == match mem(vsp) case None => None case Some(w) => Loaded(mem, vsp + 4, rs[k + 1..], regs[rs[k] := w])
    ensures forall v, r :: Loaded(mem, v, rs[|rs|..], r) == Some(r)
  {
    assert rs[k..][1..] == rs[k + 1..];
  }

  lemma {:induction false} LowMask(mask: nat)
    requires mask < 16
    ensures SP !in MaskRegs(mask, 0)
  {
    assert Pow2(4) == 16;
    MaskOrder(mask, 0, 4);
  }

  // ----- a frame, and a backtrace -----

  /** ramdump.py unwind_frame_tables. It ends on every memory image; unless it succeeds the frame stays as it was. */
  method UnwindFrame(mem: Memory, u: Unwinder, frame: Stackframe)
      returns (urc: Outcome<()>)
    requires u.threadSize > 0
    modifies frame
    ensures match Caller(mem, u, old(frame.Value()))
            case Failed => urc == Failed && frame.Value() == old(frame.Value())
            case Crashed => urc == Crashed && frame.Value() == old(frame.Value())
            case Ok(f) => urc == Ok(()) && frame.Value() == f
  {
    hide Step, Code, Run;
    var low, high := frame.sp, High(frame.sp, u.threadSize);
    var origin := FindOrigin(u.table);
    var idx := SearchIdx(u.table, origin, u.startIdx, frame.pc);
    if idx.None? {
      return Failed;
    }
    var start := Start(mem, u.table[idx.value]);
    if !start.Ok? {
      return if start.Failed? then Failed else Crashed;
    }
    var ctrl := new UnwindCtrlBlock(frame.Value(), start.value);
    urc := RunCode(mem, ctrl, low, high);
    if !urc.Ok? {
      return;
    }
    if ctrl.vrs[PC] == 0 {
      ctrl.vrs[PC] := ctrl.vrs[LR];
    }
    if frame.pc == ctrl.vrs[PC] {
      return Failed;
    }
    frame.fp, frame.sp, frame.lr, frame.pc := ctrl.vrs[FP], ctrl.vrs[SP], ctrl.vrs[LR], ctrl.vrs[PC];
  }

  /** The loop of unwind_frame_tables: every instruction takes at least one byte of the code. */
  method RunCode(mem: Memory, ctrl: UnwindCtrlBlock, low: int, high: int) returns (urc: Outcome<()>)
    requires ctrl.Valid()
    modifies ctrl, ctrl.vrs
    ensures ctrl.Valid()
    ensures match Run(mem, low, high, old(ctrl.State(mem)))
            case Failed => urc == Failed
            case Crashed => urc == Crashed
            case Ok(regs) => urc == Ok(()) && ctrl.vrs[..] == regs
  {
    hide Step, Code;
    ghost var begin := ctrl.State(mem);
    while ctrl.entries > 0
      invariant ctrl.Valid()
      invariant Run(mem, low, high, begin) == Run(mem, low, high, ctrl.State(mem))
      decreases if ctrl.entries <= 0 then 0 else 4 * (ctrl.entries - 1) + ctrl.i + 1
    {
      urc := ctrl.ExecInsn(mem);
      if !urc.Ok? {
        return;
      }
      if ctrl.vrs[SP] < low || ctrl.vrs[SP] >= high {
        return Failed;
      }
    }
    urc := Ok(());
  }

  /** An entry is the two words at its own address. */
  ghost predicate EntryAt(mem: Memory, e: Entry, address: nat) {
    e.place == address && mem(address) == Some(e.offset) && mem(address + 4) == Some(e.insn)
  }

  /** ramdump.py Unwinder.__init__: the table is read entry by entry. */
  method LoadTable(mem: Memory, start: nat, end: nat) returns (t: seq<Entry>)
    ensures t == ReadTable(mem, start, end)
    ensures forall i :: 0 <= i < |t| ==> EntryAt(mem, t[i], start + 8 * i)
    ensures start + 8 * |t| >= end || mem(start + 8 * |t|).None? || mem(start + 8 * |t| + 4).None?
  {
    t := [];
    var address: nat := start;
    while address < end
      invariant address == start + 8 * |t|
      invariant t + ReadTable(mem, address, end) == ReadTable(mem, start, end)
      invariant forall i :: 0 <= i < |t| ==> EntryAt(mem, t[i], start + 8 * i)
      decreases end - address
    {
      var a, b := mem(address), mem(address + 4);
      if a.None? || b.None? {
        break;
      }
      ghost var e := Entry(a.value, b.value, address);
      assert (t + [e]) + ReadTable(mem, address + 8, end) == t + ([e] + ReadTable(mem, address + 8, end));
      t := t + [Entry(a.value, b.value, address)];
      address := address + 8;
    }
  }

  /** Frame `n` of the backtrace that starts with `f`, if it gets that far. */
  ghost function Nth(mem: Memory, u: Unwinder, f: Frame, n: nat): Option<Frame>
    requires u.threadSize > 0
  {
    if n == 0 then Some(f)
    else match Nth(mem, u, f, n - 1)
      case None => None
      case Some(g) => match Caller(mem, u, g) case Ok(h) => Some(h) case _ => None
  }

  /** The stack pointer never falls along a backtrace, and rises by less than two thread sizes a frame; neighbouring
      frames differ in their program counter. */
  lemma {:induction false} StackNeverFalls(mem: Memory, u: Unwinder, f: Frame, i: nat, j: nat)
    requires u.threadSize > 0 && i <= j && Nth(mem, u, f, j).Some?
    ensures Nth(mem, u, f, i).Some?
    ensures var a, b := Nth(mem, u, f, i).value, Nth(mem, u, f, j).value;
            a.sp <= b.sp <= a.sp + 2 * u.threadSize * (j - i) && (j == i + 1 ==> a.pc != b.pc)
    decreases j
  {
    hide Caller;
    if i < j {
      StackNeverFalls(mem, u, f, i, j - 1);
      assert 2 * u.threadSize * (j - i) == 2 * u.threadSize * (j - 1 - i) + 2 * u.threadSize;
    }
  }

  // ----- when a backtrace has no end -----

  /** Every readable word is in `s`. */
  ghost predicate Closed(mem: Memory, s: set<int>) {
    forall a: int :: mem(a).Some? ==> mem(a).value in s
  }

  ghost predicate Within(regs: Registers, s: set<int>) {
    regs[FP] in s && regs[LR] in s && regs[PC] in s
  }

  lemma {:induction false} LoadedWithin(mem: Memory, vsp: int, rs: seq<nat>, regs: Registers, s: set<int>)
    requires InFile(rs) && Closed(mem, s) && Within(regs, s)
    ensures var r := Loaded(mem, vsp, rs, regs); r.Some? ==> Within(r.value, s)
    decreases |rs|
  {
    if rs != [] && mem(vsp).Some? {
      LoadedWithin(mem, vsp + 4, rs[1..], regs[rs[0] := mem(vsp).value], s);
    }
  }

  /** Frame pointer, link register and program counter only ever hold words of the dump, or what they held. */
  lemma {:induction false} RunWithin(mem: Memory, low: int, high: int, m: Machine, s: set<int>)
    requires Closed(mem, s) && Within(m.regs, s)
    ensures var r := Run(mem, low, high, m); r.Ok? ==> Within(r.value, s)
    decreases |m.code|
  {
    hide Loaded, Decode, Closed;
    if m.code != [] {
      StepWithin(mem, m, s);
      hide Step;
      var next := Step(mem, m);
      if next.Ok? {
        RunWithin(mem, low, high, next.value, s);
      }
    }
  }

  lemma {:induction false} StepWithin(mem: Memory, m: Machine, s: set<int>)
    requires Closed(mem, s) && Within(m.regs, s)
    ensures var r := Step(mem, m); r.Ok? ==> Within(r.value.regs, s)
  {
    hide Loaded, Decode, Closed;
    if Step(mem, m).Ok? {
      var insn := Fetch(m.code).value;
      var operand := if HasOperand(insn) then Fetch(Rest(m.code)).value else 0;
      DecodeWellFormed(insn, operand);
      var op := Decode(insn, operand);
      if op.Pop? {
        LoadedWithin(mem, m.regs[SP], op.regs, m.regs, s);
      }
    }
  }

  lemma {:induction false} CallerWithin(mem: Memory, u: Unwinder, f: Frame, s: set<int>)
    requires u.threadSize > 0 && Closed(mem, s) && 0 in s && f.fp in s && f.lr in s && Caller(mem, u, f).Ok?
    ensures var g := Caller(mem, u, f).value; g.fp in s && g.lr in s && g.pc in s
  {
    hide Run, Closed, Code, FindEntry, Start;
    var c := Start(mem, FindEntry(u, f.pc).value).value;
    RunWithin(mem, f.sp, High(f.sp, u.threadSize), Machine(Initial(f), Code(mem, c.insn, c.entries, c.i)), s);
  }

  /** Nothing is readable from `top` on. */
  ghost predicate EndsAt(mem: Memory, top: int) {
    forall a: int :: a >= top ==> Unreadable(mem, a)
  }

  /** Every pop takes at least one word. */
  lemma {:induction false} PopTakes(insn: byte, operand: byte)
    ensures var op := Decode(insn, operand); op.Pop? ==> op.regs != []
  {
    hide MaskRegs;
    if 128 <= insn < 144 && (insn - 128) * 256 + operand > 0 {
      MaskNonempty((insn - 128) * 256 + operand, 4);
    } else if insn == 177 && operand > 0 {
      MaskNonempty(operand, 0);
    }
  }

  lemma {:induction false} MaskNonempty(mask: nat, reg: nat)
    requires mask > 0
    ensures MaskRegs(mask, reg) != []
    decreases mask
  {
    if mask % 2 == 0 {
      MaskNonempty(mask / 2, reg + 1);
    }
  }

  /** Code that runs above all readable memory pops nothing: it can only copy the link register to the program
      counter. */
  lemma {:induction false} RunAbove(mem: Memory, low: int, high: int, m: Machine, top: int)
    requires EndsAt(mem, top) && low >= top && m.regs[SP] >= low && (m.regs[PC] == 0 || m.regs[PC] == m.regs[LR])
    ensures var r := Run(mem, low, high, m);
            r.Ok? ==> r.value[LR] == m.regs[LR] && (r.value[PC] == 0 || r.value[PC] == m.regs[LR])
    decreases |m.code|
  {
    hide EndsAt;
    if m.code != [] {
      StepAbove(mem, m, top);
      hide Step;
      var next := Step(mem, m);
      if next.Ok? && low <= next.value.regs[SP] < high {
        RunAbove(mem, low, high, next.value, top);
      }
    }
  }

  lemma {:induction false} StepAbove(mem: Memory, m: Machine, top: int)
    requires EndsAt(mem, top) && m.regs[SP] >= top && (m.regs[PC] == 0 || m.regs[PC] == m.regs[LR])
    ensures var r := Step(mem, m);
            r.Ok? ==> r.value.regs[LR] == m.regs[LR] && (r.value.regs[PC] == 0 || r.value.regs[PC] == m.regs[LR])
  {
    hide Decode;
    if Step(mem, m).Ok? {
      var insn := Fetch(m.code).value;
      var operand := if HasOperand(insn) then Fetch(Rest(m.code)).value else 0;
      DecodeWellFormed(insn, operand);
      PopTakes(insn, operand);
      assert Unreadable(mem, m.regs[SP]);
    }
  }

  lemma {:induction false} CallerAbove(mem: Memory, u: Unwinder, f: Frame, top: int)
    requires u.threadSize > 0 && EndsAt(mem, top) && f.sp >= top && Caller(mem, u, f).Ok?
    ensures var g := Caller(mem, u, f).value; g.pc == f.lr && g.lr == f.lr
  {
    hide Run, EndsAt, Code, FindEntry, Start;
    var c := Start(mem, FindEntry(u, f.pc).value).value;
    RunAbove(mem, f.sp, High(f.sp, u.threadSize), Machine(Initial(f), Code(mem, c.insn, c.entries, c.i)), top);
  }

  /** A frame that is followed by two more has its stack pointer in readable memory. */
  lemma {:induction false} BelowTop(mem: Memory, u: Unwinder, f: Frame, n: nat, top: int)
    requires u.threadSize > 0 && EndsAt(mem, top) && Nth(mem, u, f, n + 2).Some?
    ensures Nth(mem, u, f, n).Some? && Nth(mem, u, f, n).value.sp < top
  {
    hide Caller, EndsAt;
    StackNeverFalls(mem, u, f, n, n + 2);
    StackNeverFalls(mem, u, f, n, n + 1);
    StackNeverFalls(mem, u, f, n + 1, n + 2);
    var a, b := Nth(mem, u, f, n).value, Nth(mem, u, f, n + 1).value;
    if a.sp >= top {
      CallerAbove(mem, u, a, top);
      CallerAbove(mem, u, b, top);
    }
  }

  lemma {:induction false} NthWithin(mem: Memory, u: Unwinder, f: Frame, n: nat, s: set<int>)
    requires u.threadSize > 0 && Closed(mem, s) && 0 in s && f.fp in s && f.lr in s && f.pc in s &&
            Nth(mem, u, f, n).Some?
    ensures var g := Nth(mem, u, f, n).value; g.fp in s && g.lr in s && g.pc in s
    decreases n
  {
    hide Caller, Closed;
    if n > 0 {
      NthWithin(mem, u, f, n - 1, s);
      CallerWithin(mem, u, Nth(mem, u, f, n - 1).value, s);
    }
  }

  /** Frames with registers in `s` and a stack pointer from `low` up to `top`. */
  ghost function Frames(s: set<int>, low: int, top: int): set<Frame> {
    set fp, lr, pc, sp | fp in s && lr in s && pc in s && low <= sp < top :: Frame(fp, sp, lr, pc)
  }

  /** More frames than there are in a set: one comes twice. */
  lemma {:induction false} Pigeonhole(fs: seq<Frame>, all: set<Frame>) returns (i: nat, j: nat)
    requires |fs| > |all| && forall k :: 0 <= k < |fs| ==> fs[k] in all
    ensures i < j < |fs| && fs[i] == fs[j]
    decreases |fs|
  {
    var n := |fs| - 1;
    if k :| 0 <= k < n && fs[k] == fs[n] {
      i, j := k, n;
    } else {
      i, j := Pigeonhole(fs[..n], all - {fs[n]});
    }
  }

  /** The backtrace goes on for ever. */
  ghost predicate Endless(mem: Memory, u: Unwinder, f: Frame)
    requires u.threadSize > 0
  {
    forall n: nat :: Nth(mem, u, f, n).Some?
  }

  /** Some frame of the backtrace comes twice. */
  ghost predicate Repeats(mem: Memory, u: Unwinder, f: Frame)
    requires u.threadSize > 0
  {
    exists i: nat, j: nat :: i < j && Nth(mem, u, f, i).Some? && Nth(mem, u, f, i) == Nth(mem, u, f, j)
  }

  lemma {:induction false} SameAfter(mem: Memory, u: Unwinder, f: Frame, i: nat, j: nat, k: nat)
    requires u.threadSize > 0 && Nth(mem, u, f, i) == Nth(mem, u, f, j)
    ensures Nth(mem, u, f, i + k) == Nth(mem, u, f, j + k)
    decreases k
  {
    hide Caller;
    if k > 0 {
      SameAfter(mem, u, f, i, j, k - 1);
    }
  }

  lemma {:induction false} RepeatGoesOn(mem: Memory, u: Unwinder, f: Frame, i: nat, j: nat, n: nat)
    requires u.threadSize > 0 && i < j && Nth(mem, u, f, i).Some? && Nth(mem, u, f, i) == Nth(mem, u, f, j)
    ensures Nth(mem, u, f, n).Some?
    decreases n
  {
    hide Nth;
    if n <= j {
      StackNeverFalls(mem, u, f, n, j);
    } else {
      SameAfter(mem, u, f, i, j, n - j);
      RepeatGoesOn(mem, u, f, i, j, i + (n - j));
    }
  }

  /** On a dump with finitely many readable words a backtrace goes on for ever if and only if one of its frames comes
      twice; the test for an unchanged program counter only excludes repetitions at once. */
  lemma {:induction false} EndlessExactly(mem: Memory, readable: set<int>, u: Unwinder, f: Frame)
    requires u.threadSize > 0 && forall a: int :: mem(a).Some? ==> a in readable
    ensures Endless(mem, u, f) <==> Repeats(mem, u, f)
  {
    hide Nth;
    if Repeats(mem, u, f) {
      var i: nat, j: nat :| i < j && Nth(mem, u, f, i).Some? && Nth(mem, u, f, i) == Nth(mem, u, f, j);
      forall n: nat
        ensures Nth(mem, u, f, n).Some?
      {
        RepeatGoesOn(mem, u, f, i, j, n);
      }
    } else if Endless(mem, u, f) {
      var i, j := FindRepeat(mem, readable, u, f);
    }
  }

  lemma {:induction false} FindRepeat(mem: Memory, readable: set<int>, u: Unwinder, f: Frame) returns (i: nat, j: nat)
    requires u.threadSize > 0 && forall a: int :: mem(a).Some? ==> a in readable
    requires Endless(mem, u, f)
    ensures i < j && Nth(mem, u, f, i) == Nth(mem, u, f, j)
  {
    hide Nth;
    var top := UpperBound(readable);
    var s: set<int> := (set a | a in readable && mem(a).Some? :: mem(a).value as int) + {0, f.fp, f.lr, f.pc};
    var all := Frames(s, f.sp, top);
    var fs := seq(|all| + 1, k requires k >= 0 => Nth(mem, u, f, k).value);
    assert Closed(mem, s) && EndsAt(mem, top);
    forall k | 0 <= k < |fs|
      ensures fs[k] in all
    {
      InUniverse(mem, u, f, k, s, top);
    }
    i, j := Pigeonhole(fs, all);
  }

  lemma {:induction false} InUniverse(mem: Memory, u: Unwinder, f: Frame, k: nat, s: set<int>, top: int)
    requires u.threadSize > 0 && Closed(mem, s) && EndsAt(mem, top) && 0 in s && f.fp in s && f.lr in s && f.pc in s
    requires Nth(mem, u, f, k + 2).Some?
    ensures Nth(mem, u, f, k).Some? && Nth(mem, u, f, k).value in Frames(s, f.sp, top)
  {
    hide Caller, Closed, EndsAt;
    BelowTop(mem, u, f, k, top);
    NthWithin(mem, u, f, k, s);
    StackNeverFalls(mem, u, f, 0, k);
  }

  ghost function Pick<T>(s: set<T>): (x: T)
    requires |s| > 0
    ensures x in s
  {
    var x :| x in s; x
  }

  lemma {:induction false} UpperBound(s: set<int>) returns (top: int)
    ensures forall a: int | a in s :: a < top
    decreases |s|
  {
    if |s| == 0 {
      top := 0;
    } else {
      var x := Pick(s);
      var rest := UpperBound(s - {x});
      top := if x < rest then rest else x + 1;
      forall a: int | a in s
        ensures a < top
      {
        assert a == x || a in s - {x};
      }
    }
  }

  // ----- a backtrace without end -----

  /** A table of two functions at 1000 and a stack at 0: the function at 1 pops the link register and lowers the stack
      pointer again, the function at 2 does so past r4. */
  function LoopMemory(address: int): Option<nat> {
    if address == 0 then Some(2) else if address == 4 then Some(1)
    else if address == 1000 then Some(TWO31 - 999) else if address == 1004 then Some(0x8084_0040)
    else if address == 1008 then Some(TWO31 - 1006) else if address == 1012 then Some(0x8084_0141)
    else None
  }

  function LoopUnwinder(): (u: Unwinder)
    ensures u.threadSize > 0
  {
    Unwinder(ReadTable(LoopMemory, 1000, 1016), 1000, 8192)
  }

  /** The table finds both functions. */
  lemma {:induction false} LoopEntries()
    ensures FindEntry(LoopUnwinder(), 1) == Some(Entry(TWO31 - 999, 0x8084_0040, 1000))
    ensures FindEntry(LoopUnwinder(), 2) == Some(Entry(TWO31 - 1006, 0x8084_0141, 1008))
  {
    var a, b := Entry(TWO31 - 999, 0x8084_0040, 1000), Entry(TWO31 - 1006, 0x8084_0141, 1008);
    var t := ReadTable(LoopMemory, 1000, 1016);
    assert ReadTable(LoopMemory, 1016, 1016) == [];
    assert ReadTable(LoopMemory, 1008, 1016) == [b];
    assert t == [a, b];
    OriginUnique(t, 2);
    DivUnique(1 - 1000, TWO31, -1, TWO31 - 999);
    DivUnique(2 - 1000, TWO31, -1, TWO31 - 998);
    assert SearchFrom(t, 0, 2, TWO31 - 999) == SearchFrom(t, 0, 1, TWO31 - 999) == Some(0);
    assert SearchFrom(t, 0, 2, TWO31 - 998) == SearchFrom(t, 1, 2, TWO31 - 1006) == Some(1);
  }

  lemma {:induction false} PopThenLower(mem: Memory, regs: Registers, operand: byte, lower: byte, rs: seq<nat>,
                                        loaded: Registers, high: int)
    requires MaskRegs(1024 + operand, 4) == rs && InFile(rs) && SP !in rs && LR in rs
    requires Loaded(mem, regs[SP], rs, regs) == Some(loaded)
    requires 64 <= lower < 128 && 4 * |rs| == 4 * (lower - 64) + 4
    requires regs[SP] + 4 * |rs| < high
    ensures Run(mem, regs[SP], high, Machine(regs, [Some(132), Some(operand), Some(lower)]))
            == Ok(loaded[SP := regs[SP]])
  {
    hide Loaded, MaskRegs, Range;
    var m := Machine(regs, [Some(132), Some(operand), Some(lower)]);
    var next := Machine(loaded[SP := regs[SP] + 4 * |rs|], [Some(lower)]);
    var last := Machine(loaded[SP := regs[SP]], []);
    assert Rest(Rest(m.code)) == next.code;
    assert Step(mem, m) == Ok(next);
    assert next.regs[SP := regs[SP]] == last.regs;
    assert Step(mem, next) == Ok(last);
    assert Run(mem, regs[SP], high, last) == Ok(last.regs);
  }

  /** The three code bytes of an entry whose own word holds them. */
  lemma {:induction false} ShortEntry(mem: Memory, e: Entry, b: byte, c: byte, d: byte)
    requires e.insn == 0x8000_0000 + b * 0x1_0000 + c * 0x100 + d && mem(e.place + 4) == Some(e.insn)
    ensures Start(mem, e) == Ok(Cursor(e.place + 4, 1, 2))
    ensures Code(mem, e.place + 4, 1, 2) == [Some(b), Some(c), Some(d)]
  {
    var insn := e.place + 4;
    assert e.insn / 256 == 0x80_0000 + b * 0x100 + c;
    CodeSplit(mem, insn, 1, 2);
    CodeSplit(mem, insn, 1, 1);
    CodeSplit(mem, insn, 1, 0);
  }

  /** The caller of a frame at the bottom of the stack whose code pops the link register and lowers the stack pointer
      by as much as it rose. */
  lemma {:induction false} CallerInPlace(f: Frame, e: Entry, operand: byte, lower: byte, rs: seq<nat>,
                                         loaded: Registers)
    requires FindEntry(LoopUnwinder(), f.pc) == Some(e) && f.sp == 0
    requires e.insn == 0x8084_0000 + operand * 0x100 + lower && LoopMemory(e.place + 4) == Some(e.insn)
    requires MaskRegs(1024 + operand, 4) == rs && InFile(rs) && SP !in rs && LR in rs
    requires 64 <= lower < 128 && 4 * |rs| == 4 * (lower - 64) + 4
    requires Loaded(LoopMemory, 0, rs, Initial(f)) == Some(loaded) && loaded[PC] == 0 && loaded[LR] != f.pc
    ensures Caller(LoopMemory, LoopUnwinder(), f) == Ok(Frame(loaded[FP], 0, loaded[LR], loaded[LR]))
  {
    hide Run, MaskRegs, Loaded, Code, Start, High, FindEntry, ReadTable;
    ShortEntry(LoopMemory, e, 132, operand, lower);
    PopThenLower(LoopMemory, Initial(f), operand, lower, rs, loaded, High(0, 8192));
  }

  lemma {:induction false} LoopThere()
    ensures Caller(LoopMemory, LoopUnwinder(), Frame(0, 0, 1, 1)) == Ok(Frame(0, 0, 2, 2))
  {
    hide Caller, Loaded, MaskRegs, FindEntry, LoopUnwinder;
    var a := Frame(0, 0, 1, 1);
    LoopMasks();
    LoopEntries();
    LoadedStep(LoopMemory, 0, [14], 0, Initial(a));
    assert [14][0..] == [14] && [14][1..] == [14][|[14]|..];
    CallerInPlace(a, Entry(TWO31 - 999, 0x8084_0040, 1000), 0, 64, [14], Initial(a)[14 := 2]);
  }

  lemma {:induction false} LoopBack()
    ensures Caller(LoopMemory, LoopUnwinder(), Frame(0, 0, 2, 2)) == Ok(Frame(0, 0, 1, 1))
  {
    hide Caller, Loaded, MaskRegs, FindEntry, LoopUnwinder;
    var b, rs := Frame(0, 0, 2, 2), [4, 14];
    LoopMasks();
    LoopEntries();
    LoadedStep(LoopMemory, 0, rs, 0, Initial(b));
    LoadedStep(LoopMemory, 4, rs, 1, Initial(b)[4 := 2]);
    assert rs[0..] == rs && rs[2..] == rs[|rs|..];
    CallerInPlace(b, Entry(TWO31 - 1006, 0x8084_0141, 1008), 1, 65, rs, Initial(b)[4 := 2][14 := 1]);
  }

  /** Two frames that are each other's caller, so that on this dump the backtrace has every number of frames. */
  lemma {:induction false} BacktraceCanLoop(n: nat)
    ensures Nth(LoopMemory, LoopUnwinder(), Frame(0, 0, 1, 1), n)
         == Some(if n % 2 == 0 then Frame(0, 0, 1, 1) else Frame(0, 0, 2, 2))
    decreases n
  {
    hide Caller, LoopUnwinder;
    LoopThere();
    LoopBack();
    if n > 0 {
      BacktraceCanLoop(n - 1);
    }
  }

  lemma {:induction false} LoopMasks()
    ensures MaskRegs(1024, 4) == [14] && MaskRegs(1025, 4) == [4, 14]
  {
    assert MaskRegs(1, 14) == [14];
    assert MaskRegs(4, 12) == [14];
    assert MaskRegs(16, 10) == [14];
    assert MaskRegs(64, 8) == [14];
    assert MaskRegs(256, 6) == [14];
    assert MaskRegs(512, 5) == [14];
  }
}
