/** CRC-32 as the partitioner and the programmer compute it (ptool.py, msp.py).

    The code shifts a 32-bit register towards its most significant bit, feeds it bit-reversed bytes
    and bit-reverses the result. The reference below is the reflected form of IEEE 802.3
    section 3.2.9: the register shifts towards bit 0 and each byte is added up front.

    A machine word is the sequence of its bits, bit 0 first. */
module Crc {
  import opened Arith
  import opened Bytes

  type Bits = seq<bool>
  type Word = s: Bits | |s| == 32 witness
    [false, false, false, false, false, false, false, false,
     false, false, false, false, false, false, false, false,
     false, false, false, false, false, false, false, false,
     false, false, false, false, false, false, false, false]

  function BitsOf(v: nat, n: nat): (s: Bits)
    ensures |s| == n
    decreases n
  {
    if n == 0 then [] else [v % 2 == 1] + BitsOf(v / 2, n - 1)
  }

  function Value(s: Bits): nat {
    if s == [] then 0 else (if s[0] then 1 else 0) + 2 * Value(s[1..])
  }

  function Xor(a: Bits, b: Bits): (r: Bits)
    requires |a| == |b|
    ensures |r| == |a|
    ensures forall i :: 0 <= i < |r| ==> r[i] == (a[i] != b[i])
  {
    seq(|a|, i requires 0 <= i < |a| => a[i] != b[i])
  }

  function Reverse(s: Bits): (r: Bits)
    ensures |r| == |s|
    ensures forall i :: 0 <= i < |r| ==> r[i] == s[|s| - 1 - i]
  {
    seq(|s|, i requires 0 <= i < |s| => s[|s| - 1 - i])
  }

  function Zeros(n: nat): (r: Bits)
    ensures |r| == n
    ensures forall i :: 0 <= i < n ==> !r[i]
  {
    seq(n, _ => false)
  }

  /** The exponents of the IEEE polynomial, that is the set bits of 0x04C11DB7. */
  const EXPONENTS: set<int> := {0, 1, 2, 4, 5, 7, 8, 10, 11, 12, 16, 22, 23, 26}

  function Poly(): (w: Word)
    ensures forall i :: 0 <= i < 32 ==> w[i] == (i in EXPONENTS)
  {
    seq(32, i => i in EXPONENTS)
  }

  function PolyReflected(): (w: Word)
    ensures forall i :: 0 <= i < 32 ==> w[i] == (31 - i in EXPONENTS)
  {
    seq(32, i => 31 - i in EXPONENTS)
  }

  function Ones(): (w: Word)
    ensures forall i :: 0 <= i < 32 ==> w[i]
  {
    seq(32, _ => true)
  }

  // ----- reference -----

  /** One shift of the reflected register. */
  function Shift(c: Word): Word {
    var t := c[1..] + [false];
    if c[0] then Xor(t, PolyReflected()) else t
  }

  function ShiftBy(c: Word, n: nat): Word {
    if n == 0 then c else Shift(ShiftBy(c, n - 1))
  }

  /** Bytes as the low end of a word: the first byte in bits 0 to 7. */
  function WordOf(s: seq<byte>): (w: Word)
    requires |s| <= 4
  {
    LowBits(s) + Zeros(32 - 8 * |s|)
  }

  function LowBits(s: seq<byte>): (w: Bits)
    ensures |w| == 8 * |s|
  {
    if s == [] then [] else BitsOf(s[0], 8) + LowBits(s[1..])
  }

  /** The register after the bytes `s`, starting from `c`: add a byte, shift eight times. */
  function Register(c: Word, s: seq<byte>): Word {
    if s == [] then c else ShiftBy(Xor(Register(c, s[..|s| - 1]), WordOf([s[|s| - 1]])), 8)
  }

  function Crc32(s: seq<byte>): nat {
    Value(Xor(Register(Ones(), s), Ones()))
  }

  // ----- the code's register -----

  function Step(regs: Word, bit: bool): Word {
    var t := [false] + regs[..31];
    if regs[31] != bit then Xor(t, Poly()) else t
  }

  /** Reversal turns a step of the code's register into a step of the reference register. */
  lemma {:induction false} StepReversed(regs: Word, bit: bool)
    ensures Reverse(Step(regs, bit)) == Shift(Xor(Reverse(regs), [bit] + Zeros(31)))
  {
    var fed := Xor(Reverse(regs), [bit] + Zeros(31));
    assert fed[0] == (regs[31] != bit) && fed[1..] == Reverse(regs)[1..];
    hide Xor, Reverse, Zeros;
    assert Reverse([false] + regs[..31]) == fed[1..] + [false];
    assert Reverse(Poly()) == PolyReflected();
    if fed[0] {
      ReverseXor([false] + regs[..31], Poly());
    }
  }

  lemma {:induction false} ReverseXor(x: Word, y: Word)
    ensures Reverse(Xor(x, y)) == Xor(Reverse(x), Reverse(y))
  {
  }

  /** Data bits above the lowest one wait unchanged, one place lower, while the register shifts. */
  lemma {:induction false} ShiftXor(x: Word, d: Word)
    ensures Shift(Xor(x, d)) == Xor(Shift(Xor(x, [d[0]] + Zeros(31))), d[1..] + [false])
  {
  }

  lemma {:induction false} ShiftInjective(x: Word, y: Word)
    requires Shift(x) == Shift(y)
    ensures x == y
  {
    assert Shift(x)[31] == x[0] && Shift(y)[31] == y[0];
    forall i | 1 <= i < 32
      ensures x[i] == y[i]
    {
      assert Shift(x)[i - 1] == Shift(y)[i - 1];
    }
  }

  // ----- the polynomial -----

  lemma {:induction false} ValueCons(b: bool, s: Bits)
    ensures Value([b] + s) == One(b) + 2 * Value(s) && Value([]) == 0
  {
    assert ([b] + s)[1..] == s;
  }

  /** Later bits weigh more. */
  lemma {:induction false} ValueConcat(s: Bits, t: Bits)
    ensures Value(s + t) == Value(s) + Pow2(|s|) * Value(t)
  {
    hide Value;
    if s == [] {
      assert s + t == t;
      ValueCons(true, []);
    } else {
      var b, r := s[0], s[1..];
      assert s == [b] + r && s + t == [b] + (r + t);
      ValueCons(b, r);
      ValueCons(b, r + t);
      ValueConcat(r, t);
      Doubled(Pow2(|r|), Value(t));
    }
  }

  lemma {:induction false} Doubled(x: nat, y: nat)
    ensures (2 * x) * y == 2 * (x * y)
  {
  }

  lemma {:induction false} NibbleValue(a: bool, b: bool, c: bool, d: bool)
    ensures Value([a, b, c, d]) == One(a) + 2 * One(b) + 4 * One(c) + 8 * One(d)
  {
    hide Value, One;
    ValueCons(d, []);
    ValueCons(c, [d]);
    ValueCons(b, [c, d]);
    ValueCons(a, [b, c, d]);
    assert [d] + [] == [d];
    assert [c] + [d] == [c, d];
    assert [b] + [c, d] == [b, c, d];
    assert [a] + [b, c, d] == [a, b, c, d];
  }

  lemma {:induction false} ByteValue(a: bool, b: bool, c: bool, d: bool, e: bool, f: bool, g: bool, h: bool)
    ensures Value([a, b, c, d, e, f, g, h]) == One(a) + 2 * One(b) + 4 * One(c) + 8 * One(d)
                                               + 16 * (One(e) + 2 * One(f) + 4 * One(g) + 8 * One(h))
  {
    hide Value, One;
    NibbleValue(a, b, c, d);
    NibbleValue(e, f, g, h);
    ValueConcat([a, b, c, d], [e, f, g, h]);
    assert [a, b, c, d] + [e, f, g, h] == [a, b, c, d, e, f, g, h];
    assert Pow2(4) == 16;
  }

  function One(b: bool): nat { if b then 1 else 0 }

  lemma {:induction false} WordValue(w: Word, b0: nat, b1: nat, b2: nat, b3: nat)
    requires Value(w[0..8]) == b0 && Value(w[8..16]) == b1 && Value(w[16..24]) == b2 && Value(w[24..32]) == b3
    ensures Value(w) == b0 + 0x100 * b1 + 0x1_0000 * b2 + 0x100_0000 * b3
  {
    hide Value;
    assert Pow2(8) == 256;
    assert w == w[0..8] + (w[8..16] + (w[16..24] + w[24..32]));
    ValueConcat(w[16..24], w[24..32]);
    ValueConcat(w[8..16], w[16..24] + w[24..32]);
    ValueConcat(w[0..8], w[8..16] + (w[16..24] + w[24..32]));
  }

  /** The generator of the code is 0x04C11DB7, and its reflection 0xEDB88320. */
  lemma {:induction false} PolyValue()
    ensures Value(Poly()) == 0x04C11DB7
  {
    hide Value;
    var w := Poly();
    assert w[0..8] == [true, true, true, false, true, true, false, true];
    ByteValue(true, true, true, false, true, true, false, true);
    assert w[8..16] == [true, false, true, true, true, false, false, false];
    ByteValue(true, false, true, true, true, false, false, false);
    assert w[16..24] == [true, false, false, false, false, false, true, true];
    ByteValue(true, false, false, false, false, false, true, true);
    assert w[24..32] == [false, false, true, false, false, false, false, false];
    ByteValue(false, false, true, false, false, false, false, false);
    WordValue(w, 183, 29, 193, 4);
  }

  lemma {:induction false} PolyReflectedValue()
    ensures Value(PolyReflected()) == 0xEDB88320
  {
    hide Value;
    var w := PolyReflected();
    assert w[0..8] == [false, false, false, false, false, true, false, false];
    ByteValue(false, false, false, false, false, true, false, false);
    assert w[8..16] == [true, true, false, false, false, false, false, true];
    ByteValue(true, true, false, false, false, false, false, true);
    assert w[16..24] == [false, false, false, true, true, true, false, true];
    ByteValue(false, false, false, true, true, true, false, true);
    assert w[24..32] == [true, false, true, true, false, true, true, true];
    ByteValue(true, false, true, true, false, true, true, true);
    WordValue(w, 32, 131, 184, 237);
  }

  // ----- the code -----

  /** ptool.py reflect: bit 0 of `data` goes to the top of `reflection`, and so on down. */
  method Reflect(data: Bits, nBits: nat) returns (reflection: Bits)
    requires nBits <= |data|
    ensures reflection == Reverse(data[..nBits])
  {
    reflection := Zeros(nBits);
    var rest := data;
    for bit := 0 to nBits
      invariant |reflection| == nBits && rest == data[bit..]
      invariant forall i :: 0 <= i < nBits ==> reflection[i] == (nBits - bit <= i && data[nBits - 1 - i])
    {
      if rest[0] {
        reflection := reflection[(nBits - 1) - bit := true];
      }
      rest := rest[1..];
    }
  }

  /** The inner loop of CalcCRC32: eight register steps over one bit-reversed byte. */
  method FeedByte(start: Word, b: byte) returns (regs: Word)
    ensures Reverse(regs) == ShiftBy(Xor(Reverse(start), WordOf([b])), 8)
  {
    hide *;
    regs := start;
    var dataByte := Reflect(BitsOf(b, 8), 8);
    ReversedByte(BitsOf(b, 8));
    ghost var word: Word := BitsOf(b, 8) + Zeros(24);
    WordOfByte(b);
    ghost var fed := Xor(Reverse(start), word);
    ShiftByZero(fed);
    assert word[0..] + Zeros(0) == word;
    for j := 0 to 8
      invariant |dataByte| == 8 && forall i :: j <= i < 8 ==> dataByte[i] == word[7 + j - i]
      invariant Xor(Reverse(regs), word[j..] + Zeros(j)) == ShiftBy(fed, j)
    {
      var msb := dataByte[7];
      FeedRound(regs, word, j);
      ShiftBySucc(fed, j);
      regs := Step(regs, msb);
      dataByte := [false] + dataByte[..7];
    }
    XorZeros(Reverse(regs), word[8..] + Zeros(8));
  }

  lemma {:induction false} ReversedByte(s: Bits)
    requires |s| == 8
    ensures |Reverse(s[..8])| == 8 && forall i :: 0 <= i < 8 ==> Reverse(s[..8])[i] == s[7 - i]
  {
  }

  lemma {:induction false} XorZeros(x: Word, z: Word)
    requires forall i :: 0 <= i < 32 ==> !z[i]
    ensures Xor(x, z) == x
  {
  }

  lemma {:induction false} ShiftByZero(c: Word)
    ensures ShiftBy(c, 0) == c
  {
  }

  lemma {:induction false} ShiftBySucc(c: Word, n: nat)
    ensures ShiftBy(c, n + 1) == Shift(ShiftBy(c, n))
  {
  }

  lemma {:induction false} WordOfByte(b: byte)
    ensures WordOf([b]) == BitsOf(b, 8) + Zeros(24)
  {
    assert LowBits([b]) == BitsOf(b, 8) + LowBits([]);
  }

  /** One round: the data bits still waiting are one place lower after the step. */
  lemma {:induction false} FeedRound(regs: Word, word: Word, j: nat)
    requires j < 8
    ensures Xor(Reverse(Step(regs, word[j])), word[j + 1..] + Zeros(j + 1))
         == Shift(Xor(Reverse(regs), word[j..] + Zeros(j)))
  {
    hide Shift, Step, Reverse, Xor;
    var d: Word := word[j..] + Zeros(j);
    StepReversed(regs, word[j]);
    ShiftXor(Reverse(regs), d);
    assert d[1..] + [false] == word[j + 1..] + Zeros(j + 1);
  }

  /** ptool.py and msp.py CalcCRC32 compute the reflected CRC-32 of the first `len` bytes. */
  method CalcCRC32(data: seq<byte>, len: nat) returns (crc: nat)
    requires len <= |data|
    ensures crc == Crc32(data[..len])
  {
    var regs := Ones();
    assert Reverse(regs) == Ones();
    for i := 0 to len
      invariant Reverse(regs) == Register(Ones(), data[..i])
    {
      regs := FeedByte(regs, data[i]);
      assert data[..i + 1][..i] == data[..i];
    }
    var reflected := Reflect(regs, 32);
    assert regs[..32] == regs;
    crc := Value(Xor(reflected, Ones()));
  }

  // ----- what the checksum detects -----

  lemma {:induction false} ShiftByInjective(x: Word, y: Word, n: nat)
    requires ShiftBy(x, n) == ShiftBy(y, n)
    ensures x == y
    decreases n
  {
    if n > 0 {
      ShiftInjective(ShiftBy(x, n - 1), ShiftBy(y, n - 1));
      ShiftByInjective(x, y, n - 1);
    }
  }

  lemma {:induction false} XorCancels(x: Word, y: Word, d: Word)
    requires Xor(x, d) == Xor(y, d)
    ensures x == y
  {
    forall i | 0 <= i < 32
      ensures x[i] == y[i]
    {
      assert Xor(x, d)[i] == Xor(y, d)[i];
    }
  }

  /** Equal bytes keep distinct registers distinct. */
  lemma {:induction false} RegisterInjective(c: Word, c': Word, s: seq<byte>)
    requires Register(c, s) == Register(c', s)
    ensures c == c'
  {
    if s != [] {
      var front, w := s[..|s| - 1], WordOf([s[|s| - 1]]);
      var x, y := Register(c, front), Register(c', front);
      ShiftByInjective(Xor(x, w), Xor(y, w), 8);
      XorCancels(x, y, w);
      RegisterInjective(c, c', front);
    }
  }

  lemma {:induction false} RegisterConcat(c: Word, s: seq<byte>, t: seq<byte>)
    ensures Register(c, s + t) == Register(Register(c, s), t)
  {
    if t == [] {
      assert s + t == s;
    } else {
      var front := t[..|t| - 1];
      assert (s + t)[..|s + t| - 1] == s + front;
      RegisterConcat(c, s, front);
    }
  }

  /** Bits that will not reach bit 0 within `n` shifts ride along, `n` places lower. */
  lemma {:induction false} ShiftByXor(x: Word, d: Word, n: nat)
    requires n <= 32 && forall i :: 0 <= i < n ==> !d[i]
    ensures ShiftBy(Xor(x, d), n) == Xor(ShiftBy(x, n), d[n..] + Zeros(n))
    decreases n
  {
    hide *;
    if n == 0 {
      ShiftByZero(x);
      ShiftByZero(Xor(x, d));
      assert d[0..] + Zeros(0) == d;
    } else {
      ShiftBySucc(x, n - 1);
      ShiftBySucc(Xor(x, d), n - 1);
      var d' := d[n - 1..] + Zeros(n - 1);
      ShiftByXor(x, d, n - 1);
      var y := ShiftBy(x, n - 1);
      ShiftXor(y, d');
      assert Xor(y, [d'[0]] + Zeros(31)) == y;
      assert d'[1..] + [false] == d[n..] + Zeros(n);
    }
  }

  /** A byte placed `k` bits up in a word. */
  function Late(b: byte, k: nat): (w: Word)
    requires k <= 24
  {
    Zeros(k) + BitsOf(b, 8) + Zeros(24 - k)
  }

  lemma {:induction false} XorAssoc(x: Word, y: Word, z: Word)
    ensures Xor(Xor(x, y), z) == Xor(x, Xor(y, z))
  {
  }

  /** Adding a byte after `k` shifts is adding it `k` bits up before them. */
  lemma {:induction false} LateByte(x: Word, b: byte, k: nat)
    requires k <= 24
    ensures ShiftBy(Xor(ShiftBy(x, k), WordOf([b])), 8) == ShiftBy(Xor(x, Late(b, k)), k + 8)
  {
    hide BitsOf, Shift, ShiftBy, WordOf, Xor, Zeros;
    var d := Late(b, k);
    ShiftByXor(x, d, k);
    WordOfByte(b);
    assert d[k..] + Zeros(k) == WordOf([b]);
    ShiftByAdd(Xor(x, d), k, 8);
  }

  /** Up to four bytes act as one word added before any shift. */
  lemma {:induction false} RegisterOfWord(c: Word, s: seq<byte>)
    requires |s| <= 4
    ensures Register(c, s) == ShiftBy(Xor(c, WordOf(s)), 8 * |s|)
  {
    hide ShiftBy, Late, Xor, WordOf, Register;
    RegisterLast(c, s);
    if s == [] {
      ShiftByZero(c);
      NoBytes(c);
    } else {
      var front, last := s[..|s| - 1], s[|s| - 1];
      var k := 8 * |front|;
      RegisterOfWord(c, front);
      WordOfLast(s);
      LateByte(Xor(c, WordOf(front)), last, k);
      XorAssoc(c, WordOf(front), Late(last, k));
    }
  }

  lemma {:induction false} RegisterLast(c: Word, s: seq<byte>)
    ensures s == [] ==> Register(c, s) == c
    ensures s != [] ==> Register(c, s) == ShiftBy(Xor(Register(c, s[..|s| - 1]), WordOf([s[|s| - 1]])), 8)
  {
  }

  lemma {:induction false} NoBytes(c: Word)
    ensures Xor(c, WordOf([])) == c
  {
    XorZeros(c, WordOf([]));
  }

  lemma {:induction false} LowBitsLast(s: seq<byte>)
    requires s != []
    ensures LowBits(s) == LowBits(s[..|s| - 1]) + BitsOf(s[|s| - 1], 8)
  {
    hide BitsOf;
    if |s| > 1 {
      var t, f := s[1..], s[..|s| - 1];
      LowBitsLast(t);
      assert t[..|t| - 1] == f[1..] && t[|t| - 1] == s[|s| - 1] && f[0] == s[0];
      assert LowBits(f) == BitsOf(s[0], 8) + LowBits(f[1..]);
    } else {
      assert s[1..] == [] && s[..0] == [];
    }
  }

  lemma {:induction false} WordOfLast(s: seq<byte>)
    requires 1 <= |s| <= 4
    ensures var k := 8 * (|s| - 1);
            WordOf(s) == Xor(WordOf(s[..|s| - 1]), Late(s[|s| - 1], k))
  {
    LowBitsLast(s);
  }

  lemma {:induction false} ShiftByAdd(c: Word, m: nat, n: nat)
    ensures ShiftBy(ShiftBy(c, m), n) == ShiftBy(c, m + n)
    decreases n
  {
    if n > 0 {
      ShiftByAdd(c, m, n - 1);
    }
  }

  lemma {:induction false} LowBitsInjective(s: seq<byte>, t: seq<byte>)
    requires |s| == |t| && LowBits(s) == LowBits(t)
    ensures s == t
  {
    if s != [] {
      LowBitsFirst(s);
      LowBitsFirst(t);
      hide BitsOf, Value, LowBits, Pow2;
      ByteOfBits(s[0]);
      ByteOfBits(t[0]);
      LowBitsInjective(s[1..], t[1..]);
      assert s == [s[0]] + s[1..] && t == [t[0]] + t[1..];
    }
  }

  lemma {:induction false} ValueOfBits(v: nat, n: nat)
    requires v < Pow2(n)
    ensures Value(BitsOf(v, n)) == v
    decreases n
  {
    if n > 0 {
      ValueOfBits(v / 2, n - 1);
      assert BitsOf(v, n)[1..] == BitsOf(v / 2, n - 1);
    }
  }

  lemma {:induction false} LowBitsFirst(s: seq<byte>)
    requires s != []
    ensures LowBits(s)[..8] == BitsOf(s[0], 8) && LowBits(s)[8..] == LowBits(s[1..])
  {
    hide BitsOf;
  }

  lemma {:induction false} ByteOfBits(b: byte)
    ensures Value(BitsOf(b, 8)) == b
  {
    assert Pow2(8) == 256;
    ValueOfBits(b, 8);
  }

  lemma {:induction false} ValueInjective(s: Bits, t: Bits)
    requires |s| == |t| && Value(s) == Value(t)
    ensures s == t
  {
    if s != [] {
      ValueInjective(s[1..], t[1..]);
      assert s == [s[0]] + s[1..] && t == [t[0]] + t[1..];
    }
  }

  lemma {:induction false} ValueBound(s: Bits)
    ensures Value(s) < Pow2(|s|)
  {
    if s != [] {
      ValueBound(s[1..]);
    }
  }

  /** A checksum fits the four bytes that store it. */
  lemma {:induction false} CrcFits(s: seq<byte>)
    ensures Crc32(s) < 0x1_0000_0000
  {
    ValueBound(Xor(Register(Ones(), s), Ones()));
    assert Pow2(8) == 256;
    assert Pow2(16) == 0x1_0000;
    assert Pow2(24) == 0x100_0000;
  }

  /** Any change confined to four consecutive bytes changes the checksum. */
  lemma {:induction false} BurstDetected(a: seq<byte>, b: seq<byte>, lo: nat, hi: nat)
    requires |a| == |b| && lo <= hi <= |a| && hi - lo <= 4
    requires forall i :: 0 <= i < |a| && !(lo <= i < hi) ==> a[i] == b[i]
    requires a != b
    ensures Crc32(a) != Crc32(b)
  {
    hide Register, Xor, Value, ShiftBy, Ones;
    var pre, suf := a[..lo], a[hi..];
    var m, m' := a[lo..hi], b[lo..hi];
    assert a == pre + (m + suf) && b == pre + (m' + suf);
    if Crc32(a) == Crc32(b) {
      ValueInjective(Xor(Register(Ones(), a), Ones()), Xor(Register(Ones(), b), Ones()));
      XorCancels(Register(Ones(), a), Register(Ones(), b), Ones());
      var c := Register(Ones(), pre);
      RegisterConcat(Ones(), pre, m + suf);
      RegisterConcat(Ones(), pre, m' + suf);
      RegisterConcat(c, m, suf);
      RegisterConcat(c, m', suf);
      RegisterInjective(Register(c, m), Register(c, m'), suf);
      WindowInjective(c, m, m');
      assert false;
    }
  }

  lemma {:induction false} WindowInjective(c: Word, m: seq<byte>, m': seq<byte>)
    requires |m| == |m'| <= 4 && Register(c, m) == Register(c, m')
    ensures m == m'
  {
    RegisterOfWord(c, m);
    RegisterOfWord(c, m');
    var w, w' := WordOf(m), WordOf(m');
    ShiftByInjective(Xor(c, w), Xor(c, w'), 8 * |m|);
    assert Xor(w, c) == Xor(c, w) && Xor(w', c) == Xor(c, w');
    XorCancels(w, w', c);
    assert LowBits(m) == w[..8 * |m|] && LowBits(m') == w'[..8 * |m|];
    LowBitsInjective(m, m');
  }

  // ----- initial value and final complement -----

  lemma {:induction false} ShiftZero(n: nat)
    ensures ShiftBy(Zeros(32), n) == Zeros(32)
    decreases n
  {
    if n > 0 {
      ShiftZero(n - 1);
      assert Zeros(32)[1..] + [false] == Zeros(32);
    }
  }

  /** No bytes have the checksum 0. */
  lemma {:induction false} CrcOfNothing()
    ensures Crc32([]) == 0
  {
    assert Xor(Ones(), Ones()) == Zeros(32);
    ValueOfZeros(32);
  }

  lemma {:induction false} ValueOfZeros(n: nat)
    ensures Value(Zeros(n)) == 0
    decreases n
  {
    if n > 0 {
      ValueOfZeros(n - 1);
      assert Zeros(n)[1..] == Zeros(n - 1);
    }
  }

  /** Four bytes 0xFF cancel the initial value; the complement of what is left is all ones. */
  lemma {:induction false} CrcOfOnes()
    ensures Crc32([0xFF, 0xFF, 0xFF, 0xFF]) == 0xFFFFFFFF
  {
    hide Register, ShiftBy, Value, Xor;
    var s: seq<byte> := [0xFF, 0xFF, 0xFF, 0xFF];
    OnesWord();
    RegisterOfWord(Ones(), s);
    assert Xor(Ones(), Ones()) == Zeros(32);
    ShiftZero(32);
    assert Xor(Zeros(32), Ones()) == Ones();
    ValueOfOnes();
  }

  lemma {:induction false} OnesWord()
    ensures WordOf([0xFF, 0xFF, 0xFF, 0xFF]) == Ones()
  {
    hide BitsOf;
    OnesByte();
    var b := BitsOf(0xFF, 8);
    LowBitsFirst([0xFF, 0xFF, 0xFF, 0xFF]);
    LowBitsFirst([0xFF, 0xFF, 0xFF]);
    LowBitsFirst([0xFF, 0xFF]);
    LowBitsFirst([0xFF]);
    var w := LowBits([0xFF, 0xFF, 0xFF, 0xFF]);
    assert [0xFF, 0xFF, 0xFF, 0xFF][1..] == [0xFF, 0xFF, 0xFF] && [0xFF, 0xFF, 0xFF][1..] == [0xFF, 0xFF];
    assert [0xFF, 0xFF][1..] == [0xFF];
    assert w[..8] == b && w[8..][..8] == b && w[8..][8..][..8] == b && w[8..][8..][8..][..8] == b;
    forall i | 0 <= i < 32
      ensures w[i]
    {
      if i < 8 {
        assert w[i] == w[..8][i];
      } else if i < 16 {
        assert w[i] == w[8..][..8][i - 8];
      } else if i < 24 {
        assert w[i] == w[8..][8..][..8][i - 16];
      } else {
        assert w[i] == w[8..][8..][8..][..8][i - 24];
      }
    }
  }

  lemma {:induction false} OnesByte()
    ensures forall i :: 0 <= i < 8 ==> BitsOf(0xFF, 8)[i]
  {
    assert Pow2(8) == 256;
    AllOnes(255, 8);
  }

  lemma {:induction false} AllOnes(v: nat, n: nat)
    requires v == Pow2(n) - 1
    ensures forall i :: 0 <= i < n ==> BitsOf(v, n)[i]
    decreases n
  {
    if n > 0 {
      AllOnes(v / 2, n - 1);
    }
  }

  lemma {:induction false} ValueOfOnes()
    ensures Value(Ones()) == 0xFFFFFFFF
  {
    hide Value;
    var w, t := Ones(), [true, true, true, true, true, true, true, true];
    ByteValue(true, true, true, true, true, true, true, true);
    assert w[0..8] == t && w[8..16] == t && w[16..24] == t && w[24..32] == t;
    WordValue(w, 0xFF, 0xFF, 0xFF, 0xFF);
  }

  // ----- data followed by its checksum -----

  lemma {:induction false} BitsOfValue(s: Bits)
    ensures BitsOf(Value(s), |s|) == s
  {
    if s != [] {
      BitsOfValue(s[1..]);
      assert s == [s[0]] + s[1..];
      var v := Value(s[1..]);
      assert (One(s[0]) + 2 * v) / 2 == v;
    }
  }

  /** The bits of a number are those of its low byte and of the rest. */
  lemma {:induction false} BitsSplit(v: nat, n: nat)
    ensures BitsOf(v, 8 + n) == BitsOf(v % 256, 8) + BitsOf(v / 256, n)
  {
    assert Pow2(8) == 256;
    BitsSplitAt(v, v % 256, v / 256, 8, n);
  }

  lemma {:induction false} BitsSplitAt(v: nat, lo: nat, hi: nat, m: nat, n: nat)
    requires lo < Pow2(m) && v == lo + Pow2(m) * hi
    ensures BitsOf(v, m + n) == BitsOf(lo, m) + BitsOf(hi, n)
    decreases m
  {
    if m > 0 {
      var rest := Pow2(m - 1) * hi;
      assert Pow2(m) * hi == 2 * rest by { Doubled(Pow2(m - 1), hi); }
      assert v / 2 == lo / 2 + rest && v % 2 == lo % 2;
      BitsSplitAt(v / 2, lo / 2, hi, m - 1, n);
    }
  }

  /** The little-endian bytes of a word are the word. */
  lemma {:induction false} LowBitsLE(v: nat, n: nat)
    ensures LowBits(LE(v, n)) == BitsOf(v, 8 * n)
    decreases n
  {
    hide BitsOf;
    if n == 0 {
      NoneOf(v);
    } else {
      LowBitsLE(v / 256, n - 1);
      BitsSplit(v, 8 * (n - 1));
      assert LE(v, n)[1..] == LE(v / 256, n - 1) && LE(v, n)[0] == v % 256;
      LowBitsCons(v % 256, LE(v / 256, n - 1));
    }
  }

  lemma {:induction false} NoneOf(v: nat)
    ensures BitsOf(v, 0) == [] && LowBits(LE(v, 0)) == []
  {
  }

  lemma {:induction false} LowBitsCons(b: byte, s: seq<byte>)
    ensures LowBits([b] + s) == BitsOf(b, 8) + LowBits(s)
  {
    assert ([b] + s)[1..] == s;
  }

  /** Data followed by its own checksum has one and the same checksum, whatever the data. */
  lemma {:induction false} Residue(s: seq<byte>)
    ensures Crc32(s + LE(Crc32(s), 4)) == Crc32([0, 0, 0, 0])
  {
    hide Register, ShiftBy, Value, BitsOf, LE;
    ResidueRegister(s);
    ResidueRegister([]);
    CrcOfNothing();
    LEOfNothing();
    assert [] + LE(0, 4) == [0, 0, 0, 0];
  }

  lemma {:induction false} LEOfNothing()
    ensures LE(0, 4) == [0, 0, 0, 0]
  {
    LEZero();
    LEStep(0, 4, 0, 0);
    LEStep(0, 3, 0, 0);
    LEStep(0, 2, 0, 0);
    LEStep(0, 1, 0, 0);
  }

  lemma {:induction false} ResidueRegister(s: seq<byte>)
    ensures Register(Ones(), s + LE(Crc32(s), 4)) == ShiftBy(Ones(), 32)
  {
    hide Register, ShiftBy, Value, BitsOf, LE;
    var c := Register(Ones(), s);
    var crc := Xor(c, Ones());
    BitsOfValue(crc);
    LowBitsLE(Value(crc), 4);
    RegisterConcat(Ones(), s, LE(Crc32(s), 4));
    RegisterOfWord(c, LE(Crc32(s), 4));
    assert WordOf(LE(Crc32(s), 4)) == crc;
    assert Xor(c, crc) == Ones();
  }
}
