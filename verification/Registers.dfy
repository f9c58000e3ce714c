/** register.py and bitops.py: named bit fields of a value. */
module Registers {
  import opened Options
  import opened Arith

  // ----- bit operations on natural numbers -----

  /** `a & b`. */
  function And(a: nat, b: nat): nat {
    if a == 0 then 0 else (if a % 2 == 1 && b % 2 == 1 then 1 else 0) + 2 * And(a / 2, b / 2)
  }

  /** `a & ~b`. */
  function Without(a: nat, b: nat): nat {
    if a == 0 then 0 else (if a % 2 == 1 && b % 2 == 0 then 1 else 0) + 2 * Without(a / 2, b / 2)
  }

  /** `a | b`. */
  function Or(a: nat, b: nat): nat
    decreases a + b
  {
    if a == 0 then b else if b == 0 then a else (if a % 2 == 1 || b % 2 == 1 then 1 else 0) + 2 * Or(a / 2, b / 2)
  }

  /** bitops.py bm: the binary digits 1 from `msb` down to `lsb`, then zeros. */
  function Mask(msb: nat, lsb: nat): nat
    requires lsb <= msb
  {
    if lsb > 0 then 2 * Mask(msb - 1, lsb - 1) else if msb > 0 then 2 * Mask(msb - 1, 0) + 1 else 1
  }

  /** bitops.py bvalsel. */
  function Select(msb: nat, lsb: nat, v: nat): nat
    requires lsb <= msb
  {
    And(v, Mask(msb, lsb)) / Pow2(lsb)
  }

  /** The value after a field assignment. */
  function Assign(msb: nat, lsb: nat, v: nat, x: nat): nat
    requires lsb <= msb
  {
    Or(Without(v, Mask(msb, lsb)), x * Pow2(lsb))
  }

  // ----- as arithmetic -----

  lemma {:induction false} Halves(a: nat, b: nat)
    ensures And(a, b) / 2 == And(a / 2, b / 2) && And(a, b) % 2 == (if a % 2 == 1 && b % 2 == 1 then 1 else 0)
    ensures Without(a, b) / 2 == Without(a / 2, b / 2) &&
            Without(a, b) % 2 == (if a % 2 == 1 && b % 2 == 0 then 1 else 0)
    ensures Or(a, b) / 2 == Or(a / 2, b / 2) && Or(a, b) % 2 == (if a % 2 == 1 || b % 2 == 1 then 1 else 0)
  {
  }

  lemma {:induction false} DivTwice(v: nat, d: nat)
    requires d > 0
    ensures v / (2 * d) == v / 2 / d
    ensures v % (2 * d) == v % 2 + 2 * (v / 2 % d)
  {
    var h, b := v / 2, v % 2;
    var q, r := h / d, h % d;
    assert v == (2 * d) * q + (2 * r + b) by { assert h == d * q + r; }
    DivUnique(v, 2 * d, q, 2 * r + b);
  }

  /** Bits `msb` to `lsb` as a quotient and a remainder. */
  function Field(msb: nat, lsb: nat, v: nat): nat
    requires lsb <= msb
  {
    v / Pow2(lsb) % Pow2(msb - lsb + 1)
  }

  lemma {:induction false} FieldStep(msb: nat, lsb: nat, v: nat)
    requires lsb <= msb
    ensures lsb > 0 ==> Field(msb, lsb, v) == Field(msb - 1, lsb - 1, v / 2)
    ensures lsb == 0 < msb ==> Field(msb, 0, v) == v % 2 + 2 * Field(msb - 1, 0, v / 2)
    ensures msb == 0 ==> Field(0, 0, v) == v % 2
  {
    if lsb > 0 {
      DivTwice(v, Pow2(lsb - 1));
    } else if msb > 0 {
      DivTwice(v, Pow2(msb));
    } else {
      assert Pow2(1) == 2;
    }
  }

  lemma {:induction false} SelectStep(msb: nat, lsb: nat, v: nat)
    requires lsb <= msb
    ensures lsb > 0 ==> Select(msb, lsb, v) == Select(msb - 1, lsb - 1, v / 2)
    ensures lsb == 0 < msb ==> Select(msb, 0, v) == v % 2 + 2 * Select(msb - 1, 0, v / 2)
    ensures msb == 0 ==> Select(0, 0, v) == v % 2
  {
    hide And, Mask;
    var m := Mask(msb, lsb);
    MaskStep(msb, lsb);
    Halves(v, m);
    if lsb > 0 {
      DivTwice(And(v, m), Pow2(lsb - 1));
    } else if msb == 0 {
      AndZero(v / 2);
    }
  }

  lemma {:induction false} MaskStep(msb: nat, lsb: nat)
    requires lsb <= msb
    ensures lsb > 0 ==> Mask(msb, lsb) % 2 == 0 && Mask(msb, lsb) / 2 == Mask(msb - 1, lsb - 1)
    ensures lsb == 0 ==> Mask(msb, lsb) % 2 == 1 && Mask(msb, lsb) / 2 == if msb == 0 then 0 else Mask(msb - 1, 0)
  {
    if lsb > 0 {
      Halve(Mask(msb - 1, lsb - 1), 0);
    } else if msb > 0 {
      Halve(Mask(msb - 1, 0), 1);
    }
  }

  lemma {:induction false} Halve(h: nat, b: nat)
    requires b < 2
    ensures (2 * h + b) / 2 == h && (2 * h + b) % 2 == b
  {
  }

  /** Masking and shifting selects the field. */
  lemma {:induction false} SelectValue(msb: nat, lsb: nat, v: nat)
    requires lsb <= msb
    ensures Select(msb, lsb, v) == Field(msb, lsb, v)
    decreases msb
  {
    hide Select, Field;
    SelectStep(msb, lsb, v);
    FieldStep(msb, lsb, v);
    if lsb > 0 {
      SelectValue(msb - 1, lsb - 1, v / 2);
    } else if msb > 0 {
      SelectValue(msb - 1, 0, v / 2);
    }
  }

  lemma {:induction false} AndZero(v: nat)
    ensures And(v, 0) == 0
  {
    if v > 0 {
      AndZero(v / 2);
    }
  }

  lemma {:induction false} WithoutZero(v: nat)
    ensures Without(v, 0) == v
  {
    if v > 0 {
      WithoutZero(v / 2);
    }
  }

  /** An assignment peels off a bit at a time. */
  lemma {:induction false} AssignStep(msb: nat, lsb: nat, v: nat, x: nat)
    requires lsb <= msb
    ensures var a := Assign(msb, lsb, v, x);
            && a % 2 == (if lsb > 0 then v % 2 else x % 2)
            && (lsb > 0 ==> a / 2 == Assign(msb - 1, lsb - 1, v / 2, x))
            && (lsb == 0 < msb ==> a / 2 == Assign(msb - 1, 0, v / 2, x / 2))
            && (msb == 0 ==> a / 2 == Or(v / 2, x / 2))
  {
    hide Or, Without, Mask;
    var m := Mask(msb, lsb);
    MaskStep(msb, lsb);
    Halves(v, m);
    Halves(Without(v, m), x * Pow2(lsb));
    if lsb > 0 {
      Twice(x, Pow2(lsb - 1));
      Halve(x * Pow2(lsb - 1), 0);
    } else if msb == 0 {
      WithoutZero(v / 2);
    }
  }

  /** Assigning a value that fits replaces the field and nothing else. */
  lemma {:induction false} AssignValue(msb: nat, lsb: nat, v: nat, x: nat)
    requires lsb <= msb && x < Pow2(msb - lsb + 1)
    ensures Assign(msb, lsb, v, x) == v + (x - Field(msb, lsb, v)) * Pow2(lsb)
    decreases msb
  {
    hide Assign, Field;
    AssignStep(msb, lsb, v, x);
    FieldStep(msb, lsb, v);
    if lsb > 0 {
      AssignValue(msb - 1, lsb - 1, v / 2, x);
      Twice(x - Field(msb, lsb, v), Pow2(lsb - 1));
    } else if msb > 0 {
      AssignValue(msb - 1, 0, v / 2, x / 2);
    }
  }

  lemma {:induction false} Twice(y: int, d: nat)
    ensures y * (2 * d) == 2 * (y * d)
  {
  }

  /** Every bit after an assignment. Inside the field the new value's bits; below it and above it the old ones, but bits
      of a value too wide for the field are added to those above. */
  lemma {:induction false} AssignBits(msb: nat, lsb: nat, v: nat, x: nat, k: nat)
    requires lsb <= msb
    ensures Bit(Assign(msb, lsb, v, x), k)
        <==> if lsb <= k <= msb then Bit(x, k - lsb) else Bit(v, k) || (k > msb && Bit(x, k - lsb))
    decreases msb, k
  {
    hide Assign;
    AssignStep(msb, lsb, v, x);
    if k > 0 {
      if lsb > 0 {
        AssignBits(msb - 1, lsb - 1, v / 2, x, k - 1);
      } else if msb > 0 {
        AssignBits(msb - 1, 0, v / 2, x / 2, k - 1);
      } else {
        OrBits(v / 2, x / 2, k - 1);
      }
    }
  }

  lemma {:induction false} OrBits(a: nat, b: nat, k: nat)
    ensures Bit(Or(a, b), k) <==> Bit(a, k) || Bit(b, k)
    decreases k
  {
    Halves(a, b);
    if k > 0 {
      OrBits(a / 2, b / 2, k - 1);
    }
  }

  lemma {:induction false} HighBit(x: nat, w: nat) returns (k: nat)
    requires x >= Pow2(w)
    ensures k >= w && Bit(x, k)
    decreases x
  {
    if w > 0 {
      k := HighBit(x / 2, w - 1);
      k := k + 1;
    } else if x == 1 {
      k := 0;
    } else {
      k := HighBit(x / 2, 0);
      k := k + 1;
    }
  }

  lemma {:induction false} NoHighBits(x: nat, w: nat, k: nat)
    requires x < Pow2(w) && k >= w
    ensures !Bit(x, k)
    decreases w
  {
    if w == 0 {
      NoBits(k);
    } else {
      NoHighBits(x / 2, w - 1, k - 1);
    }
  }

  /** No assignment of `x` disturbs a bit outside the field. */
  ghost predicate Harmless(msb: nat, lsb: nat, x: nat)
    requires lsb <= msb
  {
    forall v: nat, k: nat :: !(lsb <= k <= msb) ==> (Bit(Assign(msb, lsb, v, x), k) <==> Bit(v, k))
  }

  /** The other fields of a register survive an assignment exactly when the value fits its own. */
  lemma {:induction false} HarmlessExactly(msb: nat, lsb: nat, x: nat)
    requires lsb <= msb
    ensures Harmless(msb, lsb, x) <==> x < Pow2(msb - lsb + 1)
  {
    var w := msb - lsb + 1;
    if x < Pow2(w) {
      forall v: nat, k: nat | !(lsb <= k <= msb)
        ensures Bit(Assign(msb, lsb, v, x), k) <==> Bit(v, k)
      {
        AssignBits(msb, lsb, v, x, k);
        if k > msb {
          NoHighBits(x, w, k - lsb);
        }
      }
    } else {
      var k := HighBit(x, w);
      AssignBits(msb, lsb, 0, x, k + lsb);
      NoBits(k + lsb);
      assert Bit(Assign(msb, lsb, 0, x), k + lsb) != Bit(0, k + lsb);
    }
  }

  /** What was assigned is read back, cut to the width of the field. */
  lemma {:induction false} SelectAssigned(msb: nat, lsb: nat, v: nat, x: nat)
    requires lsb <= msb
    ensures Select(msb, lsb, Assign(msb, lsb, v, x)) == x % Pow2(msb - lsb + 1)
  {
    SelectValue(msb, lsb, Assign(msb, lsb, v, x));
    FieldAssigned(msb, lsb, v, x);
    assert x / 1 == x;
  }

  lemma {:induction false} FieldAssigned(msb: nat, lsb: nat, v: nat, x: nat)
    requires lsb <= msb
    ensures Field(msb, lsb, Assign(msb, lsb, v, x)) == Field(msb - lsb, 0, x)
    decreases msb
  {
    hide Assign, Field, Pow2, Or;
    AssignStep(msb, lsb, v, x);
    FieldStep(msb, lsb, Assign(msb, lsb, v, x));
    if lsb > 0 {
      FieldAssigned(msb - 1, lsb - 1, v / 2, x);
    } else {
      FieldStep(msb, 0, x);
      if msb > 0 {
        FieldAssigned(msb - 1, 0, v / 2, x / 2);
      }
    }
  }

  /** A field that shares no bit with the assigned one keeps its value, if what was assigned fits. */
  lemma {:induction false} OtherFieldKept(msb: nat, lsb: nat, v: nat, x: nat, hi: nat, lo: nat)
    requires lsb <= msb && lo <= hi && (hi < lsb || msb < lo) && x < Pow2(msb - lsb + 1)
    ensures Field(hi, lo, Assign(msb, lsb, v, x)) == Field(hi, lo, v)
    decreases msb + hi
  {
    hide Assign, Field;
    var a := Assign(msb, lsb, v, x);
    AssignStep(msb, lsb, v, x);
    FieldStep(hi, lo, a);
    FieldStep(hi, lo, v);
    if lsb > 0 && lo > 0 {
      OtherFieldKept(msb - 1, lsb - 1, v / 2, x, hi - 1, lo - 1);
    } else if lsb > 0 && hi > 0 {
      OtherFieldKept(msb - 1, lsb - 1, v / 2, x, hi - 1, 0);
    } else if lsb == 0 && msb > 0 {
      OtherFieldKept(msb - 1, 0, v / 2, x / 2, hi - 1, lo - 1);
    }
  }

  /** Assigning an index too wide for its field to a value whose low bits are zero is still an addition: the spilled
      bits meet only zeros. */
  lemma {:induction false} AssignSpills(msb: nat, lsb: nat, v: nat, x: nat, width: nat)
    requires lsb <= msb < width && v % Pow2(width) == 0 && x * Pow2(lsb) < Pow2(width)
    ensures Assign(msb, lsb, v, x) == v + x * Pow2(lsb)
  {
    hide Or, Without, Mask;
    MaskBelow(msb, lsb, width);
    WithoutLow(v, Mask(msb, lsb), width);
    OrLow(v, x * Pow2(lsb), width);
  }

  lemma {:induction false} MaskBelow(msb: nat, lsb: nat, width: nat)
    requires lsb <= msb < width
    ensures Mask(msb, lsb) < Pow2(width)
    decreases msb
  {
    if lsb > 0 {
      MaskBelow(msb - 1, lsb - 1, width - 1);
    } else if msb > 0 {
      MaskBelow(msb - 1, 0, width - 1);
    }
  }

  lemma {:induction false} WithoutLow(v: nat, m: nat, width: nat)
    requires v % Pow2(width) == 0 && m < Pow2(width)
    ensures Without(v, m) == v
    decreases width
  {
    hide Without;
    if width == 0 {
      WithoutZero(v);
    } else {
      DivTwice(v, Pow2(width - 1));
      Halves(v, m);
      WithoutLow(v / 2, m / 2, width - 1);
    }
  }

  lemma {:induction false} OrLow(v: nat, x: nat, width: nat)
    requires v % Pow2(width) == 0 && x < Pow2(width)
    ensures Or(v, x) == v + x
    decreases width
  {
    if width > 0 {
      hide Or;
      DivTwice(v, Pow2(width - 1));
      Halves(v, x);
      OrLow(v / 2, x / 2, width - 1);
    }
  }

  // ----- the class -----

  /** Field names with their most and least significant bits. */
  type Layout = m: map<string, (nat, nat)> | forall f :: f in m ==> m[f].1 <= m[f].0

  /** Two fields share no bit. */
  predicate Apart(f: (nat, nat), g: (nat, nat)) {
    f.0 < g.1 || g.0 < f.1
  }

  /** The result of reading an attribute. */
  datatype Attribute = AttributeError | Attribute(value: Option<nat>)

  class Register {
    var value: Option<nat>
    var regs: Layout

    constructor (value: Option<nat>, fields: Layout)
      ensures this.value == value && regs == fields
    {
      this.value, regs := value, fields;
    }

    method Zero()
      modifies `value
      ensures value == Some(0)
    {
      value := Some(0);
    }

    /** __getattr__: a field is read as a quotient and a remainder. */
    function GetField(name: string): (r: Attribute)
      reads this
      ensures r.AttributeError? <==> name !in regs
      ensures name in regs && value.Some? ==>
                r == Attribute(Some(Field(regs[name].0, regs[name].1, value.value)))
      ensures name in regs && value.None? ==> r == Attribute(None)
    {
      if name !in regs then AttributeError
      else if value.None? then Attribute(None)
      else
        var (msb, lsb) := regs[name];
        SelectValue(msb, lsb, value.value);
        Attribute(Some(Select(msb, lsb, value.value)))
    }

    /** __setattr__ of a field: None counts as zero. What is then read is the new value cut to the field's
        width, and if it fits, fields that share no bit with this one are unchanged. */
    method SetField(name: string, x: nat) returns (ok: bool)
      modifies `value
      ensures ok <==> name in regs
      ensures !ok ==> value == old(value)
      ensures ok ==> var was := if old(value).None? then 0 else old(value).value;
                     && value == Some(Assign(regs[name].0, regs[name].1, was, x))
                     && GetField(name) == Attribute(Some(x % Pow2(regs[name].0 - regs[name].1 + 1)))
      ensures ok && old(value).Some? && x < Pow2(regs[name].0 - regs[name].1 + 1) ==>
                forall g :: g in regs && Apart(regs[g], regs[name]) ==> GetField(g) == old(GetField(g))
    {
      hide Assign, Select, Field;
      if name !in regs {
        return false;
      }
      var was := if value.None? then 0 else value.value;
      var (msb, lsb) := regs[name];
      SelectAssigned(msb, lsb, was, x);
      SelectValue(msb, lsb, Assign(msb, lsb, was, x));
      if value.Some? && x < Pow2(msb - lsb + 1) {
        forall g | g in regs && Apart(regs[g], (msb, lsb))
          ensures Field(regs[g].0, regs[g].1, Assign(msb, lsb, was, x)) == Field(regs[g].0, regs[g].1, was)
        {
          OtherFieldKept(msb, lsb, was, x, regs[g].0, regs[g].1);
        }
      }
      value := Some(Assign(msb, lsb, was, x));
      ok := true;
    }
  }
}
