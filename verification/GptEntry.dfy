/** What the bytes of a finished GPT entry hold, read at the offsets of UEFI section 5.3.3. */
module GptEntry {
  import opened Arith
  import opened Bytes
  import opened Record
  import opened Gpt
  import opened GptBuild

  // ----- little-endian fields, byte by byte -----

  /** Bytes `at` to `at + n` hold `v`: byte `i` is `(v >> 8 * i) & 0xFF`. */
  ghost predicate Little(a: seq<byte>, at: nat, v: nat, n: nat) {
    at + n <= |a| && forall i :: 0 <= i < n ==> a[at + i] == v / Pow256(i) % 256
  }

  lemma {:induction false} LEByte(v: nat, n: nat, i: nat)
    requires i < n
    ensures LE(v, n)[i] == v / Pow256(i) % 256
    decreases n
  {
    if i == 0 {
      assert v / 1 == v;
    } else {
      LEByte(v / 256, n - 1, i - 1);
      DivTwice(v, 256, Pow256(i - 1));
    }
  }

  lemma {:induction false} DivTwice(v: nat, c: nat, d: nat)
    requires c > 0 && d > 0
    ensures c * d > 0 && v / (c * d) == v / c / d
  {
    var h, b := v / c, v % c;
    var q, r := h / d, h % d;
    MulAssoc(c, d, q);
    assert v == (c * d) * q + (c * r + b) by {
      assert h == d * q + r && v == c * h + b;
      assert c * (d * q + r) == c * (d * q) + c * r;
    }
    Below(c, d, r, b);
    DivUnique(v, c * d, q, c * r + b);
  }

  lemma {:induction false} Below(c: nat, d: nat, r: nat, b: nat)
    requires r < d && b < c
    ensures c * r + b < c * d
  {
    assert c * (r + 1) == c * r + c;
    Grows(c, r + 1, d);
  }

  lemma {:induction false} Grows(c: nat, x: nat, y: nat)
    requires x <= y
    ensures c * x <= c * y
  {
  }

  lemma {:induction false} LittleLE(a: seq<byte>, at: nat, v: nat, n: nat)
    requires at + n <= |a| && a[at..at + n] == LE(v, n)
    ensures Little(a, at, v, n)
  {
    forall i | 0 <= i < n
      ensures a[at + i] == v / Pow256(i) % 256
    {
      assert a[at + i] == a[at..at + n][i];
      LEByte(v, n, i);
    }
  }

  // ----- entries -----

  /** What an entry holds besides its sectors. */
  datatype Label = Label(typeGuid: nat, uniqueGuid: nat, hidden: bool, dontAutomount: bool, system: bool,
                         name: seq<byte>)

  function Flag(b: bool, weight: nat): nat {
    if b then weight else 0
  }

  /** The attribute field: bit 60 for read-only, 62 for hidden, 63 for no automount, 0 for system. */
  function Attributes(l: Label, readonly: bool): nat {
    Flag(readonly, 0x1000_0000_0000_0000) + Flag(l.hidden, 0x4000_0000_0000_0000)
    + Flag(l.dontAutomount, 0x8000_0000_0000_0000) + Flag(l.system, 1)
  }

  /** Entry number `k` carries the type GUID first, then the unique one, the attribute bits, and the name as
      two-byte characters, cut or zero-filled to 36. */
  ghost predicate Labelled(a: seq<byte>, k: nat, l: Label, readonly: bool) {
    && 128 * k + 128 <= |a|
    && Little(a, 128 * k, l.typeGuid, 16)
    && Little(a, 128 * k + 16, l.uniqueGuid, 16)
    && a[128 * k + 48..128 * k + 56]
       == [Flag(l.system, 1), 0, 0, 0, 0, 0, 0, Flag(readonly, 16) + Flag(l.hidden, 64) + Flag(l.dontAutomount, 128)]
    && NameHolds(a, 128 * k + 56, l.name)
  }

  ghost predicate NameHolds(a: seq<byte>, at: nat, name: seq<byte>) {
    forall i :: 0 <= i < 36 ==> Character(a, at, i, name)
  }

  /** Character `i` of the name that begins at `at`. */
  ghost predicate Character(a: seq<byte>, at: nat, i: nat, name: seq<byte>) {
    at + 2 * i + 2 <= |a| && a[at + 2 * i..at + 2 * i + 2] == [if i < |name| then name[i] else 0, 0]
  }

  /** The entry made from a label. */
  ghost predicate MadeFrom(e: Entry, l: Label, readonly: bool) {
    && e.typeGuid == l.typeGuid && e.uniqueGuid == l.uniqueGuid
    && e.attributes == Attributes(l, readonly) && e.name == l.name
  }

  lemma {:induction false} AttributeBytes(l: Label, readonly: bool)
    ensures LE(Attributes(l, readonly), 8)
         == [Flag(l.system, 1), 0, 0, 0, 0, 0, 0, Flag(readonly, 16) + Flag(l.hidden, 64) + Flag(l.dontAutomount, 128)]
  {
    var low, top := Flag(l.system, 1), Flag(readonly, 16) + Flag(l.hidden, 64) + Flag(l.dontAutomount, 128);
    assert Attributes(l, readonly) == low + 0x100_0000_0000_0000 * top;
    TopByte(low, top);
  }

  lemma {:induction false} TopByte(low: byte, top: byte)
    ensures LE(low + 0x100_0000_0000_0000 * top, 8) == [low, 0, 0, 0, 0, 0, 0, top]
  {
    hide LE;
    LEStep(low + 0x100_0000_0000_0000 * top, 8, low, 0x1_0000_0000_0000 * top);
    LEStep(0x1_0000_0000_0000 * top, 7, 0, 0x100_0000_0000 * top);
    LEStep(0x100_0000_0000 * top, 6, 0, 0x1_0000_0000 * top);
    LEStep(0x1_0000_0000 * top, 5, 0, 0x100_0000 * top);
    LEStep(0x100_0000 * top, 4, 0, 0x1_0000 * top);
    LEStep(0x1_0000 * top, 3, 0, 0x100 * top);
    LEStep(0x100 * top, 2, 0, top);
    LEStep(top, 1, top, 0);
    LEZero();
  }

  lemma {:induction false} LabelOffsets(e: Entry)
    ensures var cs := EntryCells(e);
            && Offset(cs, 0) == 0 && Offset(cs, 1) == 16 && Offset(cs, 4) == 48 && |Encode(cs)| == 128
            && forall i :: 0 <= i < 36 ==> Offset(cs, 5 + i) == 56 + 2 * i
  {
    var cs := EntryCells(e);
    EntryOffsets(e);
    assert Offset(cs, 1) == 16;
    forall i | 0 <= i < 36
      ensures Offset(cs, 5 + i) == 56 + 2 * i
    {
      NameOffset(cs, 5 + i);
    }
  }

  /** Where the fields of one entry lie. */
  lemma {:induction false} EntryFields(e: Entry)
    ensures var s := EntryBytes(e);
            && s[0..16] == LE(e.typeGuid, 16) && s[16..32] == LE(e.uniqueGuid, 16) && s[48..56] == LE(e.attributes, 8)
  {
    hide LE, Encode, Offset;
    var cs := EntryCells(e);
    LabelOffsets(e);
    EntryEncoded(e);
    EncodeRead(cs, 0);
    EncodeRead(cs, 1);
    EncodeRead(cs, 4);
  }

  lemma {:induction false} EntryName(e: Entry, i: nat)
    requires i < 36
    ensures Character(EntryBytes(e), 56, i, e.name)
  {
    hide LE, Encode, Offset;
    var cs, c: byte := EntryCells(e), if i < |e.name| then e.name[i] else 0;
    LabelOffsets(e);
    EntryEncoded(e);
    EncodeRead(cs, 5 + i);
    assert cs[5 + i] == Cell(2, c);
    TwoBytes(c);
  }

  lemma {:induction false} TwoBytes(c: byte)
    ensures LE(c, 2) == [c, 0]
  {
    LEStep(c, 2, c, 0);
    LEStep(0, 1, 0, 0);
    LEZero();
  }

  /** Every entry of the array shows the label it was made from. */
  lemma {:induction false} ArrayLabelled(es: seq<Entry>, k: nat, l: Label, readonly: bool)
    requires |es| <= 128 && k < |es| && MadeFrom(es[k], l, readonly)
    ensures Labelled(ArrayBytes(es), k, l, readonly)
  {
    hide LE, EntryBytes, Table, Attributes, Pow256;
    var a, s, at := ArrayBytes(es), EntryBytes(es[k]), 128 * k;
    TableSlot(es, k);
    assert a[at..at + 128] == s;
    EntryFields(es[k]);
    SliceOfSlice(a, at, at + 128, 0, 16);
    SliceOfSlice(a, at, at + 128, 16, 32);
    SliceOfSlice(a, at, at + 128, 48, 56);
    LittleLE(a, at, l.typeGuid, 16);
    LittleLE(a, at + 16, l.uniqueGuid, 16);
    AttributeBytes(l, readonly);
    var from := at + 56;
    forall i | 0 <= i < 36
      ensures Character(a, from, i, l.name)
    {
      EntryName(es[k], i);
      SliceOfSlice(a, at, at + 128, 56 + 2 * i, 58 + 2 * i);
    }
  }
}
