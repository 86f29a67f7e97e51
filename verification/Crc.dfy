/** The CRC of PNG chunks: the table-driven form refines the one that shifts in a bit at a time. */
module Crc {

  type Byte = b: int | 0 <= b < 256

  const POLYNOMIAL: bv32 := 0xedb88320

  function Bits(b: Byte): (r: bv32)
    ensures r < 256
  {
    (b as bv8) as bv32
  }

  function Xor(v: bv32, w: bv32): bv32 { v ^ w }

  function Low(v: bv32): bv32 { v & 0xff }

  function High(v: bv32): bv32 { v >> 8 }

  // ----- One bit at a time -----

  /** Shifts one message bit into the register (section 5.5 of the W3C PNG Specification). */
  function ShiftBit(crc: bv32, bit: bv32): bv32
  {
    if (crc ^ bit) & 1 == 1 then POLYNOMIAL ^ (crc >> 1) else crc >> 1
  }

  /** Shifts in the lowest `count` bits, the lowest first. */
  function ShiftBits(crc: bv32, bits: bv32, count: nat): bv32
    decreases count
  {
    if count == 0 then crc else ShiftBits(ShiftBit(crc, bits & 1), bits >> 1, count - 1)
  }

  /** The register after a byte string. */
  function Register(crc: bv32, bytes: seq<Byte>): bv32
  {
    if |bytes| == 0 then crc
    else ShiftBits(Register(crc, bytes[..|bytes| - 1]), Bits(bytes[|bytes| - 1]), 8)
  }

  /** The check value of a byte string. */
  function Checksum(bytes: seq<Byte>): bv32 { Xor(Register(0xffffffff, bytes), 0xffffffff) }

  // ----- The steps that fill the table -----

  function Halve(value: bv32): bv32 { if value & 1 == 1 then POLYNOMIAL ^ (value >> 1) else value >> 1 }

  function Halves(value: bv32, count: nat): bv32
    decreases count
  {
    if count == 0 then value else Halves(Halve(value), count - 1)
  }

  /** No bit is left above the lowest `count`. */
  predicate Spent(bits: bv32, count: nat)
    decreases count
  {
    if count == 0 then bits == 0 else Spent(bits >> 1, count - 1)
  }

  lemma ShiftHalve(crc: bv32, bits: bv32)
    ensures ShiftBit(crc, bits & 1) ^ (bits >> 1) == Halve(crc ^ bits)
  {
  }

  /** The bits of a byte may be mixed into the register all at once. */
  lemma {:induction false} ShiftHalves(crc: bv32, bits: bv32, count: nat)
    requires Spent(bits, count)
    ensures ShiftBits(crc, bits, count) == Halves(Xor(crc, bits), count)
    decreases count
  {
    if count > 0 {
      hide ShiftBit, Halve;
      ShiftHalves(ShiftBit(crc, bits & 1), bits >> 1, count - 1);
      ShiftHalve(crc, bits);
    }
  }

  lemma ShiftXor(v: bv32, w: bv32)
    ensures (v ^ w) >> 1 == (v >> 1) ^ (w >> 1)
  {
  }

  lemma LowXor(v: bv32, w: bv32)
    ensures (v ^ w) & 1 == (v & 1) ^ (w & 1)
  {
  }

  lemma XorLaws(p: bv32, v: bv32, w: bv32)
    ensures p ^ (v ^ w) == (p ^ v) ^ w == v ^ (p ^ w)
    ensures v ^ w == (p ^ v) ^ (p ^ w)
  {
  }

  lemma LowBit(v: bv32)
    ensures v & 1 == 0 || v & 1 == 1
  {
  }

  lemma HalveLinear(v: bv32, w: bv32)
    ensures Halve(v ^ w) == Halve(v) ^ Halve(w)
  {
    ShiftXor(v, w);
    LowXor(v, w);
    LowBit(v);
    LowBit(w);
    XorLaws(POLYNOMIAL, v >> 1, w >> 1);
  }

  lemma {:induction false} HalvesLinear(v: bv32, w: bv32, count: nat)
    ensures Halves(Xor(v, w), count) == Xor(Halves(v, count), Halves(w, count))
    decreases count
  {
    if count > 0 {
      hide Halve;
      HalveLinear(v, w);
      HalvesLinear(Halve(v), Halve(w), count - 1);
    }
  }

  /** Zero low bits fall out of the register unnoticed. */
  lemma {:induction false} HalvesHigh(v: bv32, mask: bv32, count: nat)
    requires v & mask == 0 && Ones(mask, count)
    ensures Halves(v, count) == Drop(v, count)
    decreases count
  {
    if count > 0 {
      hide Halve;
      HalvesHigh(v >> 1, mask >> 1, count - 1);
    }
  }

  /** The lowest `count` bits are ones. */
  predicate Ones(mask: bv32, count: nat)
    decreases count
  {
    count == 0 || (mask & 1 == 1 && Ones(mask >> 1, count - 1))
  }

  function Drop(v: bv32, count: nat): bv32
    decreases count
  {
    if count == 0 then v else Drop(v >> 1, count - 1)
  }

  lemma DropEight(v: bv32)
    ensures Drop(v, 8) == High(v) && Ones(0xff, 8)
  {
    assert Drop(v, 8) == Drop(v >> 1 >> 1 >> 1 >> 1, 4);
    assert v >> 1 >> 1 >> 1 >> 1 >> 1 >> 1 >> 1 >> 1 == v >> 8;
    assert Ones(0xff >> 1 >> 1 >> 1 >> 1, 4);
  }

  lemma SplitWord(v: bv32)
    ensures Xor(Low(v), v & 0xffffff00) == v
    ensures (v & 0xffffff00) & 0xff == 0 && High(v & 0xffffff00) == High(v)
  {
  }

  lemma HalvesByTable(v: bv32)
    ensures Halves(v, 8) == Xor(Halves(Low(v), 8), High(v))
  {
    hide Halves, Xor, Low, High;
    var high := v & 0xffffff00;
    SplitWord(v);
    HalvesLinear(Low(v), high, 8);
    DropEight(high);
    HalvesHigh(high, 0xff, 8);
  }

  lemma ByteSpent(v: bv32)
    requires v < 256
    ensures Spent(v, 8)
  {
    assert Spent(v, 8) == Spent(v >> 1 >> 1 >> 1 >> 1, 4);
    assert v >> 1 >> 1 >> 1 >> 1 >> 1 >> 1 >> 1 >> 1 == 0;
  }

  lemma HighMix(crc: bv32, b: bv32)
    requires b < 256
    ensures High(Xor(crc, b)) == High(crc)
  {
  }

  /** The index of the table entry that a step looks up. */
  function Index(crc: bv32, b: Byte): Byte
  {
    var v := Low(Xor(crc, Bits(b))) as bv8;
    v as int
  }

  lemma IndexBits(crc: bv32, b: Byte)
    ensures Bits(Index(crc, b)) == Low(Xor(crc, Bits(b)))
  {
    BitsOfInt(Low(Xor(crc, Bits(b))) as bv8);
  }

  lemma BitsOfInt(i: bv8)
    ensures 0 <= i as int < 256 && (i as int) as bv8 == i
  {
  }

  /** One table step is eight bit steps. */
  lemma TableStep(crc: bv32, b: Byte)
    ensures ShiftBits(crc, Bits(b), 8) == Xor(Halves(Bits(Index(crc, b)), 8), High(crc))
  {
    hide Halves, ShiftBits, Spent, Xor, High, Low, Bits, Index;
    ByteSpent(Bits(b));
    ShiftHalves(crc, Bits(b), 8);
    HalvesByTable(Xor(crc, Bits(b)));
    HighMix(crc, Bits(b));
    IndexBits(crc, b);
  }

  // ----- The table and the loop -----

  ghost predicate IsTable(table: seq<bv32>)
  {
    && |table| == 256
    && forall i :: 0 <= i < 256 ==> table[i] == Halves(Bits(i), 8)
  }

  class Checksums {
    /** `crcTableCache`. */
    var cache: array?<bv32>

    ghost predicate Valid()
      reads this, cache
    {
      cache != null ==> IsTable(cache[..])
    }

    constructor ()
      ensures Valid() && cache == null
    {
      cache := null;
    }

    /** `crcTable`: filled once, then reused. */
    method Table() returns (table: array<bv32>)
      requires Valid()
      modifies this
      ensures Valid() && cache == table && IsTable(table[..])
      ensures old(cache) != null ==> table == old(cache)
      ensures old(cache) == null ==> fresh(table)
    {
      hide Halve, Bits;
      if cache != null { return cache; }
      table := new bv32[256];
      for index := 0 to 256
        invariant forall i :: 0 <= i < index ==> table[i] == Halves(Bits(i), 8)
      {
        var value := Bits(index);
        for bit := 0 to 8
          invariant Halves(Bits(index), 8) == Halves(value, 8 - bit)
        {
          value := Halve(value);
        }
        table[index] := value;
      }
      cache := table;
    }

    /** `crc32`. */
    method Crc32(value: seq<Byte>) returns (r: bv32)
      requires Valid()
      modifies this
      ensures Valid() && r == Checksum(value)
    {
      hide Halves, ShiftBits, Xor, High, Bits, Index;
      var table := Table();
      var crc: bv32 := 0xffffffff;
      assert value[..0] == [];
      for i := 0 to |value|
        invariant Valid() && IsTable(table[..])
        invariant crc == Register(0xffffffff, value[..i])
      {
        TableStep(crc, value[i]);
        assert value[..i + 1][..i] == value[..i];
        crc := Xor(table[Index(crc, value[i])], High(crc));
      }
      assert value[..|value|] == value;
      r := Xor(crc, 0xffffffff);
    }
  }

  // ----- A changed byte is detected -----

  lemma {:induction false} HalvesInjective(v: bv32, w: bv32, count: nat)
    requires Halves(v, count) == Halves(w, count)
    ensures v == w
    decreases count
  {
    if count > 0 {
      hide Halve;
      HalvesInjective(Halve(v), Halve(w), count - 1);
    }
  }

  lemma Successor(x: bv8)
    requires x != 255
    ensures (x + 1) as int == x as int + 1
  {
  }

  lemma {:induction false} IntOfBits(n: Byte)
    ensures (n as bv8) as int == n
  {
    if n > 0 {
      IntOfBits(n - 1);
      var x := (n - 1) as bv8;
      Successor(x);
      BitsOfInt(x + 1);
    }
  }

  lemma XorCancels(crc: bv32, v: bv32, w: bv32)
    ensures Xor(crc, v) == Xor(crc, w) ==> v == w
    ensures Xor(v, crc) == Xor(w, crc) ==> v == w
  {
  }

  lemma BitsInjective(a: Byte, b: Byte)
    requires Bits(a) == Bits(b)
    ensures a == b
  {
    IntOfBits(a);
    IntOfBits(b);
  }

  lemma StepInjective(c: bv32, d: bv32, a: Byte, b: Byte)
    requires ShiftBits(c, Bits(a), 8) == ShiftBits(d, Bits(b), 8)
    ensures c == d ==> a == b
    ensures a == b ==> c == d
  {
    hide Halves, ShiftBits, Spent, Xor, Bits;
    ByteSpent(Bits(a));
    ByteSpent(Bits(b));
    ShiftHalves(c, Bits(a), 8);
    ShiftHalves(d, Bits(b), 8);
    HalvesInjective(Xor(c, Bits(a)), Xor(d, Bits(b)), 8);
    XorCancels(c, Bits(a), Bits(b));
    XorCancels(Bits(a), c, d);
    if c == d { BitsInjective(a, b); }
  }

  lemma {:induction false} RegisterInjective(c: bv32, s: seq<Byte>, t: seq<Byte>, k: nat)
    requires k < |s| == |t| && s[..k] == t[..k] && s[k + 1..] == t[k + 1..]
    requires Register(c, s) == Register(c, t)
    ensures s[k] == t[k]
    decreases |s|
  {
    hide ShiftBits, Bits;
    var n := |s| - 1;
    StepInjective(Register(c, s[..n]), Register(c, t[..n]), s[n], t[n]);
    if k < n {
      RegisterInjective(c, s[..n], t[..n], k);
    }
  }

  /** Two byte strings that differ in one byte only have different check values. */
  lemma DetectsChangedByte(s: seq<Byte>, t: seq<Byte>, k: nat)
    requires k < |s| == |t| && s[..k] == t[..k] && s[k + 1..] == t[k + 1..] && s[k] != t[k]
    ensures Checksum(s) != Checksum(t)
  {
    hide Xor, Register;
    if Checksum(s) == Checksum(t) {
      XorCancels(0xffffffff, Register(0xffffffff, s), Register(0xffffffff, t));
      RegisterInjective(0xffffffff, s, t, k);
    }
  }

  // ----- The check value that catalogues of CRCs list for CRC-32 -----

  /** The bytes of the first digits of "123456789". */
  function Counting(n: nat): seq<Byte>
    requires n <= 9
  {
    seq(n, i requires 0 <= i < n => 0x31 + i)
  }

  lemma CountingNext(n: nat)
    requires n < 9
    ensures Register(0xffffffff, Counting(n + 1)) == ShiftBits(Register(0xffffffff, Counting(n)), Bits(0x31 + n), 8)
  {
    assert Counting(n + 1)[..n] == Counting(n);
  }

  lemma CountingBits()
    ensures Bits(0x31) == 0x31 && Bits(0x32) == 0x32 && Bits(0x33) == 0x33 && Bits(0x34) == 0x34 && Bits(0x35) == 0x35
    ensures Bits(0x36) == 0x36 && Bits(0x37) == 0x37 && Bits(0x38) == 0x38 && Bits(0x39) == 0x39
  {
  }

  lemma CountingShifts()
    ensures ShiftBits(0xffffffff, 0x31, 8) == 0x7c231048 && ShiftBits(0x7c231048, 0x32, 8) == 0xb0acbb32
    ensures ShiftBits(0xb0acbb32, 0x33, 8) == 0x77b79c2d && ShiftBits(0x77b79c2d, 0x34, 8) == 0x641c1f5c
    ensures ShiftBits(0x641c1f5c, 0x35, 8) == 0x340ac5e3 && ShiftBits(0x340ac5e3, 0x36, 8) == 0xf68d2c9e
    ensures ShiftBits(0xf68d2c9e, 0x37, 8) == 0xaffc9660 && ShiftBits(0xaffc9660, 0x38, 8) == 0x651f2550
    ensures ShiftBits(0x651f2550, 0x39, 8) == 0x340bc6d9
  {
  }

  /** The check value of the bytes of "123456789". */
  lemma CheckValue()
    ensures Checksum([0x31, 0x32, 0x33, 0x34, 0x35, 0x36, 0x37, 0x38, 0x39]) == 0xcbf43926
  {
    hide ShiftBits, Bits;
    CountingBits();
    CountingShifts();
    assert Register(0xffffffff, Counting(0)) == 0xffffffff;
    hide Register;
    CountingNext(0); CountingNext(1); CountingNext(2); CountingNext(3); CountingNext(4);
    CountingNext(5); CountingNext(6); CountingNext(7); CountingNext(8);
    assert Counting(9) == [0x31, 0x32, 0x33, 0x34, 0x35, 0x36, 0x37, 0x38, 0x39];
  }
}
