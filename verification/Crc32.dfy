/** The CRC-32 of vox_crypto.c: a table filled bit by bit, then applied a byte or a whole word at a time. */
module Crc32 {
  import opened Prelude

  // ---------- The definition, bit by bit ----------

  // The operations on registers have names, so that proofs about them need not look at their bits.

  function Xor(a: bv32, b: bv32): bv32 { a ^ b }

  function Low(x: bv32): bv32 { x & 0xFF }

  function High(x: bv32): bv32 { x & 0xFFFFFF00 }

  function Shr8(x: bv32): bv32 { x >> 8 }

  function Widen(b: bv8): bv32 { b as bv32 }

  predicate Odd(x: bv32) { x & 1 == 1 }

  function Half(x: bv32): bv32 { x >> 1 }

  /** One step of the reflected division by the polynomial. */
  function Bit(crc: bv32): bv32 {
    if Odd(crc) then Xor(Half(crc), 0xEDB88320) else Half(crc)
  }

  function BitSteps(crc: bv32, n: nat): bv32
    decreases n
  {
    if n == 0 then crc else BitSteps(Bit(crc), n - 1)
  }

  /** The register after a message: each byte is added at the low end and shifted out by eight steps. */
  function Register(crc: bv32, data: seq<bv8>): bv32
    decreases |data|
  {
    if data == [] then crc else Register(BitSteps(Xor(crc, Widen(data[0])), 8), data[1..])
  }

  // ---------- Linearity ----------

  lemma OddXor(a: bv32, b: bv32)
    ensures Odd(Xor(a, b)) <==> Odd(a) != Odd(b)
  {
    assert (a ^ b) & 1 == (a & 1) ^ (b & 1);
  }

  lemma HalfXor(a: bv32, b: bv32)
    ensures Half(Xor(a, b)) == Xor(Half(a), Half(b))
  {
  }

  lemma XorLaws(x: bv32, y: bv32, p: bv32)
    ensures Xor(Xor(x, p), y) == Xor(Xor(x, y), p) && Xor(x, Xor(y, p)) == Xor(Xor(x, y), p)
    ensures Xor(Xor(x, p), Xor(y, p)) == Xor(x, y)
  {
  }

  lemma BitXor(a: bv32, b: bv32)
    ensures Bit(Xor(a, b)) == Xor(Bit(a), Bit(b))
  {
    hide Odd, Half, Xor;
    OddXor(a, b);
    HalfXor(a, b);
    XorLaws(Half(a), Half(b), 0xEDB88320);
  }

  /** The steps are linear. */
  lemma {:induction false} BitStepsXor(a: bv32, b: bv32, n: nat)
    ensures BitSteps(Xor(a, b), n) == Xor(BitSteps(a, n), BitSteps(b, n))
    decreases n
  {
    hide Bit, Xor;
    if n > 0 {
      BitXor(a, b);
      BitStepsXor(Bit(a), Bit(b), n - 1);
    }
  }

  lemma {:induction false} EvenSteps(a: bv32, n: nat)
    requires forall k | 0 <= k < n :: !Odd(Halved(a, k))
    ensures BitSteps(a, n) == Halved(a, n)
    decreases n
  {
    hide Odd, Half, Xor;
    if n > 0 {
      assert !Odd(Halved(a, 0));
      assert forall k | 0 <= k < n - 1 :: Halved(Half(a), k) == Halved(a, k + 1);
      EvenSteps(Half(a), n - 1);
    }
  }

  function Halved(a: bv32, k: nat): bv32
    decreases k
  {
    if k == 0 then a else Halved(Half(a), k - 1)
  }

  lemma LowZero(a: bv32)
    requires a & 0xFF == 0
    ensures !Odd(a) && !Odd(Half(a)) && !Odd(Half(Half(a))) && !Odd(Half(Half(Half(a))))
    ensures var b := Half(Half(Half(Half(a))));
            !Odd(b) && !Odd(Half(b)) && !Odd(Half(Half(b))) && !Odd(Half(Half(Half(b)))) && Half(Half(Half(Half(b)))) == a >> 8
  {
  }

  /** Where the low byte is zero, eight steps only shift. */
  lemma EightShifts(a: bv32)
    requires Low(a) == 0
    ensures BitSteps(a, 8) == Shr8(a)
  {
    LowZero(a);
    hide Odd, Half, Bit;
    var b := Half(Half(Half(Half(a))));
    assert Halved(a, 0) == a && Halved(a, 1) == Half(a) && Halved(a, 2) == Half(Half(a)) && Halved(a, 3) == Half(Half(Half(a)));
    FourHalves(a, 0);
    FourHalves(a, 1);
    FourHalves(a, 2);
    FourHalves(a, 3);
    FourHalves(a, 4);
    assert Halved(b, 0) == b && Halved(b, 1) == Half(b) && Halved(b, 2) == Half(Half(b)) && Halved(b, 3) == Half(Half(Half(b)));
    assert Halved(b, 4) == Half(Half(Half(Half(b))));
    EvenSteps(a, 8);
  }

  lemma FourHalves(a: bv32, k: nat)
    ensures Halved(a, k + 4) == Halved(Half(Half(Half(Half(a)))), k)
  {
    hide Half;
    assert Halved(a, k + 4) == Halved(Half(a), k + 3) == Halved(Half(Half(a)), k + 2);
  }

  lemma NextStep(a: bv32, n: nat)
    requires n > 0
    ensures BitSteps(a, n) == BitSteps(Bit(a), n - 1)
  {
  }

  // ---------- Table steps ----------

  ghost predicate IsTable(table: seq<bv32>) {
    |table| == 256 && forall k | 0 <= k < 256 :: table[k] == BitSteps(k as bv32, 8)
  }

  lemma LowIsSmall(x: bv32)
    ensures Low(x) < 256
  {
  }

  lemma SmallIndex(x: bv32)
    requires x < 256
    ensures (x as int) < 256
  {
  }

  lemma ThereAndBack(x: bv32)
    ensures (x as int) as bv32 == x
  {
  }

  /** The low byte as an index. */
  function Index(x: bv32): (i: nat)
    ensures i < 256
  {
    LowIsSmall(x);
    SmallIndex(Low(x));
    Low(x) as int
  }

  lemma IndexIsLow(x: bv32)
    ensures Index(x) as bv32 == Low(x)
  {
    hide Low;
    ThereAndBack(Low(x));
  }

  lemma HighAndLow(x: bv32)
    ensures x == Xor(High(x), Low(x)) && Low(High(x)) == 0 && Shr8(High(x)) == Shr8(x)
  {
  }

  /** One table step is eight bit steps. */
  lemma TableStep(table: seq<bv32>, x: bv32)
    requires IsTable(table)
    ensures Xor(Shr8(x), table[Index(x)]) == BitSteps(x, 8)
  {
    hide Xor, BitSteps, Low, High, Shr8, Index;
    HighAndLow(x);
    IndexIsLow(x);
    EightShifts(High(x));
    BitStepsXor(High(x), Low(x), 8);
    assert table[Index(x)] == BitSteps(Index(x) as bv32, 8);
  }

  /** A byte only touches the low end. */
  lemma ByteShift(crc: bv32, b: bv8)
    ensures Shr8(Xor(crc, Widen(b))) == Shr8(crc)
  {
  }

  // ---------- Words ----------

  /** Four bytes as a little-endian machine loads them. */
  function Load(b0: bv8, b1: bv8, b2: bv8, b3: bv8): bv32 {
    (b0 as bv32) | ((b1 as bv32) << 8) | ((b2 as bv32) << 16) | ((b3 as bv32) << 24)
  }

  /** Eight steps with more bytes waiting above the first: they come down unchanged. */
  lemma StepsWithMore(crc: bv32, b: bv8, more: bv32)
    requires Low(more) == 0
    ensures BitSteps(Xor(crc, Xor(Widen(b), more)), 8) == Xor(BitSteps(Xor(crc, Widen(b)), 8), Shr8(more))
  {
    XorChain(crc, Widen(b), more);
    hide Xor, BitSteps, Low, Shr8, Widen;
    BitStepsXor(Xor(crc, Widen(b)), more, 8);
    EightShifts(more);
  }

  lemma XorChain(a: bv32, b: bv32, c: bv32)
    ensures Xor(a, Xor(b, c)) == Xor(Xor(a, b), c)
  {
  }

  lemma LoadParts(b0: bv8, b1: bv8, b2: bv8, b3: bv8)
    ensures Load(b0, b1, b2, b3) == Xor(Widen(b0), Load(0, b1, b2, b3)) && Low(Load(0, b1, b2, b3)) == 0
    ensures Shr8(Load(0, b1, b2, b3)) == Load(b1, b2, b3, 0) && Load(b0, 0, 0, 0) == Widen(b0)
  {
  }

  /** Adding a word at once and stepping four times is adding its bytes one by one. */
  lemma WordSteps(crc: bv32, b0: bv8, b1: bv8, b2: bv8, b3: bv8)
    ensures BitSteps(BitSteps(BitSteps(BitSteps(Xor(crc, Load(b0, b1, b2, b3)), 8), 8), 8), 8) == Register(crc, [b0, b1, b2, b3])
  {
    LoadParts(b0, b1, b2, b3);
    LoadParts(b1, b2, b3, 0);
    LoadParts(b2, b3, 0, 0);
    LoadParts(b3, 0, 0, 0);
    hide Xor, BitSteps, Load, Low, Shr8, Widen;
    var r1 := BitSteps(Xor(crc, Widen(b0)), 8);
    var r2 := BitSteps(Xor(r1, Widen(b1)), 8);
    var r3 := BitSteps(Xor(r2, Widen(b2)), 8);
    StepsWithMore(crc, b0, Load(0, b1, b2, b3));
    StepsWithMore(r1, b1, Load(0, b2, b3, 0));
    StepsWithMore(r2, b2, Load(0, b3, 0, 0));
    FourBytes(crc, b0, b1, b2, b3);
  }

  lemma FourBytes(crc: bv32, b0: bv8, b1: bv8, b2: bv8, b3: bv8)
    ensures var r1 := BitSteps(Xor(crc, Widen(b0)), 8);
            var r2 := BitSteps(Xor(r1, Widen(b1)), 8);
            var r3 := BitSteps(Xor(r2, Widen(b2)), 8);
            Register(crc, [b0, b1, b2, b3]) == BitSteps(Xor(r3, Widen(b3)), 8)
  {
    hide Xor, BitSteps, Widen;
    var r1 := BitSteps(Xor(crc, Widen(b0)), 8);
    var r2 := BitSteps(Xor(r1, Widen(b1)), 8);
    var r3 := BitSteps(Xor(r2, Widen(b2)), 8);
    assert [b0, b1, b2, b3][1..] == [b1, b2, b3];
    assert [b1, b2, b3][1..] == [b2, b3];
    assert [b2, b3][1..] == [b3];
    RegisterByte(r3, b3);
    assert Register(r2, [b2, b3]) == Register(r3, [b3]);
    assert Register(r1, [b1, b2, b3]) == Register(r2, [b2, b3]);
    assert Register(crc, [b0, b1, b2, b3]) == Register(r1, [b1, b2, b3]);
  }

  // ---------- Concatenation ----------

  /** Taking in a then b is taking in their concatenation. */
  lemma {:induction false} RegisterConcat(crc: bv32, a: seq<bv8>, b: seq<bv8>)
    ensures Register(crc, a + b) == Register(Register(crc, a), b)
    decreases |a|
  {
    hide Xor, BitSteps, Widen;
    if a == [] {
      assert a + b == b;
    } else {
      assert (a + b)[1..] == a[1..] + b && (a + b)[0] == a[0];
      RegisterConcat(BitSteps(Xor(crc, Widen(a[0])), 8), a[1..], b);
    }
  }

  lemma RegisterByte(crc: bv32, b: bv8)
    ensures Register(crc, [b]) == BitSteps(Xor(crc, Widen(b)), 8)
  {
    hide Xor, BitSteps, Widen;
    assert [b][1..] == [];
  }

  // ---------- The code ----------

  class Crc {
    const table: array<bv32>
    var computed: bool

    ghost predicate Valid()
      reads this, table
    {
      table.Length == 256 && (computed ==> IsTable(table[..]))
    }

    constructor ()
      ensures Valid() && fresh(table)
    {
      table := new bv32[256](i => 0);
      computed := false;
    }

    /** compute_crc32_table */
    method ComputeTable()
      requires Valid()
      modifies this, table
      ensures Valid() && computed
    {
      hide Bit;
      if computed {
        return;
      }
      for i := 0 to 256
        invariant forall k | 0 <= k < i :: table[k] == BitSteps(k as bv32, 8)
      {
        table[i] := TableEntry(i);
      }
      computed := true;
    }

    static method TableEntry(i: nat) returns (crc: bv32)
      requires i < 256
      ensures crc == BitSteps(i as bv32, 8)
    {
      hide Odd, Half, Xor;
      crc := i as bv32;
      for j := 0 to 8
        invariant BitSteps(crc, 8 - j) == BitSteps(i as bv32, 8)
      {
        NextStep(crc, 8 - j);
        if Odd(crc) {
          crc := Xor(Half(crc), 0xEDB88320);
        } else {
          crc := Half(crc);
        }
      }
    }

    /** `(crc >> 8) ^ table[(crc ^ byte) & 0xFF]` */
    method AddByte(crc0: bv32, b: bv8) returns (crc: bv32)
      requires Valid() && computed
      ensures crc == Register(crc0, [b])
    {
      hide BitSteps, Register, Xor, Shr8, Index, Widen;
      ByteShift(crc0, b);
      RegisterByte(crc0, b);
      TableStep(table[..], Xor(crc0, Widen(b)));
      crc := Xor(Shr8(crc0), table[Index(Xor(crc0, Widen(b)))]);
    }

    /** `crc = (crc >> 8) ^ table[crc & 0xFF]` */
    method Step(crc0: bv32) returns (crc: bv32)
      requires Valid() && computed
      ensures crc == BitSteps(crc0, 8)
    {
      hide BitSteps, Xor, Shr8, Index;
      TableStep(table[..], crc0);
      crc := Xor(Shr8(crc0), table[Index(crc0)]);
    }

    /** `crc ^= word`, then four table steps. */
    method AddWord(crc0: bv32, b0: bv8, b1: bv8, b2: bv8, b3: bv8) returns (crc: bv32)
      requires Valid() && computed
      ensures crc == Register(crc0, [b0, b1, b2, b3])
    {
      hide BitSteps, Register, Load, Xor;
      WordSteps(crc0, b0, b1, b2, b3);
      crc := Xor(crc0, Load(b0, b1, b2, b3));
      crc := Step(crc);
      crc := Step(crc);
      crc := Step(crc);
      crc := Step(crc);
    }

    /** vox_crc32_update on data that starts at the given address. */
    method Update(crc0: bv32, data: seq<bv8>, address: nat) returns (crc: bv32)
      requires Valid()
      modifies this, table
      ensures Valid() && computed && crc == Register(crc0, data)
    {
      hide BitSteps, Register, IsTable;
      ComputeTable();
      crc := crc0;
      var p := 0;
      NoBytes(crc0, data);
      while p < |data| && (address + p) % 4 != 0
        invariant Valid() && computed && p <= |data| && crc == Register(crc0, data[..p])
      {
        crc := AddByte(crc, data[p]);
        MoreBytes(crc0, data, p, p + 1);
        assert data[p..p + 1] == [data[p]];
        p := p + 1;
      }
      var wordCount := (|data| - p) / 4;
      ghost var start := p;
      for i := 0 to wordCount
        invariant Valid() && computed && p == start + 4 * i && crc == Register(crc0, data[..p])
      {
        crc := AddWord(crc, data[p], data[p + 1], data[p + 2], data[p + 3]);
        assert data[p..p + 4] == [data[p], data[p + 1], data[p + 2], data[p + 3]];
        MoreBytes(crc0, data, p, p + 4);
        p := p + 4;
      }
      while p < |data|
        invariant Valid() && computed && p <= |data| && crc == Register(crc0, data[..p])
      {
        crc := AddByte(crc, data[p]);
        MoreBytes(crc0, data, p, p + 1);
        assert data[p..p + 1] == [data[p]];
        p := p + 1;
      }
      assert data[..p] == data;
    }
  }

  lemma NoBytes(crc: bv32, data: seq<bv8>)
    ensures Register(crc, data[..0]) == crc
  {
  }

  lemma MoreBytes(crc: bv32, data: seq<bv8>, p: nat, q: nat)
    requires p <= q <= |data|
    ensures Register(crc, data[..q]) == Register(Register(crc, data[..p]), data[p..q])
  {
    assert data[..q] == data[..p] + data[p..q];
    RegisterConcat(crc, data[..p], data[p..q]);
  }

  /** The checksum of a message. */
  function Checksum(data: seq<bv8>): bv32 {
    Xor(Register(0xFFFFFFFF, data), 0xFFFFFFFF)
  }

  /** vox_crc32_init, vox_crc32_update for each part, vox_crc32_final: the checksum of the parts put together. */
  method ChecksumOfParts(parts: seq<seq<bv8>>, addresses: seq<nat>) returns (crc: bv32)
    requires |addresses| == |parts|
    ensures crc == Checksum(Concat(parts))
  {
    hide Register, Xor;
    var c := new Crc();
    crc := 0xFFFFFFFF;
    NoBytes(0xFFFFFFFF, []);
    assert Concat(parts[..0]) == [][..0];
    for i := 0 to |parts|
      invariant c.Valid() && fresh(c) && fresh(c.table) && crc == Register(0xFFFFFFFF, Concat(parts[..i]))
    {
      RegisterConcat(0xFFFFFFFF, Concat(parts[..i]), parts[i]);
      assert parts[..i + 1][..i] == parts[..i];
      crc := c.Update(crc, parts[i], addresses[i]);
    }
    assert parts[..|parts|] == parts;
    crc := Xor(crc, 0xFFFFFFFF);
  }

  // ---------- What pins the polynomial and the constants ----------

  lemma OneByte(crc: bv32, data: seq<bv8>, i: nat)
    requires i < |data|
    ensures Register(crc, data[i..]) == Register(BitSteps(crc ^ (data[i] as bv32), 8), data[i + 1..])
  {
    hide BitSteps;
    assert data[i..][0] == data[i] && data[i..][1..] == data[i + 1..];
  }

  /** The register on its way through the digits 1 to 9. */
  lemma DigitSteps()
    ensures BitSteps(0xFFFFFFCE, 8) == 0x7C231048
    ensures BitSteps(0x7C23107A, 8) == 0xB0ACBB32
    ensures BitSteps(0xB0ACBB01, 8) == 0x77B79C2D
    ensures BitSteps(0x77B79C19, 8) == 0x641C1F5C
    ensures BitSteps(0x641C1F69, 8) == 0x340AC5E3
    ensures BitSteps(0x340AC5D5, 8) == 0xF68D2C9E
    ensures BitSteps(0xF68D2CA9, 8) == 0xAFFC9660
    ensures BitSteps(0xAFFC9658, 8) == 0x651F2550
    ensures BitSteps(0x651F2569, 8) == 0x340BC6D9
  {
    FirstDigits();
    MiddleDigits();
    LastDigits();
  }

  lemma FirstDigits()
    ensures BitSteps(0xFFFFFFCE, 8) == 0x7C231048
    ensures BitSteps(0x7C23107A, 8) == 0xB0ACBB32
    ensures BitSteps(0xB0ACBB01, 8) == 0x77B79C2D
  {
  }

  lemma MiddleDigits()
    ensures BitSteps(0x77B79C19, 8) == 0x641C1F5C
    ensures BitSteps(0x641C1F69, 8) == 0x340AC5E3
    ensures BitSteps(0x340AC5D5, 8) == 0xF68D2C9E
  {
  }

  lemma LastDigits()
    ensures BitSteps(0xF68D2CA9, 8) == 0xAFFC9660
    ensures BitSteps(0xAFFC9658, 8) == 0x651F2550
    ensures BitSteps(0x651F2569, 8) == 0x340BC6D9
  {
  }

  /** The published check value: the checksum of the digits 1 to 9. */
  lemma CheckValue()
    ensures Checksum([0x31, 0x32, 0x33, 0x34, 0x35, 0x36, 0x37, 0x38, 0x39]) == 0xCBF43926
  {
    DigitSteps();
    hide BitSteps;
    var data: seq<bv8> := [0x31, 0x32, 0x33, 0x34, 0x35, 0x36, 0x37, 0x38, 0x39];
    assert data[0..] == data && data[9..] == [];
    OneByte(0xFFFFFFFF, data, 0);
    OneByte(0x7C231048, data, 1);
    OneByte(0xB0ACBB32, data, 2);
    OneByte(0x77B79C2D, data, 3);
    OneByte(0x641C1F5C, data, 4);
    OneByte(0x340AC5E3, data, 5);
    OneByte(0xF68D2C9E, data, 6);
    OneByte(0xAFFC9660, data, 7);
    OneByte(0x651F2550, data, 8);
    NoBytes(0x340BC6D9, []);
  }

  /** A checksum as it is sent: its least significant byte first. */
  function Sent(x: bv32): seq<bv8> {
    [(x & 0xFF) as bv8, ((x >> 8) & 0xFF) as bv8, ((x >> 16) & 0xFF) as bv8, ((x >> 24) & 0xFF) as bv8]
  }

  lemma SentLoads(x: bv32)
    ensures Load(Sent(x)[0], Sent(x)[1], Sent(x)[2], Sent(x)[3]) == x
  {
  }

  /** A message with its own checksum behind it leaves the same residue in the register, whatever the message. */
  lemma Residue(data: seq<bv8>)
    ensures Register(0xFFFFFFFF, data + Sent(Checksum(data))) == 0xDEBB20E3
  {
    hide Register, BitSteps, Load, Sent;
    var r := Register(0xFFFFFFFF, data);
    var c := Checksum(data);
    RegisterConcat(0xFFFFFFFF, data, Sent(c));
    SentIs(c);
    var b := Sent(c);
    WordSteps(r, b[0], b[1], b[2], b[3]);
    SentLoads(c);
    assert Xor(r, c) == 0xFFFFFFFF by { Complement(r); }
    AllOnesGone();
  }

  lemma SentIs(x: bv32)
    ensures |Sent(x)| == 4 && Sent(x) == [Sent(x)[0], Sent(x)[1], Sent(x)[2], Sent(x)[3]]
  {
  }

  lemma Complement(r: bv32)
    ensures Xor(r, Xor(r, 0xFFFFFFFF)) == 0xFFFFFFFF
  {
  }

  lemma AllOnesGone()
    ensures BitSteps(BitSteps(BitSteps(BitSteps(0xFFFFFFFF, 8), 8), 8), 8) == 0xDEBB20E3
  {
    assert BitSteps(0xFFFFFFFF, 8) == 0x2DFD1072;
    assert BitSteps(0x2DFD1072, 8) == 0xBE26ED00;
    assert BitSteps(0xBE26ED00, 8) == 0x00BE26ED;
  }
}
