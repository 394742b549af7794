/**
  The table-driven CRC of crc32.c against the shift register it abbreviates.

  The reference is the bit-serial register of section 8.1.1.6.2 of ITU-T V.42, reflected:
  message bits enter lowest first, and the register is xored with 0xedb88320 whenever the
  bit leaving it differs from the bit entering.

  Bit-vector operators are wrapped in small functions: laws about them are proved by lemmas
  that look inside, and everything built on those laws hides them from the solver.
 */
module Crc32 {
  import opened Bytes

  const POLY: bv32 := 0xedb88320
  const ONES: bv32 := 0xffff_ffff

  /** crc32_tab, sixteen entries to a row. */
  const TABLE: seq<seq<bv32>> := [
    [0x00000000, 0x77073096, 0xee0e612c, 0x990951ba, 0x076dc419, 0x706af48f, 0xe963a535, 0x9e6495a3,
     0x0edb8832, 0x79dcb8a4, 0xe0d5e91e, 0x97d2d988, 0x09b64c2b, 0x7eb17cbd, 0xe7b82d07, 0x90bf1d91],
    [0x1db71064, 0x6ab020f2, 0xf3b97148, 0x84be41de, 0x1adad47d, 0x6ddde4eb, 0xf4d4b551, 0x83d385c7,
     0x136c9856, 0x646ba8c0, 0xfd62f97a, 0x8a65c9ec, 0x14015c4f, 0x63066cd9, 0xfa0f3d63, 0x8d080df5],
    [0x3b6e20c8, 0x4c69105e, 0xd56041e4, 0xa2677172, 0x3c03e4d1, 0x4b04d447, 0xd20d85fd, 0xa50ab56b,
     0x35b5a8fa, 0x42b2986c, 0xdbbbc9d6, 0xacbcf940, 0x32d86ce3, 0x45df5c75, 0xdcd60dcf, 0xabd13d59],
    [0x26d930ac, 0x51de003a, 0xc8d75180, 0xbfd06116, 0x21b4f4b5, 0x56b3c423, 0xcfba9599, 0xb8bda50f,
     0x2802b89e, 0x5f058808, 0xc60cd9b2, 0xb10be924, 0x2f6f7c87, 0x58684c11, 0xc1611dab, 0xb6662d3d],
    [0x76dc4190, 0x01db7106, 0x98d220bc, 0xefd5102a, 0x71b18589, 0x06b6b51f, 0x9fbfe4a5, 0xe8b8d433,
     0x7807c9a2, 0x0f00f934, 0x9609a88e, 0xe10e9818, 0x7f6a0dbb, 0x086d3d2d, 0x91646c97, 0xe6635c01],
    [0x6b6b51f4, 0x1c6c6162, 0x856530d8, 0xf262004e, 0x6c0695ed, 0x1b01a57b, 0x8208f4c1, 0xf50fc457,
     0x65b0d9c6, 0x12b7e950, 0x8bbeb8ea, 0xfcb9887c, 0x62dd1ddf, 0x15da2d49, 0x8cd37cf3, 0xfbd44c65],
    [0x4db26158, 0x3ab551ce, 0xa3bc0074, 0xd4bb30e2, 0x4adfa541, 0x3dd895d7, 0xa4d1c46d, 0xd3d6f4fb,
     0x4369e96a, 0x346ed9fc, 0xad678846, 0xda60b8d0, 0x44042d73, 0x33031de5, 0xaa0a4c5f, 0xdd0d7cc9],
    [0x5005713c, 0x270241aa, 0xbe0b1010, 0xc90c2086, 0x5768b525, 0x206f85b3, 0xb966d409, 0xce61e49f,
     0x5edef90e, 0x29d9c998, 0xb0d09822, 0xc7d7a8b4, 0x59b33d17, 0x2eb40d81, 0xb7bd5c3b, 0xc0ba6cad],
    [0xedb88320, 0x9abfb3b6, 0x03b6e20c, 0x74b1d29a, 0xead54739, 0x9dd277af, 0x04db2615, 0x73dc1683,
     0xe3630b12, 0x94643b84, 0x0d6d6a3e, 0x7a6a5aa8, 0xe40ecf0b, 0x9309ff9d, 0x0a00ae27, 0x7d079eb1],
    [0xf00f9344, 0x8708a3d2, 0x1e01f268, 0x6906c2fe, 0xf762575d, 0x806567cb, 0x196c3671, 0x6e6b06e7,
     0xfed41b76, 0x89d32be0, 0x10da7a5a, 0x67dd4acc, 0xf9b9df6f, 0x8ebeeff9, 0x17b7be43, 0x60b08ed5],
    [0xd6d6a3e8, 0xa1d1937e, 0x38d8c2c4, 0x4fdff252, 0xd1bb67f1, 0xa6bc5767, 0x3fb506dd, 0x48b2364b,
     0xd80d2bda, 0xaf0a1b4c, 0x36034af6, 0x41047a60, 0xdf60efc3, 0xa867df55, 0x316e8eef, 0x4669be79],
    [0xcb61b38c, 0xbc66831a, 0x256fd2a0, 0x5268e236, 0xcc0c7795, 0xbb0b4703, 0x220216b9, 0x5505262f,
     0xc5ba3bbe, 0xb2bd0b28, 0x2bb45a92, 0x5cb36a04, 0xc2d7ffa7, 0xb5d0cf31, 0x2cd99e8b, 0x5bdeae1d],
    [0x9b64c2b0, 0xec63f226, 0x756aa39c, 0x026d930a, 0x9c0906a9, 0xeb0e363f, 0x72076785, 0x05005713,
     0x95bf4a82, 0xe2b87a14, 0x7bb12bae, 0x0cb61b38, 0x92d28e9b, 0xe5d5be0d, 0x7cdcefb7, 0x0bdbdf21],
    [0x86d3d2d4, 0xf1d4e242, 0x68ddb3f8, 0x1fda836e, 0x81be16cd, 0xf6b9265b, 0x6fb077e1, 0x18b74777,
     0x88085ae6, 0xff0f6a70, 0x66063bca, 0x11010b5c, 0x8f659eff, 0xf862ae69, 0x616bffd3, 0x166ccf45],
    [0xa00ae278, 0xd70dd2ee, 0x4e048354, 0x3903b3c2, 0xa7672661, 0xd06016f7, 0x4969474d, 0x3e6e77db,
     0xaed16a4a, 0xd9d65adc, 0x40df0b66, 0x37d83bf0, 0xa9bcae53, 0xdebb9ec5, 0x47b2cf7f, 0x30b5ffe9],
    [0xbdbdf21c, 0xcabac28a, 0x53b39330, 0x24b4a3a6, 0xbad03605, 0xcdd70693, 0x54de5729, 0x23d967bf,
     0xb3667a2e, 0xc4614ab8, 0x5d681b02, 0x2a6f2b94, 0xb40bbe37, 0xc30c8ea1, 0x5a05df1b, 0x2d02ef8d]
  ]

  function Xor(a: bv32, b: bv32): (r: bv32) { a ^ b }
  function Half(a: bv32): (r: bv32) { a >> 1 }
  function Shr8(a: bv32): (r: bv32) { a >> 8 }
  function Low(a: bv32): (r: bv8) { (a & 0xff) as bv8 }
  function Wide(b: bv8): (r: bv32) { b as bv32 }
  predicate Odd(a: bv32) { a & 1 == 1 }

  // ---------- the reference register ----------

  function FeedBit(r: bv32, bit: bool): (r': bv32) {
    if Odd(r) != bit then Xor(Half(r), POLY) else Half(r)
  }

  function FeedBits(r: bv32, b: bv32, k: nat): (r': bv32)
    decreases k
  {
    if k == 0 then r else FeedBits(FeedBit(r, Odd(b)), Half(b), k - 1)
  }

  function FeedByte(r: bv32, b: bv8): (r': bv32) { FeedBits(r, Wide(b), 8) }

  /** The register after the bytes of `s`, eight bits each. */
  function Serial(r: bv32, s: seq<bv8>): (r': bv32)
    decreases |s|
  {
    if s == [] then r else Serial(FeedByte(r, s[0]), s[1..])
  }

  /** A message can be fed in two parts. */
  lemma {:induction false} SerialConcat(r: bv32, s: seq<bv8>, t: seq<bv8>)
    ensures Serial(r, s + t) == Serial(Serial(r, s), t)
    decreases |s|
  {
    hide FeedByte;
    if s == [] {
      assert s + t == t;
    } else {
      SerialConcat(FeedByte(r, s[0]), s[1..], t);
      assert (s + t)[1..] == s[1..] + t;
    }
  }

  lemma SerialSnoc(r: bv32, s: seq<bv8>, i: nat)
    requires i < |s|
    ensures Serial(r, s[..i + 1]) == FeedByte(Serial(r, s[..i]), s[i])
  {
    hide FeedByte;
    assert s[..i + 1] == s[..i] + [s[i]];
    SerialConcat(r, s[..i], [s[i]]);
    assert [s[i]][1..] == [];
  }

  // ---------- the register with no input ----------

  function BitStep(r: bv32): (r': bv32) {
    if Odd(r) then Xor(Half(r), POLY) else Half(r)
  }

  function Shift(x: bv32, k: nat): (y: bv32)
    decreases k
  {
    if k == 0 then x else Shift(BitStep(x), k - 1)
  }

  function Halves(x: bv32, k: nat): (y: bv32)
    decreases k
  {
    if k == 0 then x else Halves(Half(x), k - 1)
  }

  lemma Halves8(x: bv32)
    ensures Halves(x, 8) == Shr8(x)
  {
    var y := Half(Half(Half(Half(x))));
    assert Halves(x, 8) == Halves(Half(Half(x)), 6);
    assert Halves(Half(Half(x)), 6) == Halves(y, 4);
    assert Halves(y, 4) == Halves(Half(Half(y)), 2);
  }

  /** BitStep spelled out, for the check of the table. */
  function RawStep(r: bv32): (r': bv32) {
    if r & 1 == 1 then (r >> 1) ^ POLY else r >> 1
  }

  function Step8(r: bv32): (r': bv32) {
    RawStep(RawStep(RawStep(RawStep(RawStep(RawStep(RawStep(RawStep(r))))))))
  }

  lemma ShiftOne(x: bv32, k: nat)
    ensures Shift(x, k + 1) == Shift(RawStep(x), k)
  {
  }

  lemma Shift8(x: bv32)
    ensures Shift(x, 8) == Step8(x)
  {
    hide RawStep, BitStep;
    var x2 := RawStep(RawStep(x));
    var x4 := RawStep(RawStep(x2));
    var x6 := RawStep(RawStep(x4));
    ShiftOne(x, 7);
    ShiftOne(RawStep(x), 6);
    ShiftOne(x2, 5);
    ShiftOne(RawStep(x2), 4);
    ShiftOne(x4, 3);
    ShiftOne(RawStep(x4), 2);
    ShiftOne(x6, 1);
    ShiftOne(RawStep(x6), 0);
  }

  // ---------- feeding bits is xoring them in ahead of time ----------

  lemma FeedEvenEven(r: bv32, b: bv32)
    requires r & 1 == 0 && b & 1 == 0
    ensures BitStep(Xor(r, b)) == Xor(FeedBit(r, Odd(b)), Half(b))
  {
  }

  lemma FeedEvenOdd(r: bv32, b: bv32)
    requires r & 1 == 0 && b & 1 == 1
    ensures BitStep(Xor(r, b)) == Xor(FeedBit(r, Odd(b)), Half(b))
  {
  }

  lemma FeedOddEven(r: bv32, b: bv32)
    requires r & 1 == 1 && b & 1 == 0
    ensures BitStep(Xor(r, b)) == Xor(FeedBit(r, Odd(b)), Half(b))
  {
  }

  lemma FeedOddOdd(r: bv32, b: bv32)
    requires r & 1 == 1 && b & 1 == 1
    ensures BitStep(Xor(r, b)) == Xor(FeedBit(r, Odd(b)), Half(b))
  {
  }

  lemma FeedLaw(r: bv32, b: bv32)
    ensures BitStep(Xor(r, b)) == Xor(FeedBit(r, Odd(b)), Half(b))
  {
    hide Xor, BitStep, FeedBit, Half, Odd;
    if r & 1 == 1 {
      if b & 1 == 1 {
        FeedOddOdd(r, b);
      } else {
        FeedOddEven(r, b);
      }
    } else if b & 1 == 1 {
      FeedEvenOdd(r, b);
    } else {
      FeedEvenEven(r, b);
    }
  }

  lemma {:induction false} FeedIsShift(r: bv32, b: bv32, k: nat)
    ensures Shift(Xor(r, b), k) == Xor(FeedBits(r, b, k), Halves(b, k))
    decreases k
  {
    hide Xor, Half, Odd, BitStep, FeedBit;
    if k > 0 {
      FeedLaw(r, b);
      FeedIsShift(FeedBit(r, Odd(b)), Half(b), k - 1);
    }
  }

  lemma XorZero(a: bv32, z: bv32)
    requires z == 0
    ensures Xor(a, z) == a
  {
  }

  lemma WideHigh(b: bv8)
    ensures Shr8(Wide(b)) == 0
  {
  }

  lemma FeedByteIsShift(r: bv32, b: bv8)
    ensures FeedByte(r, b) == Shift(Xor(r, Wide(b)), 8)
  {
    hide Xor, Wide, Shr8, FeedBits, Shift, Halves;
    var w := Wide(b);
    FeedIsShift(r, w, 8);
    Halves8(w);
    WideHigh(b);
    XorZero(FeedByte(r, b), Halves(w, 8));
  }

  // ---------- bits above the low byte only move ----------

  predicate LowZero(h: bv32, j: nat)
    decreases j
  {
    j == 0 || (!Odd(h) && LowZero(Half(h), j - 1))
  }

  lemma PeelOdd(lo: bv32, hi: bv32)
    requires lo & 1 == 1 && hi & 1 == 0
    ensures BitStep(Xor(lo, hi)) == Xor(BitStep(lo), Half(hi))
  {
  }

  lemma PeelEven(lo: bv32, hi: bv32)
    requires lo & 1 == 0 && hi & 1 == 0
    ensures BitStep(Xor(lo, hi)) == Xor(BitStep(lo), Half(hi))
  {
  }

  lemma PeelLaw(lo: bv32, hi: bv32)
    requires !Odd(hi)
    ensures BitStep(Xor(lo, hi)) == Xor(BitStep(lo), Half(hi))
  {
    hide Xor, BitStep, Half;
    if lo & 1 == 1 {
      PeelOdd(lo, hi);
    } else {
      PeelEven(lo, hi);
    }
  }

  lemma {:induction false} PeelShift(lo: bv32, hi: bv32, k: nat)
    requires LowZero(hi, k)
    ensures Shift(Xor(lo, hi), k) == Xor(Shift(lo, k), Halves(hi, k))
    decreases k
  {
    hide Xor, Half, Odd, BitStep;
    if k > 0 {
      PeelLaw(lo, hi);
      PeelShift(BitStep(lo), Half(hi), k - 1);
    }
  }

  function High(x: bv32): (h: bv32) { x & 0xffff_ff00 }

  lemma LowZero8(h: bv32)
    requires h & 0xff == 0
    ensures LowZero(h, 8)
  {
    assert LowZero(h >> 7, 1);
    assert LowZero(h >> 6, 2);
    assert LowZero(h >> 5, 3);
    assert LowZero(h >> 4, 4);
    assert LowZero(h >> 3, 5);
    assert LowZero(h >> 2, 6);
    assert LowZero(h >> 1, 7);
  }

  lemma HighIsEven(x: bv32)
    ensures LowZero(High(x), 8)
  {
    hide LowZero;
    LowZero8(High(x));
  }

  lemma SplitWord(x: bv32)
    ensures x == Xor(Wide(Low(x)), High(x)) && Shr8(High(x)) == Shr8(x)
  {
  }

  lemma ShiftByte(x: bv32)
    ensures Shift(x, 8) == Xor(Shift(Wide(Low(x)), 8), Shr8(x))
  {
    hide *;
    SplitWord(x);
    HighIsEven(x);
    PeelShift(Wide(Low(x)), High(x), 8);
    Halves8(High(x));
  }

  // ---------- the table and the loop ----------

  predicate EntryIsShift(x: bv8) {
    && |TABLE| == 16
    && (x >> 4) as int < 16
    && |TABLE[(x >> 4) as int]| == 16
    && (x & 15) as int < 16
    && TABLE[(x >> 4) as int][(x & 15) as int] == Step8(x as bv32)
  }

  lemma LowerTable(x: bv8)
    requires x <= 0x7f
    ensures EntryIsShift(x)
  {
  }

  lemma UpperTable(x: bv8)
    requires x > 0x7f
    ensures EntryIsShift(x)
  {
  }

  function Lookup(x: bv8): (r: bv32) {
    TableEntry(x);
    TABLE[(x >> 4) as int][(x & 15) as int]
  }

  lemma TableEntry(x: bv8)
    ensures EntryIsShift(x)
  {
    hide *;
    if x <= 0x7f {
      LowerTable(x);
    } else {
      UpperTable(x);
    }
  }

  lemma LookupStep8(x: bv8)
    ensures Lookup(x) == Step8(Wide(x))
  {
    hide Step8;
    TableEntry(x);
  }

  /** Each of the 256 entries is eight shifts of its own index. */
  lemma LookupIsShift(x: bv8)
    ensures Lookup(x) == Shift(Wide(x), 8)
  {
    hide *;
    LookupStep8(x);
    Shift8(Wide(x));
  }

  /** The table index a byte selects. */
  function Index(r: bv32, b: bv8): (f: bv8) { Low(Xor(r, Wide(b))) }

  /** The loop body of crc32. */
  function TableByte(r: bv32, b: bv8): (r': bv32) { Xor(Lookup(Index(r, b)), Shr8(r)) }

  lemma MixHigh(r: bv32, b: bv8)
    ensures Shr8(Xor(r, Wide(b))) == Shr8(r)
  {
  }

  /** One table step is eight steps of the serial register. */
  lemma TableByteIsSerial(r: bv32, b: bv8)
    ensures TableByte(r, b) == FeedByte(r, b)
  {
    hide Xor, Lookup, Shr8, FeedByte, Low, Wide, Shift;
    FeedByteIsShift(r, b);
    ShiftByte(Xor(r, Wide(b)));
    MixHigh(r, b);
    LookupIsShift(Index(r, b));
  }

  method Crc32(buf: seq<bv8>, seed: bv32) returns (val: bv32)
    ensures val == Serial(seed, buf)
  {
    hide *;
    val := seed;
    assert buf[..0] == [];
    SerialEmpty(seed);
    for i := 0 to |buf|
      invariant val == Serial(seed, buf[..i])
    {
      SerialSnoc(seed, buf, i);
      TableByteIsSerial(val, buf[i]);
      val := TableByte(val, buf[i]);
    }
    assert buf[..|buf|] == buf;
  }

  lemma SerialEmpty(r: bv32)
    ensures Serial(r, []) == r
  {
  }

  // ---------- going backwards ----------

  lemma TopByteInjective(x: bv8, y: bv8)
    requires Step8(x as bv32) >> 24 == Step8(y as bv32) >> 24
    ensures x == y
  {
  }

  function Top(r: bv32): (t: bv32) { r >> 24 }

  lemma TopOfXor(t: bv32, r: bv32)
    ensures Top(Xor(t, Shr8(r))) == Top(t)
  {
  }

  lemma LookupInjective(f: bv8, g: bv8)
    requires Top(Lookup(f)) == Top(Lookup(g))
    ensures f == g
  {
    hide Lookup, Step8;
    LookupStep8(f);
    LookupStep8(g);
    TopByteInjective(f, g);
  }

  /** Registers that agree in the top byte were stepped with the same table entry. */
  lemma SameIndex(r: bv32, a: bv8, r': bv32, b: bv8)
    requires Top(TableByte(r, a)) == Top(TableByte(r', b))
    ensures Index(r, a) == Index(r', b)
  {
    hide Xor, Lookup, Shr8, Index, Top;
    TopOfXor(Lookup(Index(r, a)), r);
    TopOfXor(Lookup(Index(r', b)), r');
    LookupInjective(Index(r, a), Index(r', b));
  }

  /** The upper `n` bytes of a register. */
  function Upper(r: bv32, n: nat): (u: bv32) {
    if n >= 4 then r
    else if n == 3 then r & 0xffff_ff00
    else if n == 2 then r & 0xffff_0000
    else if n == 1 then r & 0xff00_0000
    else 0
  }

  lemma TopMasked(r: bv32)
    ensures Top(r & 0xffff_ff00) == Top(r)
    ensures Top(r & 0xffff_0000) == Top(r)
    ensures Top(r & 0xff00_0000) == Top(r)
  {
  }

  lemma Upper4(r: bv32, n: nat)
    requires n >= 4
    ensures Upper(r, n) == r
  {
  }

  lemma TopOfUpper3(r: bv32)
    ensures Top(Upper(r, 3)) == Top(r)
  {
    TopMasked(r);
    hide Top;
  }

  lemma TopOfUpper2(r: bv32)
    ensures Top(Upper(r, 2)) == Top(r)
  {
    TopMasked(r);
    hide Top;
  }

  lemma TopOfUpper1(r: bv32)
    ensures Top(Upper(r, 1)) == Top(r)
  {
    TopMasked(r);
    hide Top;
  }

  lemma TopOfUpper(r: bv32, n: nat)
    requires n >= 1
    ensures Top(Upper(r, n)) == Top(r)
  {
    hide *;
    if n >= 4 {
      Upper4(r, n);
    } else if n == 3 {
      TopOfUpper3(r);
    } else if n == 2 {
      TopOfUpper2(r);
    } else {
      TopOfUpper1(r);
    }
  }

  lemma Cancel4(t: bv32, r: bv32, s: bv32, u: bv32, v: bv32)
    requires u == Xor(t, Shr8(r)) && v == Xor(t, Shr8(s)) && Upper(u, 4) == Upper(v, 4)
    ensures Upper(r, 3) == Upper(s, 3)
  {
  }

  lemma Cancel3(t: bv32, r: bv32, s: bv32, u: bv32, v: bv32)
    requires u == Xor(t, Shr8(r)) && v == Xor(t, Shr8(s)) && Upper(u, 3) == Upper(v, 3)
    ensures Upper(r, 2) == Upper(s, 2)
  {
  }

  lemma Cancel2(t: bv32, r: bv32, s: bv32, u: bv32, v: bv32)
    requires u == Xor(t, Shr8(r)) && v == Xor(t, Shr8(s)) && Upper(u, 2) == Upper(v, 2)
    ensures Upper(r, 1) == Upper(s, 1)
  {
  }

  lemma Cancel1(r: bv32, s: bv32)
    ensures Upper(r, 0) == Upper(s, 0)
  {
  }

  lemma Cancel(t: bv32, r: bv32, s: bv32, u: bv32, v: bv32, n: nat)
    requires u == Xor(t, Shr8(r)) && v == Xor(t, Shr8(s))
    requires 1 <= n <= 4 && Upper(u, n) == Upper(v, n)
    ensures Upper(r, n - 1) == Upper(s, n - 1)
  {
    hide *;
    if n == 4 {
      Cancel4(t, r, s, u, v);
    } else if n == 3 {
      Cancel3(t, r, s, u, v);
    } else if n == 2 {
      Cancel2(t, r, s, u, v);
    } else {
      Cancel1(r, s);
    }
  }

  /** One step back: the table entries were the same and one byte less is known to agree. */
  lemma StepBack(r: bv32, a: bv8, r': bv32, b: bv8, n: nat)
    requires 1 <= n <= 4 && Upper(TableByte(r, a), n) == Upper(TableByte(r', b), n)
    ensures Index(r, a) == Index(r', b) && Upper(r, n - 1) == Upper(r', n - 1)
  {
    hide Xor, Lookup, Shr8, Index, Top, Upper;
    TopOfUpper(TableByte(r, a), n);
    TopOfUpper(TableByte(r', b), n);
    SameIndex(r, a, r', b);
    Cancel(Lookup(Index(r, a)), r, r', TableByte(r, a), TableByte(r', b), n);
  }

  /** The table indices met while feeding `s`. */
  function Indices(r: bv32, s: seq<bv8>): (f: seq<bv8>)
    ensures |f| == |s|
    decreases |s|
  {
    if s == [] then [] else [Index(r, s[0])] + Indices(FeedByte(r, s[0]), s[1..])
  }

  lemma IndexInjective(r: bv32, a: bv8, b: bv8)
    requires Index(r, a) == Index(r, b)
    ensures a == b
  {
  }

  /** From one register, the indices determine the message. */
  lemma {:induction false} IndicesInjective(r: bv32, s: seq<bv8>, t: seq<bv8>)
    requires |s| == |t| && Indices(r, s) == Indices(r, t)
    ensures s == t
    decreases |s|
  {
    hide Index, FeedByte;
    if s != [] {
      assert Indices(r, s)[0] == Index(r, s[0]) && Indices(r, t)[0] == Index(r, t[0]);
      IndexInjective(r, s[0], t[0]);
      assert Indices(r, s)[1..] == Indices(FeedByte(r, s[0]), s[1..]);
      assert Indices(r, t)[1..] == Indices(FeedByte(r, s[0]), t[1..]);
      IndicesInjective(FeedByte(r, s[0]), s[1..], t[1..]);
      assert s == [s[0]] + s[1..] && t == [t[0]] + t[1..];
    }
  }

  lemma {:induction false} IndicesConcat(r: bv32, s: seq<bv8>, b: bv8)
    ensures Indices(r, s + [b]) == Indices(r, s) + [Index(Serial(r, s), b)]
    decreases |s|
  {
    hide Index, FeedByte;
    if s == [] {
      assert s + [b] == [b];
      assert [b][1..] == [];
    } else {
      IndicesConcat(FeedByte(r, s[0]), s[1..], b);
      assert (s + [b])[1..] == s[1..] + [b];
    }
  }

  /** Registers that agree in n bytes were fed through the same last n table entries. */
  lemma {:induction false} SameIndices(r: bv32, s: seq<bv8>, r': bv32, t: seq<bv8>, n: nat)
    requires |s| == |t| <= n <= 4 && Upper(Serial(r, s), n) == Upper(Serial(r', t), n)
    ensures Indices(r, s) == Indices(r', t)
    decreases |s|
  {
    hide Index, FeedByte, Upper, TableByte;
    if s != [] {
      var k := |s| - 1;
      var p, q := s[..k], t[..k];
      SerialSnoc(r, s, k);
      SerialSnoc(r', t, k);
      assert s[..k + 1] == s == p + [s[k]] && t[..k + 1] == t == q + [t[k]];
      TableByteIsSerial(Serial(r, p), s[k]);
      TableByteIsSerial(Serial(r', q), t[k]);
      StepBack(Serial(r, p), s[k], Serial(r', q), t[k], n);
      SameIndices(r, p, r', q, n - 1);
      IndicesConcat(r, p, s[k]);
      IndicesConcat(r', q, t[k]);
    }
  }

  /** From one register, different windows of up to four bytes lead to different registers. */
  lemma WindowInjective(r: bv32, a: seq<bv8>, b: seq<bv8>)
    requires |a| == |b| <= 4 && Serial(r, a) == Serial(r, b)
    ensures a == b
  {
    hide Serial, Indices;
    SameIndices(r, a, r, b, 4);
    IndicesInjective(r, a, b);
  }

  /** And from different registers, one message never leads to the same register. */
  lemma {:induction false} SerialInjective(r: bv32, r': bv32, s: seq<bv8>)
    requires Serial(r, s) == Serial(r', s)
    ensures r == r'
    decreases |s|
  {
    hide FeedByte;
    if s != [] {
      SerialInjective(FeedByte(r, s[0]), FeedByte(r', s[0]), s[1..]);
      FeedByteInjective(r, r', s[0]);
    }
  }

  lemma SameRegister(r: bv32, r': bv32, b: bv8)
    requires Index(r, b) == Index(r', b) && Upper(r, 3) == Upper(r', 3)
    ensures r == r'
  {
  }

  lemma FeedByteInjective(r: bv32, r': bv32, b: bv8)
    requires FeedByte(r, b) == FeedByte(r', b)
    ensures r == r'
  {
    hide FeedByte, TableByte, Index, Upper;
    TableByteIsSerial(r, b);
    TableByteIsSerial(r', b);
    StepBack(r, b, r', b, 4);
    SameRegister(r, r', b);
  }

  // ---------- the EFI CRC and buffers that carry their own ----------

  /** The bytes a little-endian store of `w` writes. */
  function WordBytes(w: bv32): (s: seq<bv8>)
    ensures |s| == 4
  {
    [Low(w), Low(Shr8(w)), Low(Shr8(Shr8(w))), Low(Shr8(Shr8(Shr8(w))))]
  }

  function Not(w: bv32): (r: bv32) { w ^ ONES }

  const FF: bv8 := 0xff

  const RESIDUE: bv32 := Serial(0, [FF, FF, FF, FF])

  lemma IndexOfComplement(k: bv32, s: bv32)
    ensures Index(Xor(k, s), Low(Not(s))) == Index(k, FF)
  {
  }

  lemma Shr8OfXor(k: bv32, s: bv32)
    ensures Shr8(Xor(k, s)) == Xor(Shr8(k), Shr8(s))
  {
  }

  lemma XorAssociative(a: bv32, b: bv32, c: bv32)
    ensures Xor(a, Xor(b, c)) == Xor(Xor(a, b), c)
  {
  }

  /** A byte of the complemented register leaves nothing of that register behind. */
  lemma ComplementStep(k: bv32, s: bv32, b: bv8)
    requires b == Low(Not(s))
    ensures FeedByte(Xor(k, s), b) == Xor(FeedByte(k, FF), Shr8(s))
  {
    hide Xor, Shr8, Lookup, Index, FeedByte, Low, Not;
    TableByteIsSerial(Xor(k, s), b);
    TableByteIsSerial(k, FF);
    IndexOfComplement(k, s);
    Shr8OfXor(k, s);
    XorAssociative(Lookup(Index(k, FF)), Shr8(k), Shr8(s));
  }

  lemma ComplementBytes(r: bv32)
    ensures Low(Shr8(Not(r))) == Low(Not(Shr8(r)))
    ensures Low(Shr8(Shr8(Not(r)))) == Low(Not(Shr8(Shr8(r))))
    ensures Low(Shr8(Shr8(Shr8(Not(r))))) == Low(Not(Shr8(Shr8(Shr8(r)))))
  {
  }

  lemma FourShifts(r: bv32)
    ensures Shr8(Shr8(Shr8(Shr8(r)))) == 0 && Xor(0, r) == r
  {
  }

  lemma SerialFour(r: bv32, s: seq<bv8>)
    requires |s| == 4
    ensures Serial(r, s) == FeedByte(FeedByte(FeedByte(FeedByte(r, s[0]), s[1]), s[2]), s[3])
  {
    hide FeedByte, Serial;
    SerialSnoc(r, s, 0);
    SerialSnoc(r, s, 1);
    SerialSnoc(r, s, 2);
    SerialSnoc(r, s, 3);
    SerialEmpty(r);
    assert s[..0] == [] && s[..4] == s;
  }

  /** Feeding a register its own complement always ends in the residue. */
  lemma ComplementEndsInResidue(r: bv32)
    ensures Serial(r, WordBytes(Not(r))) == RESIDUE
  {
    hide Xor, Shr8, FeedByte, Low, Not, Serial;
    var s1 := Shr8(r);
    var s2 := Shr8(s1);
    var s3 := Shr8(s2);
    var k1 := FeedByte(0, FF);
    var k2 := FeedByte(k1, FF);
    var k3 := FeedByte(k2, FF);
    ComplementBytes(r);
    FourShifts(r);
    ComplementStep(0, r, Low(Not(r)));
    ComplementStep(k1, s1, Low(Not(s1)));
    ComplementStep(k2, s2, Low(Not(s2)));
    ComplementStep(k3, s3, Low(Not(s3)));
    SerialFour(r, WordBytes(Not(r)));
    SerialFour(0, [FF, FF, FF, FF]);
    XorZero(FeedByte(k3, FF), Shr8(s3));
  }

  /** efi_crc32: seeded with ones, complemented at the end, as the four bytes stored. */
  function EfiCrc(s: seq<byte>): (c: seq<byte>)
    ensures |c| == 4
  {
    Ints(WordBytes(Not(Serial(ONES, Bits(s)))))
  }

  method EfiCrc32(buf: seq<byte>) returns (crc: seq<byte>)
    ensures crc == EfiCrc(buf)
  {
    var val := Crc32(Bits(buf), ONES);
    crc := Ints(WordBytes(Not(val)));
  }

  /** The check both importers make: the last four bytes are the CRC of the others. */
  predicate Sealed(s: seq<byte>)
  {
    |s| >= 4 && s[|s| - 4..] == EfiCrc(s[..|s| - 4])
  }

  /** A buffer carries its own CRC exactly when it drives the register to the residue. */
  lemma SealedIffResidue(s: seq<byte>)
    requires |s| >= 4
    ensures Sealed(s) <==> Serial(ONES, Bits(s)) == RESIDUE
  {
    hide Serial, Not, WordBytes, Bits, Ints;
    var body, tail := s[..|s| - 4], s[|s| - 4..];
    assert s == body + tail;
    BitsConcat(body, tail);
    var r := Serial(ONES, Bits(body));
    SerialConcat(ONES, Bits(body), Bits(tail));
    ComplementEndsInResidue(r);
    BitsInts(WordBytes(Not(r)));
    if Serial(ONES, Bits(s)) == RESIDUE {
      WindowInjective(r, Bits(tail), WordBytes(Not(r)));
      BitsInjective(tail, EfiCrc(body));
    }
  }

  ghost predicate BurstApart(s: seq<byte>, t: seq<byte>, i: nat, k: nat)
  {
    |s| == |t| && k <= 4 && i + k <= |s| && s != t && s[..i] == t[..i] && s[i + k..] == t[i + k..]
  }

  /** Buffers that differ only inside four consecutive bytes leave different registers. */
  lemma BurstChangesRegister(r: bv32, s: seq<byte>, t: seq<byte>, i: nat, k: nat)
    requires BurstApart(s, t, i, k)
    ensures Serial(r, Bits(s)) != Serial(r, Bits(t))
  {
    hide Serial, Bits;
    var x, a, b, z := s[..i], s[i..i + k], t[i..i + k], s[i + k..];
    assert s == x + (a + z) && t == x + (b + z);
    var q := Serial(r, Bits(x));
    BitsConcat(x, a + z);
    BitsConcat(x, b + z);
    BitsConcat(a, z);
    BitsConcat(b, z);
    SerialConcat(r, Bits(x), Bits(a) + Bits(z));
    SerialConcat(r, Bits(x), Bits(b) + Bits(z));
    SerialConcat(q, Bits(a), Bits(z));
    SerialConcat(q, Bits(b), Bits(z));
    if Serial(r, Bits(s)) == Serial(r, Bits(t)) {
      SerialInjective(Serial(q, Bits(a)), Serial(q, Bits(b)), Bits(z));
      WindowInjective(q, Bits(a), Bits(b));
      BitsInjective(a, b);
      assert false;
    }
  }

  /** No buffer within a four-byte burst of a sealed one is sealed. */
  lemma BurstBreaksSeal(s: seq<byte>, t: seq<byte>, i: nat, k: nat)
    requires Sealed(s) && BurstApart(s, t, i, k)
    ensures !Sealed(t)
  {
    hide Sealed;
    assert |s| >= 4 by { SealedSize(s); }
    BurstChangesRegister(ONES, s, t, i, k);
    SealedIffResidue(s);
    SealedIffResidue(t);
  }

  lemma SealedSize(s: seq<byte>)
    requires Sealed(s)
    ensures |s| >= 4
  {
  }
}
