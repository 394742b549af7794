/**
  The CRC is linear: whether a change goes unnoticed depends on the difference alone.
 */
module CrcLinear {
  import opened Bytes
  import opened Crc32

  function XorByte(a: bv8, b: bv8): (r: bv8) { a ^ b }

  /** The difference of two messages. */
  function XorAll(s: seq<bv8>, t: seq<bv8>): (r: seq<bv8>)
    requires |s| == |t|
    ensures |r| == |s|
  {
    seq(|s|, i requires 0 <= i < |s| => XorByte(s[i], t[i]))
  }

  lemma HalfLinear(x: bv32, y: bv32)
    ensures Half(Xor(x, y)) == Xor(Half(x), Half(y))
  {
  }

  lemma OddLinear(x: bv32, y: bv32)
    ensures Odd(Xor(x, y)) <==> Odd(x) != Odd(y)
  {
  }

  lemma XorSwap(a: bv32, b: bv32)
    ensures Xor(a, b) == Xor(b, a)
  {
  }

  lemma Regroup(a: bv32, b: bv32, c: bv32, d: bv32)
    ensures Xor(Xor(a, b), Xor(c, d)) == Xor(Xor(a, c), Xor(b, d))
  {
    hide Xor;
    XorAssociative(a, b, Xor(c, d));
    XorAssociative(b, c, d);
    XorSwap(b, c);
    XorAssociative(c, b, d);
    XorAssociative(a, c, Xor(b, d));
  }

  lemma XorTwice(p: bv32, a: bv32)
    ensures Xor(p, p) == 0 && Xor(a, 0) == a
  {
  }

  lemma BitStepLinear(x: bv32, y: bv32)
    ensures BitStep(Xor(x, y)) == Xor(BitStep(x), BitStep(y))
  {
    hide Xor, Half, Odd;
    HalfLinear(x, y);
    OddLinear(x, y);
    var a, b := Half(x), Half(y);
    Regroup(a, POLY, b, POLY);
    XorTwice(POLY, Xor(a, b));
    XorAssociative(a, b, POLY);
    XorAssociative(a, POLY, b);
    XorSwap(POLY, b);
  }

  lemma {:induction false} ShiftLinear(x: bv32, y: bv32, k: nat)
    ensures Shift(Xor(x, y), k) == Xor(Shift(x, k), Shift(y, k))
    decreases k
  {
    hide Xor, BitStep;
    if k > 0 {
      BitStepLinear(x, y);
      ShiftLinear(BitStep(x), BitStep(y), k - 1);
    }
  }

  lemma WideLinear(a: bv8, b: bv8)
    ensures Wide(XorByte(a, b)) == Xor(Wide(a), Wide(b))
  {
  }

  lemma FeedByteLinear(r: bv32, q: bv32, a: bv8, b: bv8)
    ensures FeedByte(Xor(r, q), XorByte(a, b)) == Xor(FeedByte(r, a), FeedByte(q, b))
  {
    hide FeedByte, Xor, Wide, XorByte, Shift;
    FeedByteIsShift(Xor(r, q), XorByte(a, b));
    FeedByteIsShift(r, a);
    FeedByteIsShift(q, b);
    WideLinear(a, b);
    Regroup(r, q, Wide(a), Wide(b));
    ShiftLinear(Xor(r, Wide(a)), Xor(q, Wide(b)), 8);
  }

  /** The register of a difference is the difference of the registers. */
  lemma {:induction false} SerialLinear(r: bv32, q: bv32, s: seq<bv8>, t: seq<bv8>)
    requires |s| == |t|
    ensures Serial(Xor(r, q), XorAll(s, t)) == Xor(Serial(r, s), Serial(q, t))
    decreases |s|
  {
    hide FeedByte, Xor, XorByte;
    if s != [] {
      FeedByteLinear(r, q, s[0], t[0]);
      assert XorAll(s, t)[1..] == XorAll(s[1..], t[1..]);
      SerialLinear(FeedByte(r, s[0]), FeedByte(q, t[0]), s[1..], t[1..]);
    }
  }

  lemma XorSame(a: bv32, b: bv32)
    ensures Xor(a, a) == 0 && (Xor(a, b) == 0 <==> a == b)
  {
  }

  /** A change of a buffer that carries its CRC goes unnoticed if and only if the difference alone, fed into an empty
      register, leaves it empty. */
  lemma UnseenIff(s: seq<byte>, t: seq<byte>)
    requires Sealed(s) && |s| == |t|
    ensures Sealed(t) <==> Serial(0, XorAll(Bits(s), Bits(t))) == 0
  {
    hide Sealed, Serial, Bits, Xor, XorAll;
    SealedSize(s);
    SealedIffResidue(s);
    SealedIffResidue(t);
    SerialLinear(ONES, ONES, Bits(s), Bits(t));
    XorSame(ONES, ONES);
    XorSame(Serial(ONES, Bits(s)), Serial(ONES, Bits(t)));
  }

  // ---------- a change that goes unnoticed ----------

  /** A byte fed into the register. */
  function Fed(r: bv32, b: bv8): (r': bv32) { Step8(r ^ (b as bv32)) }

  lemma FedIs(r: bv32, b: bv8)
    ensures FeedByte(r, b) == Fed(r, b)
  {
    FeedByteIsShift(r, b);
    Shift8(Xor(r, Wide(b)));
    hide FeedByte, Shift, Step8;
  }

  function Block(r: bv32, s: seq<bv8>): (r': bv32)
    requires |s| == 8
  {
    Fed(Fed(Fed(Fed(Fed(Fed(Fed(Fed(r, s[0]), s[1]), s[2]), s[3]), s[4]), s[5]), s[6]), s[7])
  }

  lemma FeedFour(r: bv32, s: seq<bv8>)
    requires |s| == 4
    ensures Serial(r, s) == Fed(Fed(Fed(Fed(r, s[0]), s[1]), s[2]), s[3])
  {
    hide Fed, FeedByte;
    SerialFour(r, s);
    FedIs(r, s[0]);
    FedIs(Fed(r, s[0]), s[1]);
    FedIs(Fed(Fed(r, s[0]), s[1]), s[2]);
    FedIs(Fed(Fed(Fed(r, s[0]), s[1]), s[2]), s[3]);
  }

  lemma FeedBlock(r: bv32, s: seq<bv8>)
    requires |s| == 8
    ensures Serial(r, s) == Block(r, s)
  {
    hide Fed, Serial;
    assert s == s[..4] + s[4..];
    SerialConcat(r, s[..4], s[4..]);
    FeedFour(r, s[..4]);
    FeedFour(Serial(r, s[..4]), s[4..]);
  }

  const NOTHING: seq<bv8> := [0, 0, 0, 0, 0, 0, 0, 0]
  const FIRST: seq<bv8> := [0, 0, 0, 0, 0x68, 0, 0, 0]
  const LAST: seq<bv8> := [0, 0, 0, 0, 0, 0xc3, 0xc4, 0x5d]

  function Two(r: bv32): (r': bv32) { Step8(Step8(r)) }
  function Four(r: bv32): (r': bv32) { Two(Two(r)) }
  function Eight(r: bv32): (r': bv32) { Four(Four(r)) }

  lemma FedNothing(r: bv32)
    ensures Fed(r, 0) == Step8(r)
  {
    hide Step8;
  }

  lemma BlockNothing(r: bv32)
    ensures Block(r, NOTHING) == Eight(r)
  {
    hide Fed, Step8;
    FedNothing(r);
    var r1 := Step8(r);
    FedNothing(r1);
    var r2 := Step8(r1);
    FedNothing(r2);
    var r3 := Step8(r2);
    FedNothing(r3);
    var r4 := Step8(r3);
    FedNothing(r4);
    var r5 := Step8(r4);
    FedNothing(r5);
    var r6 := Step8(r5);
    FedNothing(r6);
    FedNothing(Step8(r6));
  }

  // The registers after each block of the difference.

  lemma Trail0()
    ensures Block(0, FIRST) == 0xfe92dfec
  {
    hide Fed;
    StepZero();
    FedNothing(0);
    var r := Fed(0, 0x68);
    FedNothing(r);
    FedNothing(Step8(r));
    FedNothing(Step8(Step8(r)));
    hide Step8;
    TrailFirst();
  }

  lemma StepZero()
    ensures Step8(0) == 0
  {
  }

  lemma TrailFirst()
    ensures Step8(Step8(Step8(Fed(0, 0x68)))) == 0xfe92dfec
  {
  }

  lemma Trail1()
    ensures Eight(0xfe92dfec) == 0x2e5e1af6
  {
    assert Two(0xfe92dfec) == 0xe4a78d37;
    assert Two(0xe4a78d37) == 0x030ebb0e;
    assert Two(0x030ebb0e) == 0xc2304484;
    assert Two(0xc2304484) == 0x2e5e1af6;
  }

  lemma Trail2()
    ensures Eight(0x2e5e1af6) == 0xb2df26af
  {
    assert Two(0x2e5e1af6) == 0xbf84911f;
    assert Two(0xbf84911f) == 0x4a5212c8;
    assert Two(0x4a5212c8) == 0xf09a665c;
    assert Two(0xf09a665c) == 0xb2df26af;
  }

  lemma Trail3()
    ensures Eight(0xb2df26af) == 0x566f0c08
  {
    assert Two(0xb2df26af) == 0xfb929704;
    assert Two(0xfb929704) == 0x0a073871;
    assert Two(0x0a073871) == 0x1e26fa2e;
    assert Two(0x1e26fa2e) == 0x566f0c08;
  }

  lemma Trail4()
    ensures Eight(0x566f0c08) == 0x5ab4f625
  {
    assert Two(0x566f0c08) == 0xc16f904c;
    assert Two(0xc16f904c) == 0xacc35222;
    assert Two(0xacc35222) == 0x22d7da3b;
    assert Two(0x22d7da3b) == 0x5ab4f625;
  }

  lemma Trail5()
    ensures Eight(0x5ab4f625) == 0x45c0e5d8
  {
    assert Two(0x5ab4f625) == 0xbc2ddd7a;
    assert Two(0xbc2ddd7a) == 0x2db28338;
    assert Two(0x2db28338) == 0x632e43d3;
    assert Two(0x632e43d3) == 0x45c0e5d8;
  }

  lemma Trail6()
    ensures Eight(0x45c0e5d8) == 0x059b2d94
  {
    assert Two(0x45c0e5d8) == 0x99811c20;
    assert Two(0x99811c20) == 0x8185e16c;
    assert Two(0x8185e16c) == 0x1e4577c0;
    assert Two(0x1e4577c0) == 0x059b2d94;
  }

  lemma Trail7()
    ensures Eight(0x059b2d94) == 0xbae18ba7
  {
    assert Two(0x059b2d94) == 0x50f216f0;
    assert Two(0x50f216f0) == 0xe068041e;
    assert Two(0xe068041e) == 0xd32c1bae;
    assert Two(0xd32c1bae) == 0xbae18ba7;
  }

  lemma Trail8()
    ensures Eight(0xbae18ba7) == 0xadf6880f
  {
    assert Two(0xbae18ba7) == 0x9b2cca67;
    assert Two(0x9b2cca67) == 0x510d4de2;
    assert Two(0x510d4de2) == 0x6425fd4e;
    assert Two(0x6425fd4e) == 0xadf6880f;
  }

  lemma Trail9()
    ensures Block(0xadf6880f, LAST) == 0
  {
  }

  lemma TrailStart()
    ensures Eight(0) == 0
  {
    StepZero();
    hide Step8;
  }

  lemma FeedFirst(r: bv32, b: seq<bv8>, rest: seq<bv8>)
    requires |b| == 8
    ensures Serial(r, b + rest) == Serial(Block(r, b), rest)
  {
    hide Serial, Block;
    SerialConcat(r, b, rest);
    FeedBlock(r, b);
  }

  /** Four changed bytes of 96: one at 20, and three of the four at the end. */
  function Mask(i: nat): (b: bv8) {
    if i == 20 then 0x68 else if i == 93 then 0xc3 else if i == 94 then 0xc4 else if i == 95 then 0x5d else 0
  }

  function Hidden(): (s: seq<bv8>)
    ensures |s| == 96
  {
    seq(96, i requires 0 <= i < 96 => Mask(i))
  }

  lemma HiddenBlocks()
    ensures Hidden() == NOTHING + (NOTHING + (FIRST + (NOTHING + (NOTHING + (NOTHING + (NOTHING + (NOTHING + (NOTHING
      + (NOTHING + (NOTHING + LAST))))))))))
  {
  }

  /** It leaves an empty register empty. */
  lemma HiddenUnseen()
    ensures Serial(0, Hidden()) == 0
  {
    TrailStart();
    Trail0();
    Trail1();
    Trail2();
    Trail3();
    Trail4();
    Trail5();
    Trail6();
    Trail7();
    Trail8();
    Trail9();
    HiddenBlocks();
    hide Serial, Block, Hidden, Mask, Eight;
    BlockNothing(0);
    BlockNothing(0xfe92dfec);
    BlockNothing(0x2e5e1af6);
    BlockNothing(0xb2df26af);
    BlockNothing(0x566f0c08);
    BlockNothing(0x5ab4f625);
    BlockNothing(0x45c0e5d8);
    BlockNothing(0x059b2d94);
    BlockNothing(0xbae18ba7);
    var t0 := NOTHING + LAST;
    var t1 := NOTHING + t0;
    var t2 := NOTHING + t1;
    var t3 := NOTHING + t2;
    var t4 := NOTHING + t3;
    var t5 := NOTHING + t4;
    var t6 := NOTHING + t5;
    var t7 := NOTHING + t6;
    var t8 := FIRST + t7;
    var t9 := NOTHING + t8;
    FeedFirst(0, NOTHING, t9);
    FeedFirst(0, NOTHING, t8);
    FeedFirst(0, FIRST, t7);
    FeedFirst(0xfe92dfec, NOTHING, t6);
    FeedFirst(0x2e5e1af6, NOTHING, t5);
    FeedFirst(0xb2df26af, NOTHING, t4);
    FeedFirst(0x566f0c08, NOTHING, t3);
    FeedFirst(0x5ab4f625, NOTHING, t2);
    FeedFirst(0x45c0e5d8, NOTHING, t1);
    FeedFirst(0x059b2d94, NOTHING, t0);
    FeedFirst(0xbae18ba7, NOTHING, LAST);
    FeedBlock(0xadf6880f, LAST);
  }

  lemma XorBack(a: bv8, b: bv8)
    ensures XorByte(a, XorByte(a, b)) == b
  {
  }

  /** Any sealed buffer of 96 bytes may change in this way and still be sealed. */
  lemma HiddenChange(s: seq<byte>, t: seq<byte>)
    requires Sealed(s) && |s| == |t| == 96 && Bits(t) == XorAll(Bits(s), Hidden())
    ensures Sealed(t)
  {
    hide Sealed, Serial, Bits, XorByte;
    UnseenIff(s, t);
    HiddenUnseen();
    var x := Bits(s);
    assert XorAll(x, Bits(t)) == Hidden() by {
      forall i | 0 <= i < 96 ensures XorAll(x, Bits(t))[i] == Hidden()[i] {
        XorBack(x[i], Hidden()[i]);
      }
    }
  }
}
