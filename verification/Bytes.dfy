/** Bytes, little-endian fields and the sequence facts that the other modules share. */
module Bytes {

  type byte = b: int | 0 <= b < 256

  datatype Option<+T> = None | Some(value: T)

  const TWO16 := 0x1_0000
  const TWO32 := 0x1_0000_0000
  const TWO64 := 0x1_0000_0000_0000_0000

  type u32 = n: nat | n < TWO32
  type u64 = n: nat | n < TWO64

  /** Reduction to an unsigned 32-bit value, as C does on a store or a conversion. */
  function U32(n: int): (r: nat)
    ensures r < TWO32
    ensures 0 <= n < TWO32 ==> r == n
  {
    n % TWO32
  }

  /** The int a 32-bit machine makes of an unsigned 32-bit value. */
  function Int32(n: int): (r: int)
    ensures -0x8000_0000 <= r < 0x8000_0000
    ensures -0x8000_0000 <= n < 0x8000_0000 ==> r == n
  {
    var u := U32(n);
    if u < 0x8000_0000 then u else u - TWO32
  }

  /** Little-endian store of `n` into `width` bytes. */
  function Put(n: int, width: nat): (s: seq<byte>)
    ensures |s| == width
    decreases width
  {
    if width == 0 then [] else [n % 256] + Put(n / 256, width - 1)
  }

  /** Little-endian load of a whole sequence. */
  function Get(s: seq<byte>): (n: nat)
  {
    if s == [] then 0 else s[0] + 256 * Get(s[1..])
  }

  function Pow256(k: nat): (r: nat)
    ensures r > 0
  {
    if k == 0 then 1 else 256 * Pow256(k - 1)
  }

  lemma {:induction false} GetPut(n: nat, width: nat)
    requires n < Pow256(width)
    ensures Get(Put(n, width)) == n
    decreases width
  {
    if width > 0 {
      GetPut(n / 256, width - 1);
      assert Put(n, width)[1..] == Put(n / 256, width - 1);
    }
  }

  lemma {:induction false} PutGet(s: seq<byte>)
    ensures Get(s) < Pow256(|s|)
    ensures Put(Get(s), |s|) == s
  {
    if s != [] {
      PutGet(s[1..]);
      assert Get(s) / 256 == Get(s[1..]) && Get(s) % 256 == s[0];
      assert s == [s[0]] + s[1..];
    }
  }

  /** A store keeps the low bits only. */
  lemma {:induction false} GetPutModulo(n: int, width: nat)
    ensures Get(Put(n, width)) == n % Pow256(width)
    decreases width
  {
    if width > 0 {
      GetPutModulo(n / 256, width - 1);
      assert Put(n, width)[1..] == Put(n / 256, width - 1);
      ModuloStep(n, Pow256(width - 1));
    }
  }

  lemma ModuloStep(n: int, p: int)
    requires p > 0
    ensures n % (256 * p) == n % 256 + 256 * ((n / 256) % p)
  {
    var m, big := n / 256, 256 * p;
    var q, r := m / p, m % p;
    assert m == p * q + r;
    assert 256 * (p * q) == big * q;
    ModuloOfSum(big, q, 256 * r + n % 256);
  }

  lemma ModuloOfSum(p: int, q: int, r: int)
    requires 0 <= r < p
    ensures (p * q + r) % p == r
  {
    var d, m := (p * q + r) / p, (p * q + r) % p;
    assert p * q + r == p * d + m;
    assert p * (q - d) == m - r;
    assert -p < p * (q - d) < p;
    assert q == d by { Between(p, q - d); }
  }

  lemma Between(p: int, k: int)
    requires p > 0 && -p < p * k < p
    ensures k == 0
  {
  }

  lemma Widths()
    ensures Pow256(1) == 256 && Pow256(2) == TWO16 && Pow256(4) == TWO32 && Pow256(8) == TWO64
  {
    assert Pow256(2) == 256 * Pow256(1);
    assert Pow256(3) == 256 * Pow256(2);
    assert Pow256(4) == 256 * Pow256(3);
    assert Pow256(5) == 256 * Pow256(4);
    assert Pow256(6) == 256 * Pow256(5);
    assert Pow256(7) == 256 * Pow256(6);
  }

  /** 32-bit fields: a store then a load gives the value modulo 2^32, and back. */
  lemma Field32(n: int)
    ensures |Put(n, 4)| == 4 && Get(Put(n, 4)) == U32(n)
  {
    Widths();
    GetPutModulo(n, 4);
  }

  /** The 32-bit field at an offset. */
  function Word(b: seq<byte>, off: nat): (n: nat)
    requires off + 4 <= |b|
    ensures n < TWO32
  {
    Widths();
    PutGet(b[off..off + 4]);
    Get(b[off..off + 4])
  }

  /** The 16-bit field at an offset. */
  function Short(b: seq<byte>, off: nat): (n: nat)
    requires off + 2 <= |b|
    ensures n < TWO16
  {
    Widths();
    PutGet(b[off..off + 2]);
    Get(b[off..off + 2])
  }

  function Zeros(n: nat): (s: seq<byte>)
    ensures |s| == n
  {
    seq(n, i => 0)
  }

  lemma Associative<T>(a: seq<T>, b: seq<T>, c: seq<T>)
    ensures a + (b + c) == (a + b) + c
  {
  }

  /** `b` holds exactly `s` from offset `off`. */
  predicate Holds(b: seq<byte>, off: nat, s: seq<byte>)
  {
    off + |s| <= |b| && b[off..off + |s|] == s
  }

  lemma HoldsSplit(b: seq<byte>, off: nat, s: seq<byte>, t: seq<byte>)
    ensures Holds(b, off, s + t) <==> Holds(b, off, s) && Holds(b, off + |s|, t)
  {
    if Holds(b, off, s + t) {
      var c := b[off..off + |s + t|];
      assert b[off..off + |s|] == c[..|s|] == s;
      assert b[off + |s|..off + |s| + |t|] == c[|s|..] == t;
    }
    if Holds(b, off, s) && Holds(b, off + |s|, t) {
      assert b[off..off + |s + t|] == b[off..off + |s|] + b[off + |s|..off + |s| + |t|];
    }
  }

  lemma HoldsRest(b: seq<byte>, off: nat, s: seq<byte>)
    requires Holds(b, off, s)
    ensures off + |s| <= |b| && b[off..] == s + b[off + |s|..]
    ensures s != [] ==> b[off] == s[0]
  {
    assert b[off..off + |s|] == s;
  }

  lemma WholeHolds(b: seq<byte>)
    ensures Holds(b, 0, b)
  {
  }

  lemma WordHolds(b: seq<byte>, off: nat, n: nat)
    requires off + 4 <= |b| && n < TWO32
    ensures Holds(b, off, Put(n, 4)) <==> Word(b, off) == n
  {
    Field32(n);
    PutGet(b[off..off + 4]);
  }

  lemma ShortIs(b: seq<byte>, off: nat, n: nat)
    requires Holds(b, off, Put(n, 2)) && n < TWO16
    ensures off + 2 <= |b| && Short(b, off) == n
  {
    Widths();
    GetPut(n, 2);
  }

  lemma WordIs(b: seq<byte>, off: nat, n: nat)
    requires Holds(b, off, Put(n, 4)) && n < TWO32
    ensures off + 4 <= |b| && Word(b, off) == n
  {
    WordHolds(b, off, n);
  }

  /** `b` with `s` stored at offset `off`. */
  function Patch(b: seq<byte>, off: nat, s: seq<byte>): (r: seq<byte>)
    requires off + |s| <= |b|
    ensures |r| == |b|
  {
    b[..off] + s + b[off + |s|..]
  }

  lemma PatchHolds(b: seq<byte>, off: nat, s: seq<byte>)
    requires off + |s| <= |b|
    ensures Holds(Patch(b, off, s), off, s)
    ensures Patch(b, off, s)[..off] == b[..off]
    ensures Patch(b, off, s)[off + |s|..] == b[off + |s|..]
  {
  }

  /** A store over a prefix that ends where another store began. */
  lemma PatchBefore(b: seq<byte>, off: nat, s: seq<byte>, t: seq<byte>)
    requires off + |s| + |t| <= |b|
    ensures Patch(Patch(b, off + |s|, t), off, s) == Patch(b, off, s + t)
  {
  }

  /** memcpy, or a field store, into a buffer. */
  method Store(buf: array<byte>, off: nat, s: seq<byte>)
    requires off + |s| <= buf.Length
    modifies buf
    ensures buf[..] == Patch(old(buf[..]), off, s)
  {
    forall i | 0 <= i < |s| {
      buf[off + i] := s[i];
    }
  }

  /** Two adjacent stores are one store. */
  lemma PatchPatch(b: seq<byte>, off: nat, s: seq<byte>, t: seq<byte>)
    requires off + |s| + |t| <= |b|
    ensures Patch(Patch(b, off, s), off + |s|, t) == Patch(b, off, s + t)
  {
  }

  // ---------- bytes as bit vectors, a nibble at a time ----------

  function Nibble(n: int): (x: bv4)
    requires 0 <= n < 16
  {
    n as bv4
  }

  function Digit(x: bv4): (n: int)
    ensures 0 <= n < 16
  {
    x as int
  }

  lemma DigitNibble(n: int)
    requires 0 <= n < 16
    ensures Digit(Nibble(n)) == n
  {
  }

  lemma NibbleDigit(x: bv4)
    ensures Nibble(Digit(x)) == x
  {
  }

  function Pair(hi: bv4, lo: bv4): (x: bv8) { ((hi as bv8) << 4) | (lo as bv8) }
  function Hi(x: bv8): (r: bv4) { (x >> 4) as bv4 }
  function Lo(x: bv8): (r: bv4) { (x & 15) as bv4 }

  lemma PairParts(hi: bv4, lo: bv4)
    ensures Hi(Pair(hi, lo)) == hi && Lo(Pair(hi, lo)) == lo
  {
  }

  lemma PartsPair(x: bv8)
    ensures Pair(Hi(x), Lo(x)) == x
  {
  }

  function ToBits(b: byte): (x: bv8) { Pair(Nibble(b / 16), Nibble(b % 16)) }

  function ToByte(x: bv8): (b: byte) { 16 * Digit(Hi(x)) + Digit(Lo(x)) }

  lemma ToByteToBits(b: byte)
    ensures ToByte(ToBits(b)) == b
  {
    hide Pair, Hi, Lo, Nibble, Digit;
    PairParts(Nibble(b / 16), Nibble(b % 16));
    DigitNibble(b / 16);
    DigitNibble(b % 16);
  }

  lemma ToBitsToByte(x: bv8)
    ensures ToBits(ToByte(x)) == x
  {
    hide Pair, Hi, Lo, Nibble, Digit;
    NibbleDigit(Hi(x));
    NibbleDigit(Lo(x));
    PartsPair(x);
  }

  function Bits(s: seq<byte>): (t: seq<bv8>)
    ensures |t| == |s|
  {
    seq(|s|, i requires 0 <= i < |s| => ToBits(s[i]))
  }

  function Ints(s: seq<bv8>): (t: seq<byte>)
    ensures |t| == |s|
  {
    seq(|s|, i requires 0 <= i < |s| => ToByte(s[i]))
  }

  lemma BitsInts(s: seq<bv8>)
    ensures Bits(Ints(s)) == s
  {
    hide ToBits, ToByte;
    forall i | 0 <= i < |s| ensures Bits(Ints(s))[i] == s[i] {
      ToBitsToByte(s[i]);
    }
  }

  lemma BitsInjective(s: seq<byte>, t: seq<byte>)
    requires Bits(s) == Bits(t)
    ensures s == t
  {
    hide ToBits, ToByte;
    forall i | 0 <= i < |s| ensures s[i] == t[i] {
      assert Bits(s)[i] == Bits(t)[i];
      ToByteToBits(s[i]);
      ToByteToBits(t[i]);
    }
  }

  lemma BitsConcat(s: seq<byte>, t: seq<byte>)
    ensures Bits(s + t) == Bits(s) + Bits(t)
  {
    hide ToBits;
  }
}
