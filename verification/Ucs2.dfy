/**
  UTF-8 and UCS-2 conversion (ucs2.h). A C string is a sequence of bytes in which the walk
  from its start meets a NUL; `&`, `|` and shifts on single bytes are written as arithmetic.
 */
module Ucs2 {
  import opened Bytes

  type Unit = u: int | 0 <= u < 0x1_0000

  // ---------- one character ----------

  /** How far utf8len and utf8_to_ucs2 advance over the character that starts with `b`. */
  function Width(b: byte): (w: nat)
    ensures 1 <= w <= 3
  {
    if 0xe0 <= b < 0xf0 then 3 else if 0xc0 <= b < 0xe0 then 2 else 1
  }

  /** The value utf8_to_ucs2 makes of the character at the head of `c`. */
  function DecodeChar(c: seq<byte>): (u: Unit)
    requires c != [] && |c| >= Width(c[0])
  {
    var b: int := c[0];
    if Width(c[0]) == 3 then
      var b1: int, b2: int := c[1], c[2];
      (b % 16) * 4096 + (b1 % 64) * 64 + b2 % 64
    else if Width(c[0]) == 2 then
      var b1: int := c[1];
      (b % 32) * 64 + b1 % 64
    else
      b % 128
  }

  /** The bytes ucs2_to_utf8 writes for one unit. */
  function EncodeUnit(u: Unit): (c: seq<byte>)
    ensures c != [] && |c| == Width(c[0])
    ensures u != 0 ==> c[0] != 0
  {
    if u <= 0x7f then [u]
    else if u <= 0x7ff then [0xc0 + u / 64, 0x80 + u % 64]
    else [0xe0 + u / 4096, 0x80 + (u / 64) % 64, 0x80 + u % 64]
  }

  lemma Decode3(u: Unit, rest: seq<byte>)
    requires u > 0x7ff
    ensures DecodeChar(EncodeUnit(u) + rest) == u
  {
    Residues(u / 4096, u / 64 % 64, u % 64);
  }

  lemma Decode2(u: Unit, rest: seq<byte>)
    requires 0x7f < u <= 0x7ff
    ensures DecodeChar(EncodeUnit(u) + rest) == u
  {
    Residues(0, u / 64, u % 64);
  }

  lemma Residues(x: int, y: int, z: int)
    requires 0 <= x < 16 && 0 <= y < 64 && 0 <= z < 64
    ensures (0xe0 + x) % 16 == x && (0x80 + y) % 64 == y && (0x80 + z) % 64 == z
    ensures y < 32 ==> (0xc0 + y) % 32 == y
  {
  }

  lemma DecodeEncodeUnit(u: Unit, rest: seq<byte>)
    ensures DecodeChar(EncodeUnit(u) + rest) == u
  {
    if u > 0x7ff {
      Decode3(u, rest);
    } else if u > 0x7f {
      Decode2(u, rest);
    }
  }

  /** A shortest-form character of one to three bytes (section 3 of RFC 3629), NUL excluded. */
  predicate ShortestChar(c: seq<byte>) {
    || (|c| == 1 && 0x01 <= c[0] <= 0x7f)
    || (|c| == 2 && 0xc2 <= c[0] <= 0xdf && 0x80 <= c[1] <= 0xbf)
    || (|c| == 3 && c[0] == 0xe0 && 0xa0 <= c[1] <= 0xbf && 0x80 <= c[2] <= 0xbf)
    || (|c| == 3 && 0xe1 <= c[0] <= 0xef && 0x80 <= c[1] <= 0xbf && 0x80 <= c[2] <= 0xbf)
  }

  lemma Encode3(c: seq<byte>, x: int, y: int, z: int)
    requires c == [0xe0 + x, 0x80 + y, 0x80 + z] && 0 <= x < 16 && 0 <= y < 64 && 0 <= z < 64
    requires x == 0 ==> y >= 32
    ensures |c| == Width(c[0]) && DecodeChar(c) != 0 && EncodeUnit(DecodeChar(c)) == c
  {
    Residues(x, y, z);
    assert DecodeChar(c) == x * 4096 + y * 64 + z;
    Recombine3(x, y, z);
  }

  lemma Encode2(c: seq<byte>, y: int, z: int)
    requires c == [0xc0 + y, 0x80 + z] && 2 <= y < 32 && 0 <= z < 64
    ensures |c| == Width(c[0]) && DecodeChar(c) != 0 && EncodeUnit(DecodeChar(c)) == c
  {
    Residues(0, y, z);
    assert DecodeChar(c) == y * 64 + z;
  }

  lemma EncodeDecodeChar(c: seq<byte>)
    requires ShortestChar(c)
    ensures |c| == Width(c[0]) && DecodeChar(c) != 0 && EncodeUnit(DecodeChar(c)) == c
  {
    if |c| == 3 {
      Encode3(c, c[0] - 0xe0, c[1] - 0x80, c[2] - 0x80);
    } else if |c| == 2 {
      Encode2(c, c[0] - 0xc0, c[1] - 0x80);
    }
  }

  lemma Recombine3(x: int, y: int, z: int)
    requires 0 <= x < 16 && 0 <= y < 64 && 0 <= z < 64
    ensures var u := x * 4096 + y * 64 + z;
            u / 4096 == x && u / 64 % 64 == y && u % 64 == z
  {
    assert (x * 4096 + y * 64 + z) / 64 == x * 64 + y;
  }

  // ---------- strings ----------

  predicate NulFree(us: seq<Unit>) { forall i :: 0 <= i < |us| ==> us[i] != 0 }

  function Encode(us: seq<Unit>): (s: seq<byte>) {
    if us == [] then [] else EncodeUnit(us[0]) + Encode(us[1..])
  }

  /** Text is well formed when it splits into shortest-form characters. */
  predicate ShortestForm(s: seq<byte>) {
    s == [] || (|s| >= Width(s[0]) && ShortestChar(s[..Width(s[0])]) && ShortestForm(s[Width(s[0])..]))
  }

  /** The walk from `i` can be made inside `m`: it meets a NUL or the limit. */
  predicate Readable(m: seq<byte>, i: nat, limit: int)
    decreases |m| - i
  {
    (limit >= 0 && i >= limit) || (i < |m| && (m[i] == 0 || Readable(m, i + Width(m[i]), limit)))
  }

  /** Whether the walk stops at `i`. */
  predicate Stops(m: seq<byte>, i: nat, limit: int)
    requires Readable(m, i, limit)
  {
    (limit >= 0 && i >= limit) || m[i] == 0
  }

  function CharCount(m: seq<byte>, i: nat, limit: int): (n: nat)
    requires Readable(m, i, limit)
    decreases |m| - i
  {
    if Stops(m, i, limit) then 0 else 1 + CharCount(m, i + Width(m[i]), limit)
  }

  method Utf8Len(m: seq<byte>, limit: int) returns (n: nat)
    requires Readable(m, 0, limit)
    ensures n == CharCount(m, 0, limit)
  {
    var i := 0;
    n := 0;
    while !((limit >= 0 && i >= limit) || m[i] == 0)
      invariant Readable(m, i, limit)
      invariant n + CharCount(m, i, limit) == CharCount(m, 0, limit)
      decreases |m| - i
    {
      i := i + Width(m[i]);
      n := n + 1;
    }
  }

  method Utf8Size(m: seq<byte>, limit: int) returns (n: nat)
    requires Readable(m, 0, limit)
    ensures n == CharCount(m, 0, limit) + (if limit < 0 || CharCount(m, 0, limit) < limit then 1 else 0)
  {
    n := Utf8Len(m, limit);
    if n < (if limit >= 0 then limit else n + 1) {
      n := n + 1;
    }
  }

  /** The units decoded from `i` on; the source index is bounded by `size` (ucs2.h line 206). */
  function Decode(m: seq<byte>, i: nat, size: int): (us: seq<Unit>)
    requires Readable(m, i, -1)
    decreases |m| - i
  {
    if (size >= 0 && i >= size) || m[i] == 0 then []
    else
      assert Readable(m, i + Width(m[i]), -1);
      [DecodeChar(m[i..])] + Decode(m, i + Width(m[i]), size)
  }

  /** The decoder never makes more units than there are characters. */
  lemma {:induction false} DecodeShorter(m: seq<byte>, i: nat, size: int)
    requires Readable(m, i, -1)
    ensures |Decode(m, i, size)| <= CharCount(m, i, -1)
    decreases |m| - i
  {
    if !Stops(m, i, -1) {
      DecodeShorter(m, i + Width(m[i]), size);
    }
  }

  // ---------- what the walks see of an encoded string ----------

  /** `m` holds the encoding of `us` from `i`, then a NUL. */
  predicate HoldsText(m: seq<byte>, i: nat, us: seq<Unit>) {
    Holds(m, i, Encode(us) + [0])
  }

  lemma TextStep(m: seq<byte>, i: nat, us: seq<Unit>)
    requires us != [] && NulFree(us) && HoldsText(m, i, us)
    ensures i + Width(m[i]) < |m| && m[i] == EncodeUnit(us[0])[0] && m[i] != 0
    ensures Width(m[i]) == |EncodeUnit(us[0])|
    ensures DecodeChar(m[i..]) == us[0]
    ensures HoldsText(m, i + Width(m[i]), us[1..])
  {
    hide Holds, DecodeChar, EncodeUnit;
    var c, t := EncodeUnit(us[0]), Encode(us[1..]) + [0];
    assert Encode(us) + [0] == c + t;
    HoldsSplit(m, i, c, t);
    HoldsRest(m, i, c);
    HoldsRest(m, i + |c|, t);
    DecodeEncodeUnit(us[0], m[i + |c|..]);
  }

  lemma TextEnd(m: seq<byte>, i: nat)
    requires HoldsText(m, i, [])
    ensures i < |m| && m[i] == 0
  {
    assert Encode([]) + [0] == [0];
    assert m[i..i + 1][0] == 0;
  }

  /** Every unit of a NUL-free string is one character. */
  lemma {:induction false} TextCount(m: seq<byte>, i: nat, us: seq<Unit>)
    requires NulFree(us) && HoldsText(m, i, us)
    ensures Readable(m, i, -1) && CharCount(m, i, -1) == |us|
    decreases |us|
  {
    if us == [] {
      TextEnd(m, i);
    } else {
      TextStep(m, i, us);
      TextCount(m, i + Width(m[i]), us[1..]);
    }
  }

  /** The offset of the last character, which is what the decoder compares with `size`. */
  function LastStart(us: seq<Unit>): (n: nat)
    requires us != []
  {
    |Encode(us[..|us| - 1])|
  }

  predicate Fits(us: seq<Unit>, size: int) { us == [] || size < 0 || LastStart(us) < size }

  lemma {:induction false} LastStartStep(us: seq<Unit>)
    requires |us| >= 2
    ensures LastStart(us) == |EncodeUnit(us[0])| + LastStart(us[1..])
  {
    var p := us[..|us| - 1];
    assert p[0] == us[0] && p[1..] == us[1..][..|us| - 2];
  }

  /** The decoder gives the string back exactly when its last character starts below `size`. */
  lemma {:induction false} DecodeText(m: seq<byte>, i: nat, us: seq<Unit>, size: int)
    requires NulFree(us) && HoldsText(m, i, us)
    ensures Readable(m, i, -1)
    ensures |Decode(m, i, size)| <= |us|
    ensures Decode(m, i, size) == us <==> us == [] || size < 0 || i + LastStart(us) < size
    decreases |us|
  {
    TextCount(m, i, us);
    if us == [] {
      TextEnd(m, i);
    } else {
      TextStep(m, i, us);
      var k := i + Width(m[i]);
      DecodeText(m, k, us[1..], size);
      assert us == [us[0]] + us[1..];
      if |us| >= 2 {
        LastStartStep(us);
      } else {
        assert us[..0] == [];
      }
      if !(size >= 0 && i >= size) {
        assert Decode(m, i, size) == [us[0]] + Decode(m, k, size);
        if Decode(m, i, size) == us {
          assert Decode(m, k, size) == Decode(m, i, size)[1..] == us[1..];
        }
      }
    }
  }

  /** Characters below U+0800 take at most two bytes, so they always fit twice their number. */
  lemma {:induction false} TwoByteText(us: seq<Unit>)
    requires forall i :: 0 <= i < |us| ==> us[i] <= 0x7ff
    ensures |Encode(us)| <= 2 * |us|
  {
    if us != [] {
      TwoByteText(us[1..]);
    }
  }

  /** Conversely, shortest-form text is what its own decoding encodes to. */
  lemma {:induction false} ShortestIsEncoded(s: seq<byte>) returns (us: seq<Unit>)
    requires ShortestForm(s)
    ensures NulFree(us) && Encode(us) == s
  {
    if s == [] {
      us := [];
    } else {
      var w := Width(s[0]);
      EncodeDecodeChar(s[..w]);
      var rest := ShortestIsEncoded(s[w..]);
      us := [DecodeChar(s[..w])] + rest;
      assert us[1..] == rest;
      assert s == s[..w] + s[w..];
    }
  }

  lemma {:induction false} EncodedIsShortest(us: seq<Unit>)
    requires NulFree(us)
    ensures ShortestForm(Encode(us))
  {
    if us != [] {
      EncodedIsShortest(us[1..]);
      var c := EncodeUnit(us[0]);
      assert Encode(us)[..|c|] == c && Encode(us)[|c|..] == Encode(us[1..]);
    }
  }

  lemma {:induction false} EncodeConcat(us: seq<Unit>, vs: seq<Unit>)
    ensures Encode(us + vs) == Encode(us) + Encode(vs)
  {
    if us == [] {
      assert us + vs == vs;
    } else {
      calc {
        Encode(us + vs);
        { assert (us + vs)[1..] == us[1..] + vs; }
        EncodeUnit(us[0]) + Encode(us[1..] + vs);
        { EncodeConcat(us[1..], vs); }
        EncodeUnit(us[0]) + (Encode(us[1..]) + Encode(vs));
        { Associative(EncodeUnit(us[0]), Encode(us[1..]), Encode(vs)); }
        Encode(us) + Encode(vs);
      }
    }
  }

  // ---------- UCS-2 in memory ----------

  /** The little-endian bytes of a UCS-2 string. */
  function UnitBytes(us: seq<Unit>): (s: seq<byte>)
    ensures |s| == 2 * |us|
  {
    if us == [] then [] else [us[0] % 256, us[0] / 256] + UnitBytes(us[1..])
  }

  lemma {:induction false} UnitBytesConcat(us: seq<Unit>, vs: seq<Unit>)
    ensures UnitBytes(us + vs) == UnitBytes(us) + UnitBytes(vs)
  {
    if us == [] {
      assert us + vs == vs;
    } else {
      calc {
        UnitBytes(us + vs);
        { assert (us + vs)[1..] == us[1..] + vs; }
        [us[0] % 256, us[0] / 256] + UnitBytes(us[1..] + vs);
        { UnitBytesConcat(us[1..], vs); }
        [us[0] % 256, us[0] / 256] + (UnitBytes(us[1..]) + UnitBytes(vs));
        { Associative([us[0] % 256, us[0] / 256], UnitBytes(us[1..]), UnitBytes(vs)); }
        UnitBytes(us) + UnitBytes(vs);
      }
    }
  }

  lemma {:induction false} UnitBytesInjective(us: seq<Unit>, vs: seq<Unit>)
    requires UnitBytes(us) == UnitBytes(vs)
    ensures us == vs
  {
    if us != [] && vs != [] {
      var a, b := UnitBytes(us), UnitBytes(vs);
      assert a[0] == us[0] % 256 && a[1] == us[0] / 256 && a[2..] == UnitBytes(us[1..]);
      assert b[0] == vs[0] % 256 && b[1] == vs[0] / 256 && b[2..] == UnitBytes(vs[1..]);
      UnitBytesInjective(us[1..], vs[1..]);
      assert us == [us[0]] + us[1..] && vs == [vs[0]] + vs[1..];
    }
  }

  lemma UnitBytesSnoc(us: seq<Unit>, u: Unit)
    ensures UnitBytes(us + [u]) == UnitBytes(us) + [u % 256, u / 256]
  {
    UnitBytesConcat(us, [u]);
    assert UnitBytes([u]) == [u % 256, u / 256] + UnitBytes([u][1..]);
  }

  /** The unit at index `k` of the string at `at`. */
  function UnitAt(m: seq<byte>, at: nat, k: nat): (u: Unit)
    requires at + 2 * k + 2 <= |m|
  {
    var lo: int, hi: int := m[at + 2 * k], m[at + 2 * k + 1];
    lo + 256 * hi
  }

  /** The scan from `k` can be made inside `m`: it meets a NUL or the limit. */
  predicate Scannable(m: seq<byte>, at: nat, k: nat, limit: int)
    decreases |m| - at - 2 * k
  {
    (limit >= 0 && k >= limit)
    || (at + 2 * k + 2 <= |m| && (UnitAt(m, at, k) == 0 || Scannable(m, at, k + 1, limit)))
  }

  /** The units from `k` up to the NUL or the limit. */
  function Scan(m: seq<byte>, at: nat, k: nat, limit: int): (us: seq<Unit>)
    requires Scannable(m, at, k, limit)
    ensures NulFree(us)
    decreases |m| - at - 2 * k
  {
    if (limit >= 0 && k >= limit) || UnitAt(m, at, k) == 0 then []
    else [UnitAt(m, at, k)] + Scan(m, at, k + 1, limit)
  }

  method Ucs2Len(m: seq<byte>, at: nat, limit: int) returns (n: nat)
    requires Scannable(m, at, 0, limit)
    ensures n == |Scan(m, at, 0, limit)|
  {
    n := 0;
    while !((limit >= 0 && n >= limit) || UnitAt(m, at, n) == 0)
      invariant Scannable(m, at, n, limit)
      invariant n + |Scan(m, at, n, limit)| == |Scan(m, at, 0, limit)|
      decreases |m| - at - 2 * n
    {
      n := n + 1;
    }
  }

  method Ucs2Size(m: seq<byte>, at: nat, limit: int) returns (n: nat)
    requires Scannable(m, at, 0, limit)
    ensures var full := 2 * |Scan(m, at, 0, limit)| + 2;
            n == if limit > 0 && full > limit then limit else full
  {
    n := Ucs2Len(m, at, limit);
    n := 2 * n + 2;
    if limit > 0 && n > limit {
      n := limit;
    }
  }

  /** `m` holds `us` from `at`, then a NUL unit. */
  predicate HoldsUnits(m: seq<byte>, at: nat, us: seq<Unit>) {
    Holds(m, at, UnitBytes(us) + [0, 0])
  }

  lemma UnitsStep(m: seq<byte>, at: nat, us: seq<Unit>)
    requires HoldsUnits(m, at, us)
    ensures at + 2 <= |m|
    ensures us == [] ==> UnitAt(m, at, 0) == 0
    ensures us != [] ==> UnitAt(m, at, 0) == us[0] && HoldsUnits(m, at + 2, us[1..])
  {
    var b := UnitBytes(us) + [0, 0];
    assert m[at..at + |b|] == b;
    assert m[at] == b[0] && m[at + 1] == b[1];
    if us != [] {
      assert b[2..] == UnitBytes(us[1..]) + [0, 0];
      assert m[at + 2..at + 2 + |b[2..]|] == m[at..at + |b|][2..];
    }
  }

  lemma {:induction false} ScanFrom(m: seq<byte>, at: nat, k: nat, us: seq<Unit>, limit: int)
    requires NulFree(us) && HoldsUnits(m, at + 2 * k, us)
    requires limit < 0 || k + |us| <= limit
    ensures Scannable(m, at, k, limit) && Scan(m, at, k, limit) == us
    decreases |us|
  {
    hide HoldsUnits;
    UnitsStep(m, at + 2 * k, us);
    assert UnitAt(m, at, k) == UnitAt(m, at + 2 * k, 0);
    if us != [] {
      ScanFrom(m, at, k + 1, us[1..], limit);
      assert us == [us[0]] + us[1..];
    }
  }

  lemma {:induction false} ScanNegative(m: seq<byte>, at: nat, k: nat, limit: int)
    requires limit < 0
    ensures Scannable(m, at, k, limit) <==> Scannable(m, at, k, -1)
    ensures Scannable(m, at, k, -1) ==> Scan(m, at, k, limit) == Scan(m, at, k, -1)
    decreases |m| - at - 2 * k
  {
    if at + 2 * k + 2 <= |m| {
      ScanNegative(m, at, k + 1, limit);
    }
  }

  /** A scan that may look further may stop earlier. */
  lemma {:induction false} ScanLess(m: seq<byte>, at: nat, k: nat, limit: int, less: nat)
    requires Scannable(m, at, k, limit) && (limit < 0 || less <= limit)
    ensures Scannable(m, at, k, less)
    decreases |m| - at - 2 * k
  {
    if k < less && UnitAt(m, at, k) != 0 {
      ScanLess(m, at, k + 1, limit, less);
    }
  }

  /** How many units ucs2_to_utf8 may look at: one more than the limit, because it looks before it tests. */
  function LooksAt(limit: int): (n: int) { if limit < 0 then -1 else limit + 1 }

  /** ucs2_to_utf8 returns the encoding of the string it scans, NUL-terminated; None when it reads past the end. */
  method Ucs2ToUtf8(m: seq<byte>, at: nat, limit: int) returns (out: Option<seq<byte>>)
    ensures out.Some? <==> Scannable(m, at, 0, LooksAt(limit))
    ensures out.Some? ==> Scannable(m, at, 0, limit) && out.value == Encode(Scan(m, at, 0, limit)) + [0]
  {
    var max := limit;
    if max < 0 {
      ScanNegative(m, at, 0, limit);
      if !Scannable(m, at, 0, -1) {
        return None;
      }
      max := Ucs2Len(m, at, -1);
      ScanLimit(m, at, 0);
      ScanLess(m, at, 0, -1, max + 1);
    }
    if Scannable(m, at, 0, max + 1) {
      ScanLess(m, at, 0, max + 1, max);
    }
    out := EncodeUnits(m, at, max);
  }

  /** The loop of ucs2_to_utf8. */
  method EncodeUnits(m: seq<byte>, at: nat, max: nat) returns (out: Option<seq<byte>>)
    requires Scannable(m, at, 0, max + 1) ==> Scannable(m, at, 0, max)
    ensures out.Some? <==> Scannable(m, at, 0, max + 1)
    ensures out.Some? ==> out.value == Encode(Scan(m, at, 0, max)) + [0]
  {
    hide Scannable, Scan, Encode, EncodeUnit, UnitAt;
    var text := [];
    var i := 0;
    while true
      invariant 0 <= i <= max
      invariant Scannable(m, at, 0, max + 1) <==> Scannable(m, at, i, max + 1)
      invariant Scannable(m, at, i, max + 1) ==> Scannable(m, at, i, max)
      invariant Scannable(m, at, i, max + 1) ==> text + Encode(Scan(m, at, i, max)) == Encode(Scan(m, at, 0, max))
      decreases max - i
    {
      LooksNext(m, at, i, max);
      if at + 2 * i + 2 > |m| {
        return None;
      }
      var u := UnitAt(m, at, i);
      if u == 0 || i >= max {
        assert text + [] == text;
        return Some(text + [0]);
      }
      if Scannable(m, at, i, max + 1) {
        Associative(text, EncodeUnit(u), Encode(Scan(m, at, i + 1, max)));
      }
      text := text + EncodeUnit(u);
      i := i + 1;
    }
  }

  /** One turn: past the end, at the end of the string, or over one unit. */
  lemma LooksNext(m: seq<byte>, at: nat, i: nat, max: nat)
    requires i <= max
    ensures at + 2 * i + 2 > |m| ==> !Scannable(m, at, i, max + 1)
    ensures at + 2 * i + 2 <= |m| && (UnitAt(m, at, i) == 0 || i >= max) ==>
      Scannable(m, at, i, max + 1) && Scannable(m, at, i, max) && Encode(Scan(m, at, i, max)) == []
    ensures at + 2 * i + 2 <= |m| && UnitAt(m, at, i) != 0 && i < max ==>
      && (Scannable(m, at, i, max + 1) <==> Scannable(m, at, i + 1, max + 1))
      && (Scannable(m, at, i, max) <==> Scannable(m, at, i + 1, max))
      && (Scannable(m, at, i, max) ==>
            Encode(Scan(m, at, i, max)) == EncodeUnit(UnitAt(m, at, i)) + Encode(Scan(m, at, i + 1, max)))
  {
    if at + 2 * i + 2 <= |m| && UnitAt(m, at, i) != 0 && i < max && Scannable(m, at, i, max) {
      var us := Scan(m, at, i, max);
      assert us == [UnitAt(m, at, i)] + Scan(m, at, i + 1, max);
      assert us[1..] == Scan(m, at, i + 1, max);
    }
  }

  /** A string that can be scanned within its limit is read past its end if and only if no NUL comes before the limit
      and nothing lies behind it. */
  lemma {:induction false} LooksPastLimit(m: seq<byte>, at: nat, k: nat, limit: nat)
    requires k <= limit && Scannable(m, at, k, limit)
    ensures !Scannable(m, at, k, LooksAt(limit)) <==> k + |Scan(m, at, k, limit)| == limit && at + 2 * limit + 2 > |m|
    decreases limit - k
  {
    if k < limit && UnitAt(m, at, k) != 0 {
      LooksPastLimit(m, at, k + 1, limit);
    }
  }

  /** One letter and a limit of one. */
  lemma LooksPastExample()
    ensures Scannable([65, 0], 0, 0, 1) && !Scannable([65, 0], 0, 0, LooksAt(1))
  {
    assert UnitAt([65, 0], 0, 0) == 65;
  }

  /** Limiting a scan to the length it found changes nothing. */
  lemma {:induction false} ScanLimit(m: seq<byte>, at: nat, k: nat)
    requires Scannable(m, at, k, -1)
    ensures Scannable(m, at, k, k + |Scan(m, at, k, -1)|)
    ensures Scan(m, at, k, k + |Scan(m, at, k, -1)|) == Scan(m, at, k, -1)
    decreases |m| - at - 2 * k
  {
    if UnitAt(m, at, k) != 0 {
      ScanLimit(m, at, k + 1);
      assert Scan(m, at, k, -1) == [UnitAt(m, at, k)] + Scan(m, at, k + 1, -1);
    }
  }

  // ---------- the converter into a buffer ----------

  /** What utf8_to_ucs2 returns, before looking at the buffer. */
  function Required(m: seq<byte>, terminate: bool): (n: nat)
    requires Readable(m, 0, -1)
  {
    var n := 2 * CharCount(m, 0, -1);
    if terminate && n > 0 then n + 1 else n
  }

  predicate Converts(m: seq<byte>, size: int, terminate: bool)
    requires Readable(m, 0, -1)
  {
    size != 0 && Required(m, terminate) > 0 && size >= Required(m, terminate)
  }

  /** The bytes a successful conversion stores. */
  function Converted(m: seq<byte>, size: int, terminate: bool): (s: seq<byte>)
    requires Readable(m, 0, -1)
  {
    UnitBytes(Decode(m, 0, size) + if terminate then [0] else [])
  }

  /** utf8_to_ucs2. `overrun` reports a store past the end of the buffer, after which nothing is promised. */
  method Utf8ToUcs2(buf: array<byte>, at: nat, size: int, terminate: bool, m: seq<byte>)
    returns (r: int, overrun: bool)
    requires Readable(m, 0, -1) && at <= buf.Length
    modifies buf
    ensures overrun <==> Converts(m, size, terminate) && at + |Converted(m, size, terminate)| > buf.Length
    ensures !Converts(m, size, terminate) ==> buf[..] == old(buf[..])
    ensures !Converts(m, size, terminate) ==>
              r == if size == 0 || Required(m, terminate) == 0 then Required(m, terminate) else -1
    ensures Converts(m, size, terminate) && !overrun ==>
              var s := Converted(m, size, terminate);
              2 * r == |s| && buf[..] == Patch(old(buf[..]), at, s)
  {
    hide Patch, UnitBytes, DecodeChar;
    overrun := false;
    var req := Utf8Len(m, -1);
    req := 2 * req;
    if terminate && req > 0 {
      req := req + 1;
    }
    if size == 0 || req <= 0 {
      return req, false;
    }
    if size < req {
      return -1, false;
    }
    ghost var all := Decode(m, 0, size);
    ghost var was := buf[..];
    ghost var done: seq<Unit> := [];
    PatchNothing(was, at);
    var i, j := 0, 0;
    while !((size >= 0 && i >= size) || m[i] == 0)
      invariant Readable(m, i, -1) && |done| == j && done + Decode(m, i, size) == all
      invariant at + 2 * j <= buf.Length
      invariant buf[..] == Patch(was, at, UnitBytes(done))
      decreases |m| - i
    {
      assert Readable(m, i + Width(m[i]), -1);
      var u := DecodeChar(m[i..]);
      Associative(done, [u], Decode(m, i + Width(m[i]), size));
      if at + 2 * j + 2 > buf.Length {
        return -1, true;
      }
      StoreUnit(buf, at, j, u, done, was);
      done := done + [u];
      i := i + Width(m[i]);
      j := j + 1;
    }
    assert done + [] == done;
    if terminate {
      if at + 2 * j + 2 > buf.Length {
        return -1, true;
      }
      StoreUnit(buf, at, j, 0, done, was);
      j := j + 1;
    }
    return j, false;
  }

  /** A conversion that was given just the size it asked for writes past it: the room counted for the
      terminator is one byte, and two are stored. */
  lemma TerminatorPastSize(m: seq<byte>, size: int)
    requires Readable(m, 0, -1) && size >= 0 && Converts(m, size, true)
    ensures |Converted(m, size, true)| > size <==>
      size == Required(m, true) && |Decode(m, 0, size)| == CharCount(m, 0, -1)
  {
    DecodeShorter(m, 0, size);
  }

  /** The letter "A" and three bytes of room: four are written. */
  lemma TerminatorExample()
    ensures var m := [65, 0]; Readable(m, 0, -1) && Converts(m, 3, true) && |Converted(m, 3, true)| == 4
  {
  }

  lemma PatchNothing(was: seq<byte>, at: nat)
    requires at <= |was|
    ensures Patch(was, at, UnitBytes([])) == was
  {
  }

  lemma TwoStores(s: seq<byte>, k: nat, a: byte, b: byte)
    requires k + 2 <= |s|
    ensures s[k := a][k + 1 := b] == Patch(s, k, [a, b])
  {
  }

  /** One 16-bit store just after the units already written. */
  method StoreUnit(buf: array<byte>, at: nat, j: nat, u: Unit, ghost done: seq<Unit>, ghost was: seq<byte>)
    requires |was| == buf.Length && at + 2 * j + 2 <= buf.Length && |done| == j
    requires buf[..] == Patch(was, at, UnitBytes(done))
    modifies buf
    ensures buf[..] == Patch(was, at, UnitBytes(done + [u]))
  {
    hide Patch, UnitBytes;
    UnitBytesSnoc(done, u);
    PatchPatch(was, at, UnitBytes(done), [u % 256, u / 256]);
    TwoStores(buf[..], at + 2 * j, u % 256, u / 256);
    buf[at + 2 * j] := u % 256;
    buf[at + 2 * j + 1] := u / 256;
    assert buf[..] == old(buf[..])[at + 2 * j := u % 256][at + 2 * j + 1 := u / 256];
  }
}
