/** GUIDs and byte strings in the order the signature database sorts them (guid.h, secdb.c). */
module Guids {
  import opened Bytes

  type Guid = g: seq<byte> | |g| == 16 witness seq(16, i => 0)

  /** `n` written most significant byte first. */
  function Written(n: nat, width: nat): (s: seq<byte>)
    ensures |s| == width
  {
    if width == 0 then [] else Written(n / 256, width - 1) + [n % 256]
  }

  /** A GUID from the five groups of its text: three numbers, then bytes as written. */
  function FromText(a: nat, b: nat, c: nat, d: nat, e: nat): (g: Guid) {
    Put(a, 4) + Put(b, 2) + Put(c, 2) + Written(d, 2) + Written(e, 6)
  }

  /** Lexicographic comparison: the difference at the first byte that differs. */
  function Lex(a: seq<byte>, b: seq<byte>): (r: int)
    decreases |a|
  {
    if a == [] || b == [] then |a| - |b|
    else if a[0] != b[0] then (a[0] as int) - b[0]
    else Lex(a[1..], b[1..])
  }

  lemma {:induction false} LexZero(a: seq<byte>, b: seq<byte>)
    ensures Lex(a, b) == 0 <==> a == b
    decreases |a|
  {
    if a != [] && b != [] && a[0] == b[0] {
      LexZero(a[1..], b[1..]);
      assert a == [a[0]] + a[1..] && b == [b[0]] + b[1..];
    }
  }

  lemma {:induction false} LexMirror(a: seq<byte>, b: seq<byte>)
    ensures Lex(b, a) == -Lex(a, b)
    decreases |a|
  {
    if a != [] && b != [] && a[0] == b[0] {
      LexMirror(a[1..], b[1..]);
    }
  }

  lemma {:induction false} LexTransitive(a: seq<byte>, b: seq<byte>, c: seq<byte>)
    requires Lex(a, b) <= 0 && Lex(b, c) <= 0
    ensures Lex(a, c) <= 0
    decreases |a|
  {
    if a != [] && b != [] && c != [] && a[0] == b[0] == c[0] {
      LexTransitive(a[1..], b[1..], c[1..]);
    }
  }

  lemma {:induction false} LexConcat(a: seq<byte>, b: seq<byte>, x: seq<byte>, y: seq<byte>)
    requires |a| == |b|
    ensures Lex(a + x, b + y) == if a == b then Lex(x, y) else Lex(a, b)
    decreases |a|
  {
    if a == [] {
      assert a + x == x && b + y == y;
    } else {
      assert (a + x)[1..] == a[1..] + x && (b + y)[1..] == b[1..] + y;
      assert a == [a[0]] + a[1..] && b == [b[0]] + b[1..];
      LexConcat(a[1..], b[1..], x, y);
    }
  }

  /** bytecmp. */
  method ByteCmp(a: seq<byte>, b: seq<byte>, sz: nat) returns (r: int)
    requires sz <= |a| && sz <= |b|
    ensures r == Lex(a[..sz], b[..sz])
  {
    for i := 0 to sz
      invariant Lex(a[..sz], b[..sz]) == Lex(a[i..sz], b[i..sz])
    {
      assert a[i..sz][1..] == a[i + 1..sz] && b[i..sz][1..] == b[i + 1..sz];
      var sub := (a[i] as int) - b[i];
      if sub != 0 {
        return sub;
      }
    }
    return 0;
  }

  /** The bytes of a GUID in the order its text shows them. */
  function Display(g: Guid): (s: seq<byte>)
    ensures |s| == 16
  {
    [g[3], g[2], g[1], g[0]] + ([g[5], g[4]] + ([g[7], g[6]] + g[8..]))
  }

  lemma DisplayInjective(a: Guid, b: Guid)
    requires Display(a) == Display(b)
    ensures a == b
  {
    var s, t := Display(a), Display(b);
    assert s[0] == t[0] && s[1] == t[1] && s[2] == t[2] && s[3] == t[3];
    assert s[4] == t[4] && s[5] == t[5] && s[6] == t[6] && s[7] == t[7];
    assert a[8..] == s[8..] && b[8..] == t[8..];
    forall i | 0 <= i < 16 ensures a[i] == b[i] {
      if i >= 8 {
        assert a[i] == a[8..][i - 8] && b[i] == b[8..][i - 8];
      }
    }
  }

  /** A GUID made from its text shows that text. */
  lemma TextShows(a: nat, b: nat, c: nat, d: nat, e: nat)
    ensures Display(FromText(a, b, c, d, e)) ==
      Written(a, 4) + (Written(b, 2) + (Written(c, 2) + (Written(d, 2) + Written(e, 6))))
  {
    var p, q, r, s := Put(a, 4), Put(b, 2), Put(c, 2), Written(d, 2) + Written(e, 6);
    PutBackwards4(a);
    PutBackwards2(b);
    PutBackwards2(c);
    hide Put, Written, Display;
    assert FromText(a, b, c, d, e) == p + q + r + s;
    Backwards(p, q, r, s);
  }

  lemma Backwards(p: seq<byte>, q: seq<byte>, r: seq<byte>, s: seq<byte>)
    requires |p| == 4 && |q| == |r| == 2 && |s| == 8
    ensures Display(p + q + r + s) == [p[3], p[2], p[1], p[0]] + ([q[1], q[0]] + ([r[1], r[0]] + s))
  {
    var g := p + q + r + s;
    assert g[8..] == s;
    assert g[4] == q[0] && g[5] == q[1] && g[6] == r[0] && g[7] == r[1];
  }

  lemma PutBackwards2(n: nat)
    ensures Written(n, 2) == [Put(n, 2)[1], Put(n, 2)[0]]
  {
    var m := n / 256;
    assert Put(m, 1) == [m % 256] + Put(m / 256, 0) && Put(n, 2) == [n % 256] + Put(m, 1);
    assert Written(m, 1) == Written(m / 256, 0) + [m % 256];
  }

  lemma PutBackwards4(n: nat)
    ensures Written(n, 4) == [Put(n, 4)[3], Put(n, 4)[2], Put(n, 4)[1], Put(n, 4)[0]]
  {
    var m := n / 256;
    var k := m / 256;
    PutBackwards2(k);
    assert Put(m, 3) == [m % 256] + Put(k, 2) && Put(n, 4) == [n % 256] + Put(m, 3);
    assert Written(m, 3) == Written(k, 2) + [m % 256] && Written(n, 4) == Written(m, 3) + [n % 256];
  }

  predicate SameSign(x: int, y: int) { (x < 0 <==> y < 0) && (x == 0 <==> y == 0) }

  function IntCmp(a: int, b: int): (r: int) { if a < b then -1 else if a > b then 1 else 0 }

  /** A little-endian number compares as its bytes do from the last to the first. */
  lemma Number2(a0: byte, a1: byte, b0: byte, b1: byte)
    ensures SameSign(IntCmp(Get([a0, a1]), Get([b0, b1])), Lex([a1, a0], [b1, b0]))
  {
    Get2(a0, a1);
    Get2(b0, b1);
    LexTwo(a1, a0, b1, b0);
  }

  lemma LexTwo(a: byte, b: byte, a': byte, b': byte)
    ensures Lex([a, b], [a', b']) == if a != a' then (a as int) - a' else (b as int) - b'
  {
    var s, t := [a, b], [a', b'];
    assert s[1..] == [b] && t[1..] == [b'];
    assert [b][1..] == [] && [b'][1..] == [];
    assert Lex([b], [b']) == (b as int) - b';
  }

  lemma Get2(x: byte, y: byte)
    ensures Get([x, y]) == x + 256 * (y as int)
  {
    assert [x, y][1..] == [y] && [y][1..] == [];
    assert Get([y]) == y;
  }

  lemma Number4(a: seq<byte>, b: seq<byte>)
    requires |a| == |b| == 4
    ensures SameSign(IntCmp(Get(a), Get(b)), Lex([a[3], a[2], a[1], a[0]], [b[3], b[2], b[1], b[0]]))
  {
    Get4(a);
    Get4(b);
    LexFour(a[3], a[2], a[1], a[0], b[3], b[2], b[1], b[0]);
  }

  lemma Get4(s: seq<byte>)
    requires |s| == 4
    ensures Get(s) == s[0] + 256 * (s[1] as int) + 0x1_0000 * (s[2] as int) + 0x100_0000 * (s[3] as int)
  {
    assert s[1..][1..] == s[2..] && s[2..][1..] == s[3..] && s[3..][1..] == [];
    assert Get(s[3..]) == s[3];
    assert Get(s[2..]) == s[2] + 256 * (s[3] as int);
  }

  lemma LexFour(a: byte, b: byte, c: byte, d: byte, a': byte, b': byte, c': byte, d': byte)
    ensures Lex([a, b, c, d], [a', b', c', d']) ==
            if a != a' then (a as int) - a' else if b != b' then (b as int) - b'
            else if c != c' then (c as int) - c' else (d as int) - d'
  {
    var s, t := [a, b, c, d], [a', b', c', d'];
    assert s[1..][1..] == s[2..] && s[2..][1..] == s[3..] && s[3..][1..] == [];
    assert t[1..][1..] == t[2..] && t[2..][1..] == t[3..] && t[3..][1..] == [];
    assert Lex(s[3..], t[3..]) == (d as int) - d';
    assert Lex(s[2..], t[2..]) == if c != c' then (c as int) - c' else (d as int) - d';
  }

  /** efi_guid_cmp_ orders GUIDs as their text is ordered. */
  method GuidCmp(a: Guid, b: Guid) returns (r: int)
    ensures SameSign(r, Lex(Display(a), Display(b)))
    ensures r == 0 <==> a == b
  {
    hide Get, Lex;
    DisplayParts(a, b);
    LexZero(Display(a), Display(b));
    if Display(a) == Display(b) {
      DisplayInjective(a, b);
    }
    if a[0..4] != b[0..4] {
      return IntCmp(Get(a[0..4]), Get(b[0..4]));
    }
    if a[4..6] != b[4..6] {
      return IntCmp(Get(a[4..6]), Get(b[4..6]));
    }
    if a[6..8] != b[6..8] {
      return IntCmp(Get(a[6..8]), Get(b[6..8]));
    }
    if a[8..10] != b[8..10] {
      return IntCmp(256 * (a[8] as int) + a[9], 256 * (b[8] as int) + b[9]);
    }
    r := ByteCmp(a[10..], b[10..], 6);
    r := IntCmp(r, 0);
    assert a[10..][..6] == a[10..] && b[10..][..6] == b[10..];
  }

  lemma DisplayParts(a: Guid, b: Guid)
    ensures SameSign(Lex(Display(a), Display(b)),
                     if a[0..4] != b[0..4] then IntCmp(Get(a[0..4]), Get(b[0..4]))
                     else if a[4..6] != b[4..6] then IntCmp(Get(a[4..6]), Get(b[4..6]))
                     else if a[6..8] != b[6..8] then IntCmp(Get(a[6..8]), Get(b[6..8]))
                     else if a[8..10] != b[8..10] then
                       IntCmp(256 * (a[8] as int) + a[9], 256 * (b[8] as int) + b[9])
                     else Lex(a[10..], b[10..]))
  {
    hide Get, Lex;
    Number4(a[0..4], b[0..4]);
    Number2(a[4], a[5], b[4], b[5]);
    Number2(a[6], a[7], b[6], b[7]);
    BigEndian2(a[8], a[9], b[8], b[9]);
    assert a[4..6] == [a[4], a[5]] && b[4..6] == [b[4], b[5]];
    assert a[6..8] == [a[6], a[7]] && b[6..8] == [b[6], b[7]];
    assert a[8..10] == [a[8], a[9]] && b[8..10] == [b[8], b[9]];
    var a3, b3 := a[8..], b[8..];
    var a2, b2 := [a[7], a[6]] + a3, [b[7], b[6]] + b3;
    var a1, b1 := [a[5], a[4]] + a2, [b[5], b[4]] + b2;
    LexConcat([a[3], a[2], a[1], a[0]], [b[3], b[2], b[1], b[0]], a1, b1);
    LexConcat([a[5], a[4]], [b[5], b[4]], a2, b2);
    LexConcat([a[7], a[6]], [b[7], b[6]], a3, b3);
    assert a3 == [a[8], a[9]] + a[10..] && b3 == [b[8], b[9]] + b[10..];
    LexConcat([a[8], a[9]], [b[8], b[9]], a[10..], b[10..]);
    Reversed4(a, b);
  }

  lemma Reversed4(a: Guid, b: Guid)
    ensures a[0..4] == b[0..4] <==> [a[3], a[2], a[1], a[0]] == [b[3], b[2], b[1], b[0]]
    ensures a[4..6] == b[4..6] <==> [a[5], a[4]] == [b[5], b[4]]
    ensures a[6..8] == b[6..8] <==> [a[7], a[6]] == [b[7], b[6]]
  {
    assert a[0..4] == [a[0], a[1], a[2], a[3]] && b[0..4] == [b[0], b[1], b[2], b[3]];
    assert a[4..6] == [a[4], a[5]] && b[4..6] == [b[4], b[5]];
    assert a[6..8] == [a[6], a[7]] && b[6..8] == [b[6], b[7]];
    var s, t := [a[3], a[2], a[1], a[0]], [b[3], b[2], b[1], b[0]];
    assert s == t ==> s[0] == t[0] && s[1] == t[1] && s[2] == t[2] && s[3] == t[3];
    var u, v := [a[5], a[4]], [b[5], b[4]];
    assert u == v ==> u[0] == v[0] && u[1] == v[1];
    var w, x := [a[7], a[6]], [b[7], b[6]];
    assert w == x ==> w[0] == x[0] && w[1] == x[1];
    var p, q := a[0..4], b[0..4];
    assert p == q ==> p[0] == q[0] && p[1] == q[1] && p[2] == q[2] && p[3] == q[3];
  }

  lemma BigEndian2(x: byte, y: byte, x': byte, y': byte)
    ensures SameSign(IntCmp(256 * (x as int) + y, 256 * (x' as int) + y'), Lex([x, y], [x', y']))
  {
    LexTwo(x, y, x', y');
  }
}
