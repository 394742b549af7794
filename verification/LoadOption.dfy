/**
  Load options (loadopt.c; EFI_LOAD_OPTION in section 3.1.3 of the UEFI Specification 2.8): attributes, the length
  of the path list, the description, the path list, and optional data.
 */
module LoadOption {
  import opened Bytes
  import opened Ucs2
  import DP = DevicePath

  // ---------- creating ----------

  datatype Result = Size(n: int) | Refused | Overrun | Hangs

  /** The bytes the description is given: utf8len looks at 1024 bytes at most. */
  function DescLen(m: seq<byte>): (n: nat)
    requires Readable(m, 0, 1024)
  {
    2 * CharCount(m, 0, 1024) + 2
  }

  function Total(m: seq<byte>, dpSize: int, optionalSize: nat): (n: int)
    requires Readable(m, 0, 1024)
  {
    6 + DescLen(m) + dpSize + optionalSize
  }

  /** The tests on the device path. */
  ghost function PathCheck(dp: seq<byte>, dpSize: nat): (r: Result) {
    if |dp| < dpSize then Overrun
    else match DP.Validity(dp[..dpSize])
      case Forever => Hangs
      case Invalid => Refused
      case Valid =>
        match DP.SizeFrom(dp, 0)
        case PastEnd => Overrun
        case Bad => Refused
        case At(n) => if n == dpSize then Size(n) else Refused
  }

  /** What efi_loadopt_create returns for a buffer that is there. */
  ghost function Plan(
    size: int, dp: Option<seq<byte>>, dpSize: int, m: seq<byte>, optional: Option<seq<byte>>, optionalSize: nat): (r: Result)
    requires Readable(m, 0, 1024)
  {
    var total := Total(m, dpSize, optionalSize);
    if size == 0 then Size(total)
    else if size < total then Refused
    else if optional.None? && optionalSize != 0 then Refused
    else if (dp.None? && dpSize == 0) || dpSize < 0 then Refused
    else if dp.None? then Size(total)
    else
      var c := PathCheck(dp.value, dpSize);
      if c.Size? then Size(total) else c
  }

  lemma {:induction false} ReadableLimited(m: seq<byte>, i: nat, limit: nat)
    requires Readable(m, i, -1)
    ensures Readable(m, i, limit) && CharCount(m, i, limit) <= CharCount(m, i, -1)
    decreases |m| - i
  {
    if i < limit && m[i] != 0 {
      ReadableLimited(m, i + Width(m[i]), limit);
    }
  }

  /** A conversion that takes place stays inside the description's part of the buffer. */
  lemma ConvertedFits(m: seq<byte>)
    requires Readable(m, 0, -1)
    ensures Readable(m, 0, 1024)
    ensures Converts(m, DescLen(m), true) ==> |Converted(m, DescLen(m), true)| <= DescLen(m)
  {
    ReadableLimited(m, 0, 1024);
    DecodeShorter(m, 0, DescLen(m));
  }

  function HeadBytes(attributes: nat, n: nat): (s: seq<byte>)
    ensures |s| == 6
  {
    Put(attributes, 4) + Put(n, 2)
  }

  /** The buffer after the stores. */
  function Built(
    was: seq<byte>, attributes: nat, dp: Option<seq<byte>>, dpSize: nat, m: seq<byte>, optional: Option<seq<byte>>,
    optionalSize: nat): (b: seq<byte>)
    requires Readable(m, 0, -1) && Readable(m, 0, 1024)
    requires Total(m, dpSize, optionalSize) <= |was|
    requires dp.Some? ==> |dp.value| >= dpSize
    requires optional.Some? ==> |optional.value| == optionalSize
    ensures |b| == |was|
  {
    ConvertedFits(m);
    var d := DescLen(m);
    var b1 := Patch(was, 0, HeadBytes(attributes, dpSize));
    var b2 := if Converts(m, d, true) then Patch(b1, 6, Converted(m, d, true)) else b1;
    var b3 := if dp.Some? then Patch(b2, 6 + d, dp.value[..dpSize]) else b2;
    if optional.Some? then Patch(b3, 6 + d + dpSize, optional.value) else b3
  }

  lemma PathCheckSize(dp: seq<byte>, dpSize: nat)
    ensures PathCheck(dp, dpSize).Size? ==> |dp| >= dpSize
  {
    hide DP.Validity, DP.SizeFrom;
  }

  method CheckPath(dp: seq<byte>, dpSize: nat) returns (r: Result)
    ensures r == PathCheck(dp, dpSize)
  {
    hide DP.Validity, DP.SizeFrom;
    if |dp| < dpSize {
      return Overrun;
    }
    var v := DP.IsValid(dp[..dpSize]);
    if v.Forever? {
      return Hangs;
    }
    if v.Invalid? {
      return Refused;
    }
    var w := DP.Size(dp, 0);
    if w.PastEnd? {
      return Overrun;
    }
    if w == DP.At(dpSize) {
      return Size(dpSize);
    }
    return Refused;
  }

  /** efi_loadopt_create. */
  method Create(
    buf: array?<byte>, size: int, attributes: nat, dp: Option<seq<byte>>, dpSize: int, description: seq<byte>,
    optional: Option<seq<byte>>, optionalSize: nat) returns (r: Result)
    requires (buf != null ==> size <= buf.Length) && Readable(description, 0, -1) && Readable(description, 0, 1024)
    requires optional.Some? ==> |optional.value| == optionalSize
    modifies buf
    ensures buf == null ==> r == if size == 0 then Size(Total(description, dpSize, optionalSize)) else Refused
    ensures buf != null ==> r == Plan(size, dp, dpSize, description, optional, optionalSize)
    ensures buf != null && (size == 0 || !r.Size?) ==> buf[..] == old(buf[..])
    ensures buf != null && size != 0 && r.Size? ==>
      && 0 <= dpSize && Total(description, dpSize, optionalSize) <= buf.Length
      && (dp.Some? ==> |dp.value| >= dpSize)
      && buf[..] == Built(old(buf[..]), attributes, dp, dpSize, description, optional, optionalSize)
  {
    hide Readable, CharCount, Converts, Converted, PathCheck, Patch, HeadBytes;
    var descLen := Utf8Len(description, 1024);
    descLen := 2 * descLen + 2;
    var total := 6 + descLen + dpSize + optionalSize;
    if size == 0 {
      return Size(total);
    }
    if size < total {
      return Refused;
    }
    if buf == null {
      return Refused;
    }
    if optional.None? && optionalSize != 0 {
      return Refused;
    }
    if (dp.None? && dpSize == 0) || dpSize < 0 {
      return Refused;
    }
    if dp.Some? {
      PathCheckSize(dp.value, dpSize);
      var c := CheckPath(dp.value, dpSize);
      if !c.Size? {
        return c;
      }
    }
    ConvertedFits(description);
    Store(buf, 0, HeadBytes(attributes, dpSize));
    var pos := 6;
    var _, _ := Utf8ToUcs2(buf, pos, descLen, true, description);
    pos := pos + descLen;
    if dp.Some? {
      Store(buf, pos, dp.value[..dpSize]);
    }
    pos := pos + dpSize;
    if optional.Some? {
      Store(buf, pos, optional.value);
    }
    return Size(total);
  }

  // ---------- the accessors ----------

  /** A part found, no such part, a read outside the buffer, a walk that never ends, or a path list in which a
      path has no size, from where the code steps back byte by byte. */
  datatype Access = Found(at: nat, n: nat) | Null | Unread | Endless

  function Attributes(b: seq<byte>): (n: nat) requires |b| >= 6 { Get(b[0..4]) }

  function PathLength(b: seq<byte>): (n: nat) requires |b| >= 6 { Get(b[4..6]) }

  /** ucs2size of the description. */
  function DescSize(b: seq<byte>, limit: int): (n: nat)
    requires Scannable(b, 6, 0, limit)
  {
    var full := 2 * |Scan(b, 6, 0, limit)| + 2;
    if limit > 0 && full > limit then limit else full
  }

  /** efi_loadopt_path: where the path list is. `size` is that of the whole load option. */
  ghost function PathOf(b: seq<byte>, size: nat): (r: Access) {
    if size <= 6 then Null
    else if |b| < size || !Scannable(b, 6, 0, size - 6) then Unread
    else
      var sz, len := DescSize(b, size - 6), PathLength(b);
      if sz >= size - 6 then Null
      else if size - 6 - sz < len then Null
      else match DP.Validity(b[6 + sz..6 + sz + len])
        case Valid => Found(6 + sz, len)
        case Invalid => Null
        case Forever => Endless
  }

  method PathIn(b: seq<byte>, size: nat) returns (r: Access)
    ensures r == PathOf(b, size)
  {
    hide Scannable, Scan, DP.Validity;
    if size <= 6 {
      return Null;
    }
    if |b| < size || !Scannable(b, 6, 0, size - 6) {
      return Unread;
    }
    var left := size - 6;
    var sz := Ucs2Size(b, 6, left);
    if sz >= left {
      return Null;
    }
    left := left - sz;
    if left < PathLength(b) {
      return Null;
    }
    var v := DP.IsValid(b[6 + sz..6 + sz + PathLength(b)]);
    if v != DP.Valid {
      return if v == DP.Invalid then Null else Endless;
    }
    return Found(6 + sz, PathLength(b));
  }

  /** efi_loadopt_optional_data. */
  function OptionalData(b: seq<byte>, size: nat): (r: Access) {
    if 6 > size then Null
    else if |b| < size || !Scannable(b, 6, 0, size - 6) then Unread
    else
      var ul, len := DescSize(b, size - 6), PathLength(b);
      if len > size || ul > size || size - ul < len then Null
      else if 6 + ul + len > size then Null
      else Found(6 + ul + len, size - (6 + ul + len))
  }

  method OptionalDataIn(b: seq<byte>, size: nat) returns (r: Access)
    ensures r == OptionalData(b, size)
  {
    hide Scannable, Scan;
    var l := 6;
    if l > size {
      return Null;
    }
    if |b| < size || !Scannable(b, 6, 0, size - l) {
      return Unread;
    }
    var ul := Ucs2Size(b, 6, size - l);
    if PathLength(b) > size || ul > size || size - ul < PathLength(b) {
      return Null;
    }
    l := l + ul + PathLength(b);
    if l > size {
      return Null;
    }
    return Found(l, size - l);
  }

  // The walk over the path list adds what efidp_size returns, and an error of that is -1: from a bad node it steps
  // back a byte at a time, out of the list and into the description if need be.

  /** The walk is so far into the list, or has read outside the option. */
  datatype Spot = On(sz: int) | Outside

  predicate Arrived(len: nat, s: Spot) { s.Outside? || s.sz >= len }

  function Hop(b: seq<byte>, p: nat, len: nat, s: Spot): (s': Spot) {
    if Arrived(len, s) then s
    else if p + s.sz < 0 then Outside
    else match DP.SizeFrom(b, p + s.sz)
      case At(n) => On(s.sz + n)
      case Bad => On(s.sz - 1)
      case PastEnd => Outside
  }

  /** Where the walk is after `k` turns. */
  function Hops(b: seq<byte>, p: nat, len: nat, k: nat): (s: Spot) {
    if k == 0 then On(0) else Hop(b, p, len, Hops(b, p, len, k - 1))
  }

  /** No number of turns brings it to the end of the list. */
  ghost predicate Wanders(b: seq<byte>, p: nat, len: nat) {
    forall k: nat :: !Arrived(len, Hops(b, p, len, k))
  }

  ghost function ListEnd(b: seq<byte>, p: nat, len: nat): (r: Access) {
    if Wanders(b, p, len) then Endless
    else
      var k: nat :| Arrived(len, Hops(b, p, len, k));
      var s := Hops(b, p, len, k);
      if s.Outside? then Unread else Found(p, s.sz)
  }

  lemma {:induction false} StaysArrived(b: seq<byte>, p: nat, len: nat, k: nat, i: nat)
    requires Arrived(len, Hops(b, p, len, k))
    ensures Hops(b, p, len, k + i) == Hops(b, p, len, k)
    decreases i
  {
    hide DP.SizeFrom;
    if i > 0 {
      StaysArrived(b, p, len, k, i - 1);
    }
  }

  lemma ListEndIs(b: seq<byte>, p: nat, len: nat, k: nat)
    requires Arrived(len, Hops(b, p, len, k))
    ensures var s := Hops(b, p, len, k); ListEnd(b, p, len) == if s.Outside? then Unread else Found(p, s.sz)
  {
    hide Hops, DP.SizeFrom;
    var j: nat :| Arrived(len, Hops(b, p, len, j)) && ListEnd(b, p, len) ==
      var s := Hops(b, p, len, j); if s.Outside? then Unread else Found(p, s.sz);
    if j <= k {
      StaysArrived(b, p, len, j, k - j);
    } else {
      StaysArrived(b, p, len, k, j - k);
    }
  }

  /** A walk that comes back to a place goes round for ever. */
  lemma {:induction false} GoesRound(b: seq<byte>, p: nat, len: nat, j: nat, k: nat, m: nat)
    requires j < k && Hops(b, p, len, j) == Hops(b, p, len, k)
    requires forall i :: 0 <= i < k ==> !Arrived(len, Hops(b, p, len, i))
    ensures !Arrived(len, Hops(b, p, len, m))
    ensures m >= k ==> Hops(b, p, len, m) == Hops(b, p, len, m - (k - j))
    decreases m
  {
    hide DP.SizeFrom, Arrived;
    if m > k {
      GoesRound(b, p, len, j, k, m - 1);
    }
    if m >= k {
      GoesRound(b, p, len, j, k, m - (k - j));
    }
  }

  lemma WandersBy(b: seq<byte>, p: nat, len: nat, j: nat, k: nat)
    requires j < k && Hops(b, p, len, j) == Hops(b, p, len, k)
    requires forall i :: 0 <= i < k ==> !Arrived(len, Hops(b, p, len, i))
    ensures ListEnd(b, p, len) == Endless
  {
    hide Hops, Arrived;
    forall m: nat ensures !Arrived(len, Hops(b, p, len, m)) {
      GoesRound(b, p, len, j, k, m);
    }
  }

  lemma {:induction false} FewInRange(s: set<int>, lo: int, hi: int)
    requires lo <= hi && forall x :: x in s ==> lo <= x < hi
    ensures |s| <= hi - lo
    decreases hi - lo
  {
    if lo == hi {
      assert s == {};
    } else {
      FewInRange(s - {hi - 1}, lo, hi - 1);
      assert |s| <= |s - {hi - 1}| + 1 by {
        assert hi - 1 !in s ==> s - {hi - 1} == s;
        assert hi - 1 in s ==> s == (s - {hi - 1}) + {hi - 1};
      }
    }
  }

  /** The loop; a place that comes up again is one it never gets away from. */
  method WalkList(b: seq<byte>, p: nat, len: nat) returns (r: Access)
    ensures r == ListEnd(b, p, len)
  {
    hide DP.SizeFrom, ListEnd, Hops;
    var sz := 0;
    var seen: set<int> := {};
    ghost var k: nat := 0;
    HopsStart(b, p, len);
    while sz < len
      invariant Hops(b, p, len, k) == On(sz)
      invariant forall x :: x in seen ==> 0 <= p + x && x < len && exists j :: 0 <= j < k && Hops(b, p, len, j) == On(x)
      invariant forall j :: 0 <= j < k ==> !Arrived(len, Hops(b, p, len, j))
      decreases p + len - |seen|
    {
      if sz in seen {
        ghost var j :| 0 <= j < k && Hops(b, p, len, j) == On(sz);
        WandersBy(b, p, len, j, k);
        return Endless;
      }
      HopsNext(b, p, len, k);
      if p + sz < 0 {
        ListEndIs(b, p, len, k + 1);
        return Unread;
      }
      var w := DP.Size(b, p + sz);
      if w.PastEnd? {
        ListEndIs(b, p, len, k + 1);
        return Unread;
      }
      FewInRange(seen + {sz}, 0 - p, len);
      seen := seen + {sz};
      sz := sz + if w.At? then w.n else -1;
      k := k + 1;
    }
    ListEndIs(b, p, len, k);
    return Found(p, sz);
  }

  lemma HopsStart(b: seq<byte>, p: nat, len: nat)
    ensures Hops(b, p, len, 0) == On(0)
  {
  }

  lemma HopsNext(b: seq<byte>, p: nat, len: nat, k: nat)
    ensures Hops(b, p, len, k + 1) == Hop(b, p, len, Hops(b, p, len, k))
  {
    hide DP.SizeFrom;
  }

  /** An end node and four zeros: the walk goes to the zeros, steps back to the end node, and so on. */
  lemma RoundAndRound()
    ensures ListEnd([0x7f, 0xff, 4, 0, 0, 0, 0, 0], 0, 8) == Endless
  {
    hide *;
    var b: seq<byte>, len: nat := [0x7f, 0xff, 4, 0, 0, 0, 0, 0], 8;
    EndThenZeros(b);
    BackToStart(b, len);
  }

  lemma BackToStart(b: seq<byte>, len: nat)
    requires len > 4 && DP.SizeFrom(b, 0) == DP.At(4) && forall o :: 1 <= o <= 4 ==> DP.SizeFrom(b, o) == DP.Bad
    ensures ListEnd(b, 0, len) == Endless
  {
    hide DP.SizeFrom, ListEnd, Hops;
    HopsStart(b, 0, len);
    HopsNext(b, 0, len, 0);
    HopsNext(b, 0, len, 1);
    HopsNext(b, 0, len, 2);
    HopsNext(b, 0, len, 3);
    HopsNext(b, 0, len, 4);
    WandersBy(b, 0, len, 0, 5);
  }

  lemma EndThenZeros(b: seq<byte>)
    requires b == [0x7f, 0xff, 4, 0, 0, 0, 0, 0]
    ensures DP.SizeFrom(b, 0) == DP.At(4)
    ensures forall o :: 1 <= o <= 4 ==> DP.SizeFrom(b, o) == DP.Bad
  {
    TwoBytes(4, 0);
    TwoBytes(0, 0);
    assert b[2..4] == [4, 0] && b[3..5] == b[4..6] == b[5..7] == b[6..8] == [0, 0];
    hide Get;
    assert DP.LengthAt(b, 0) == 4 && DP.EntireAt(b, 0);
    forall o | 1 <= o <= 4 ensures DP.SizeFrom(b, o) == DP.Bad {
      assert b[o + 2..o + 4] == [0, 0];
      assert DP.LengthAt(b, o) == 0;
    }
  }

  lemma TwoBytes(x: byte, y: byte)
    ensures Get([x, y]) == x + 256 * y
  {
    var s: seq<byte> := [x, y];
    assert s[1..] == [y] && s[1..][1..] == [];
    assert Get(s) == x + 256 * Get(s[1..]) && Get(s[1..]) == y + 256 * Get(s[1..][1..]);
  }

  /** efi_loadopt_optional_data_size. */
  ghost function OptionalSize(b: seq<byte>, size: nat): (r: Access) {
    if size < 6 then Null
    else if |b| < size then Unread
    else if size - 6 < PathLength(b) then Null
    else
      var left := size - 6 - PathLength(b);
      if !Scannable(b, 6, 0, left) then Unread
      else
        var sz := DescSize(b, left);
        if left < sz then Null
        else match DP.Validity(b[6 + sz..6 + sz + PathLength(b)])
          case Forever => Endless
          case Invalid => Null
          case Valid =>
            var e := ListEnd(b, 6 + sz, PathLength(b));
            if e.Found? && e.n == PathLength(b) then Found(0, left - sz) else if e.Found? then Null else e
  }

  method SizeOfOptional(b: seq<byte>, size: nat) returns (r: Access)
    ensures r == OptionalSize(b, size)
  {
    hide Scannable, Scan, DP.Validity, ListEnd;
    if size < 6 {
      return Null;
    }
    if |b| < size {
      return Unread;
    }
    var left := size - 6;
    var len := PathLength(b);
    if left < len {
      return Null;
    }
    left := left - len;
    if !Scannable(b, 6, 0, left) {
      return Unread;
    }
    var sz := Ucs2Size(b, 6, left);
    var p := 6 + sz;
    if left < sz {
      return Null;
    }
    left := left - sz;
    var v := DP.IsValid(b[p..p + len]);
    if v == DP.Forever {
      return Endless;
    }
    if v == DP.Invalid {
      return Null;
    }
    var e := WalkList(b, p, len);
    if !e.Found? {
      return e;
    }
    if e.n != len {
      return Null;
    }
    return Found(0, left);
  }

  /** efi_loadopt_desc; None when the conversion reads past the option. */
  method Description(b: seq<byte>, limit: int) returns (s: Option<seq<byte>>)
    ensures s.Some? <==> Scannable(b, 6, 0, LooksAt(limit))
    ensures s.Some? ==> Scannable(b, 6, 0, limit) && s.value == Encode(Scan(b, 6, 0, limit)) + [0]
  {
    s := Ucs2ToUtf8(b, 6, limit);
  }

  // ---------- round trip ----------

  lemma PatchKeeps(b: seq<byte>, o: nat, s: seq<byte>, off: nat, t: seq<byte>)
    requires Holds(b, o, s) && o + |s| <= off && off + |t| <= |b|
    ensures Holds(Patch(b, off, t), o, s)
  {
    var c := Patch(b, off, t);
    assert c[..off] == b[..off];
    assert c[o..o + |s|] == c[..off][o..o + |s|] == b[..off][o..o + |s|] == b[o..o + |s|];
  }

  /** The four parts of a load option, one after the other. */
  predicate Parts(b: seq<byte>, attributes: nat, us: seq<Unit>, path: seq<byte>, data: seq<byte>) {
    && Holds(b, 0, Put(attributes, 4)) && Holds(b, 4, Put(|path|, 2))
    && HoldsUnits(b, 6, us)
    && Holds(b, 8 + 2 * |us|, path)
    && Holds(b, 8 + 2 * |us| + |path|, data)
  }

  lemma {:induction false} CountLimited(m: seq<byte>, i: nat, us: seq<Unit>, limit: nat)
    requires NulFree(us) && HoldsText(m, i, us) && i + |Encode(us)| <= limit
    ensures Readable(m, i, limit) && CharCount(m, i, limit) == |us|
    decreases |us|
  {
    if us == [] {
      TextEnd(m, i);
    } else {
      TextStep(m, i, us);
      CountLimited(m, i + Width(m[i]), us[1..], limit);
    }
  }

  /** What the creator makes of a description of at most 1024 bytes. */
  lemma DescriptionOf(m: seq<byte>, us: seq<Unit>)
    requires us != [] && NulFree(us) && HoldsText(m, 0, us) && |Encode(us)| <= 1024
    ensures Readable(m, 0, -1) && Readable(m, 0, 1024) && DescLen(m) == 2 * |us| + 2
    ensures var d := Decode(m, 0, DescLen(m));
      && Converts(m, DescLen(m), true) && Converted(m, DescLen(m), true) == UnitBytes(d) + [0, 0]
      && |d| <= |us| && NulFree(d)
      && (d == us <==> Fits(us, 2 * |us| + 2))
  {
    hide Encode, Decode, UnitBytes, LastStart, HoldsText, NulFree, Readable, CharCount;
    CountLimited(m, 0, us, 1024);
    TextCount(m, 0, us);
    var d := Decode(m, 0, DescLen(m));
    DecodeText(m, 0, us, DescLen(m));
    DecodeNulFree(m, 0, us, DescLen(m));
    UnitBytesSnoc(d, 0);
  }

  lemma {:induction false} DecodeNulFree(m: seq<byte>, i: nat, us: seq<Unit>, size: int)
    requires NulFree(us) && HoldsText(m, i, us) && Readable(m, i, -1)
    ensures NulFree(Decode(m, i, size))
    decreases |us|
  {
    if us == [] {
      TextEnd(m, i);
    } else {
      TextStep(m, i, us);
      TextCount(m, i + Width(m[i]), us[1..]);
      DecodeNulFree(m, i + Width(m[i]), us[1..], size);
    }
  }

  /** A description, a path and data that the creator takes. */
  ghost predicate Inputs(
    m: seq<byte>, us: seq<Unit>, dp: seq<byte>, ns: seq<DP.Node>, optional: Option<seq<byte>>, data: seq<byte>)
  {
    && us != [] && NulFree(us) && HoldsText(m, 0, us) && |Encode(us)| <= 1024
    && DP.AllInner(ns) && DP.StartsWith(dp, ns) && |DP.PathBytes(ns)| < TWO16
    && DP.Validity(DP.PathBytes(ns)) == DP.Valid
    && data == if optional.Some? then optional.value else []
  }

  /** What the creator refuses or leaves unwritten, whatever else it is given: too little room, data or a path that is missing
      though it has a size or has none, and a well-formed path that is not as long as the caller says. */
  lemma Refusals(size: int, dp: Option<seq<byte>>, dpSize: int, m: seq<byte>, optional: Option<seq<byte>>, optionalSize: nat)
    requires Readable(m, 0, 1024)
    ensures var total := 6 + (2 * CharCount(m, 0, 1024) + 2) + dpSize + optionalSize;
      var r := Plan(size, dp, dpSize, m, optional, optionalSize);
      && (size == 0 ==> r == Size(total)) && (r.Size? ==> r == Size(total))
      && (size != 0 && size < total ==> r == Refused)
      && (size != 0 && optional.None? && optionalSize != 0 ==> r == Refused)
      && (size != 0 && (dpSize < 0 || (dp.None? && dpSize == 0)) ==> r == Refused)
  {
    hide CharCount, PathCheck;
  }

  lemma OnlyWholePath(size: int, dp: seq<byte>, ns: seq<DP.Node>, dpSize: nat, m: seq<byte>, optional: Option<seq<byte>>,
                      optionalSize: nat)
    requires Readable(m, 0, 1024) && DP.AllInner(ns) && DP.StartsWith(dp, ns) && size != 0
    ensures Plan(size, Some(dp), dpSize, m, optional, optionalSize).Size? ==> dpSize == |DP.PathBytes(ns)|
  {
    DP.SizeIsSum(dp, 0, ns);
    hide DP.SizeFrom, DP.Validity, DP.PathBytes, CharCount, DP.AllInner;
  }

  /** Paths that begin with a node of any of the types 1 to 5, of at most 1024 bytes, are among them. */
  lemma UsualInputs(m: seq<byte>, us: seq<Unit>, dp: seq<byte>, ns: seq<DP.Node>, optional: Option<seq<byte>>, data: seq<byte>)
    requires us != [] && NulFree(us) && HoldsText(m, 0, us) && |Encode(us)| <= 1024
    requires DP.AllInner(ns) && DP.StartsWith(dp, ns) && |DP.PathBytes(ns)| < TWO16
    requires ns != [] && 1 <= ns[0].kind <= 5 && |ns[0].data| <= 1020
    requires data == if optional.Some? then optional.value else []
    ensures Inputs(m, us, dp, ns, optional, data)
  {
    assert DP.Plain(ns[0]);
    DP.AcceptedPath(ns);
    hide DP.Validity, DP.PathBytes, DP.AllInner, DP.StartsWith, NulFree, HoldsText;
  }

  lemma PathAccepted(dp: seq<byte>, ns: seq<DP.Node>)
    requires DP.AllInner(ns) && DP.StartsWith(dp, ns) && DP.Validity(DP.PathBytes(ns)) == DP.Valid
    ensures |dp| >= |DP.PathBytes(ns)| && dp[..|DP.PathBytes(ns)|] == DP.PathBytes(ns)
    ensures PathCheck(dp, |DP.PathBytes(ns)|) == Size(|DP.PathBytes(ns)|)
  {
    DP.SizeIsSum(dp, 0, ns);
    hide DP.SizeFrom, DP.Validity, DP.PathBytes;
  }

  /** Four stores, each behind the one before. */
  lemma FourStores(was: seq<byte>, head: seq<byte>, text: seq<byte>, o: nat, path: seq<byte>, data: seq<byte>)
    requires |head| == 6 && 6 + |text| <= o && o + |path| + |data| <= |was|
    ensures var b1 := Patch(was, 0, head);
      var b2 := Patch(b1, 6, text);
      var b3 := Patch(b2, o, path);
      var b4 := Patch(b3, o + |path|, data);
      && Holds(b3, 0, head) && Holds(b3, 6, text) && Holds(b3, o, path)
      && Holds(b4, 0, head) && Holds(b4, 6, text) && Holds(b4, o, path) && Holds(b4, o + |path|, data)
  {
    hide *;
    var b1 := Patch(was, 0, head);
    PatchHolds(was, 0, head);
    var b2 := Patch(b1, 6, text);
    PatchHolds(b1, 6, text);
    PatchKeeps(b1, 0, head, 6, text);
    var b3 := Patch(b2, o, path);
    PatchHolds(b2, o, path);
    PatchKeeps(b2, 0, head, o, path);
    PatchKeeps(b2, 6, text, o, path);
    PatchHolds(b3, o + |path|, data);
    PatchKeeps(b3, 0, head, o + |path|, data);
    PatchKeeps(b3, 6, text, o + |path|, data);
    PatchKeeps(b3, o, path, o + |path|, data);
  }

  lemma BuiltIs(was: seq<byte>, attributes: nat, path: seq<byte>, dp: seq<byte>, m: seq<byte>,
                optional: Option<seq<byte>>, data: seq<byte>, text: seq<byte>, o: nat)
    requires Readable(m, 0, -1) && Readable(m, 0, 1024) && DescLen(m) + 6 == o && 6 + |text| <= o
    requires Converts(m, DescLen(m), true) && Converted(m, DescLen(m), true) == text
    requires |dp| >= |path| && dp[..|path|] == path
    requires data == if optional.Some? then optional.value else []
    requires Total(m, |path|, |data|) <= |was|
    ensures o + |path| + |data| <= |was|
    ensures var b3 := Patch(Patch(Patch(was, 0, HeadBytes(attributes, |path|)), 6, text), o, path);
      Built(was, attributes, Some(dp), |path|, m, optional, |data|)
        == if optional.Some? then Patch(b3, o + |path|, data) else b3
  {
    hide Readable, CharCount, Converts, Converted, HeadBytes, Patch, DescLen;
  }

  /** The stores leave the parts in place, with as much of the description as was decoded. */
  lemma BuiltHolds(was: seq<byte>, attributes: nat, path: seq<byte>, dp: seq<byte>, m: seq<byte>,
                   optional: Option<seq<byte>>, data: seq<byte>, text: seq<byte>, o: nat)
    requires Readable(m, 0, -1) && Readable(m, 0, 1024) && DescLen(m) + 6 == o && 6 + |text| <= o
    requires Converts(m, DescLen(m), true) && Converted(m, DescLen(m), true) == text
    requires |dp| >= |path| && dp[..|path|] == path
    requires data == if optional.Some? then optional.value else []
    requires Total(m, |path|, |data|) <= |was|
    ensures var b := Built(was, attributes, Some(dp), |path|, m, optional, |data|);
      && Holds(b, 0, HeadBytes(attributes, |path|)) && Holds(b, 6, text)
      && Holds(b, o, path) && Holds(b, o + |path|, data)
  {
    hide *;
    BuiltIs(was, attributes, path, dp, m, optional, data, text, o);
    FourStores(was, HeadBytes(attributes, |path|), text, o, path, data);
    if optional.None? {
      NothingHeld(Built(was, attributes, Some(dp), |path|, m, optional, |data|), o + |path|);
    }
  }

  lemma HeadHolds(b: seq<byte>, attributes: nat, n: nat)
    requires Holds(b, 0, HeadBytes(attributes, n))
    ensures Holds(b, 0, Put(attributes, 4)) && Holds(b, 4, Put(n, 2))
  {
    HoldsSplit(b, 0, Put(attributes, 4), Put(n, 2));
  }

  lemma NothingHeld(b: seq<byte>, o: nat)
    requires o <= |b|
    ensures Holds(b, o, [])
  {
  }

  /** The created option has its four parts exactly when the last character of the description starts
      below the room given to it. */
  lemma CreatesParts(was: seq<byte>, attributes: nat, m: seq<byte>, us: seq<Unit>, dp: seq<byte>, ns: seq<DP.Node>,
                     optional: Option<seq<byte>>, data: seq<byte>)
    requires Inputs(m, us, dp, ns, optional, data)
    requires 8 + 2 * |us| + |DP.PathBytes(ns)| + |data| <= |was|
    ensures Readable(m, 0, -1) && Readable(m, 0, 1024)
    ensures var path := DP.PathBytes(ns);
      && Total(m, |path|, |data|) == 8 + 2 * |us| + |path| + |data|
      && Plan(|was|, Some(dp), |path|, m, optional, |data|) == Size(8 + 2 * |us| + |path| + |data|)
      && (Parts(Built(was, attributes, Some(dp), |path|, m, optional, |data|), attributes, us, path, data)
          <==> LastStart(us) < 2 * |us| + 2)
  {
    hide *;
    InputsAre(m, us, dp, ns, optional, data);
    DescriptionOf(m, us);
    PathAccepted(dp, ns);
    var path, d := DP.PathBytes(ns), Decode(m, 0, DescLen(m));
    TotalIs(m, |path|, |data|);
    PlanIs(|was|, dp, |path|, m, optional, |data|);
    BuiltHolds(was, attributes, path, dp, m, optional, data, UnitBytes(d) + [0, 0], 8 + 2 * |us|);
    var b := Built(was, attributes, Some(dp), |path|, m, optional, |data|);
    HeadHolds(b, attributes, |path|);
    DescriptionKept(b, us, d);
    FitsIs(us);
    PartsIff(b, attributes, us, path, data);
  }

  lemma TotalIs(m: seq<byte>, n: nat, k: nat)
    requires Readable(m, 0, 1024)
    ensures Total(m, n, k) == 6 + DescLen(m) + n + k
  {
    hide Readable, DescLen;
  }

  lemma PlanIs(size: nat, dp: seq<byte>, n: nat, m: seq<byte>, optional: Option<seq<byte>>, k: nat)
    requires Readable(m, 0, 1024) && 0 < Total(m, n, k) <= size && (optional.None? ==> k == 0)
    requires PathCheck(dp, n) == Size(n)
    ensures Plan(size, Some(dp), n, m, optional, k) == Size(Total(m, n, k))
  {
    hide Readable, Total, PathCheck;
  }

  lemma FitsIs(us: seq<Unit>)
    requires us != []
    ensures Fits(us, 2 * |us| + 2) <==> LastStart(us) < 2 * |us| + 2
  {
    hide LastStart;
  }

  /** A buffer holds one NUL-terminated string at an offset. */
  lemma DescriptionKept(b: seq<byte>, us: seq<Unit>, d: seq<Unit>)
    requires NulFree(us) && NulFree(d) && Holds(b, 6, UnitBytes(d) + [0, 0])
    ensures HoldsUnits(b, 6, us) <==> d == us
  {
    hide NulFree, UnitBytes, Holds, Scannable, Scan;
    if HoldsUnits(b, 6, us) {
      ScanFrom(b, 6, 0, us, -1);
      ScanFrom(b, 6, 0, d, -1);
    }
  }

  lemma PartsIff(b: seq<byte>, attributes: nat, us: seq<Unit>, path: seq<byte>, data: seq<byte>)
    requires Holds(b, 0, Put(attributes, 4)) && Holds(b, 4, Put(|path|, 2))
    requires Holds(b, 8 + 2 * |us|, path) && Holds(b, 8 + 2 * |us| + |path|, data)
    ensures Parts(b, attributes, us, path, data) <==> HoldsUnits(b, 6, us)
  {
    hide Holds, HoldsUnits, Put;
  }

  /** Descriptions below U+0800 always fit. */
  lemma ShortDescriptionFits(us: seq<Unit>)
    requires us != [] && forall i :: 0 <= i < |us| ==> us[i] <= 0x7ff
    ensures LastStart(us) < 2 * |us| + 2
  {
    TwoByteText(us[..|us| - 1]);
  }

  /** Five three-byte characters do not. */
  lemma WideDescriptionCut()
    ensures var us: seq<Unit> := [0x800, 0x800, 0x800, 0x800, 0x800]; LastStart(us) == 2 * |us| + 2
  {
    var us: seq<Unit> := [0x800, 0x800, 0x800, 0x800, 0x800];
    var u := EncodeUnit(0x800);
    assert |u| == 3;
    assert us[..4] == [0x800, 0x800, 0x800, 0x800];
    EncodeConcat([0x800, 0x800], [0x800, 0x800]);
    assert [0x800, 0x800, 0x800, 0x800] == [0x800, 0x800] + [0x800, 0x800];
    assert |Encode([0x800, 0x800])| == 6 by {
      assert [0x800, 0x800][1..] == [0x800] && [0x800][1..] == [];
      assert |Encode([0x800])| == 3;
    }
  }

  lemma PathLengthIs(b: seq<byte>, attributes: nat, path: seq<byte>)
    requires Holds(b, 0, Put(attributes, 4)) && Holds(b, 4, Put(|path|, 2)) && attributes < TWO32 && |path| < TWO16
    ensures |b| >= 6 && Attributes(b) == attributes && PathLength(b) == |path|
  {
    Widths();
    GetPut(attributes, 4);
    GetPut(|path|, 2);
    hide Put, Get;
  }

  lemma DescSizeIs(b: seq<byte>, us: seq<Unit>, limit: nat)
    requires NulFree(us) && HoldsUnits(b, 6, us) && 2 * |us| + 2 <= limit
    ensures Scannable(b, 6, 0, limit) && DescSize(b, limit) == 2 * |us| + 2
  {
    ScanFrom(b, 6, 0, us, limit);
  }

  lemma PathWindow(b: seq<byte>, o: nat, ns: seq<DP.Node>)
    requires DP.AllInner(ns) && Holds(b, o, DP.PathBytes(ns)) && DP.Validity(DP.PathBytes(ns)) == DP.Valid
    ensures |DP.PathBytes(ns)| >= 4 && o + |DP.PathBytes(ns)| <= |b|
    ensures DP.Validity(b[o..o + |DP.PathBytes(ns)|]) == DP.Valid
    ensures ListEnd(b, o, |DP.PathBytes(ns)|) == Found(o, |DP.PathBytes(ns)|)
  {
    var n := |DP.PathBytes(ns)|;
    DP.SizeIsSum(b, o, ns);
    hide DP.SizeFrom, DP.Validity;
    assert n >= 4;
    HopsStart(b, o, n);
    HopsNext(b, o, n, 0);
    ListEndIs(b, o, n, 1);
  }

  /** From the parts, every accessor gives its part back, and the parts tile the option. */
  lemma AccessorsGiveParts(b: seq<byte>, attributes: nat, us: seq<Unit>, ns: seq<DP.Node>, data: seq<byte>)
    requires Parts(b, attributes, us, DP.PathBytes(ns), data) && attributes < TWO32 && NulFree(us)
    requires DP.AllInner(ns) && |DP.PathBytes(ns)| < TWO16 && DP.Validity(DP.PathBytes(ns)) == DP.Valid
    ensures var path := DP.PathBytes(ns);
      var size := 8 + 2 * |us| + |path| + |data|;
      && |b| >= size && Attributes(b) == attributes
      && PathOf(b, size) == Found(8 + 2 * |us|, |path|) && Holds(b, 8 + 2 * |us|, path)
      && OptionalData(b, size) == Found(size - |data|, |data|) && Holds(b, size - |data|, data)
      && OptionalSize(b, size) == Found(0, |data|)
      && Scannable(b, 6, 0, -1) && Encode(Scan(b, 6, 0, -1)) + [0] == Encode(us) + [0]
      && 6 + (2 * |us| + 2) + |path| + |data| == size
  {
    hide *;
    var path := DP.PathBytes(ns);
    var size := 8 + 2 * |us| + |path| + |data|;
    PartsAre(b, attributes, us, path, data);
    PathLengthIs(b, attributes, path);
    PathWindow(b, 8 + 2 * |us|, ns);
    ScanFrom(b, 6, 0, us, -1);
    DescSizeIs(b, us, size - 6);
    DescSizeIs(b, us, size - 6 - |path|);
    PathOfIs(b, size, 2 * |us| + 2, |path|);
    OptionalSizeIs(b, size, 2 * |us| + 2, |path|);
  }

  lemma PartsAre(b: seq<byte>, attributes: nat, us: seq<Unit>, path: seq<byte>, data: seq<byte>)
    requires Parts(b, attributes, us, path, data)
    ensures Holds(b, 0, Put(attributes, 4)) && Holds(b, 4, Put(|path|, 2)) && HoldsUnits(b, 6, us)
    ensures Holds(b, 8 + 2 * |us|, path) && Holds(b, 8 + 2 * |us| + |path|, data)
    ensures |b| >= 8 + 2 * |us| + |path| + |data|
  {
    hide Put, UnitBytes;
  }

  lemma PathOfIs(b: seq<byte>, size: nat, d: nat, n: nat)
    requires 6 + d + n <= size <= |b| && n >= 4 && PathLength(b) == n
    requires Scannable(b, 6, 0, size - 6) && DescSize(b, size - 6) == d
    requires DP.Validity(b[6 + d..6 + d + n]) == DP.Valid
    ensures PathOf(b, size) == Found(6 + d, n)
    ensures OptionalData(b, size) == Found(6 + d + n, size - (6 + d + n))
  {
    hide Scannable, DescSize, DP.Validity, PathLength;
  }

  lemma OptionalSizeIs(b: seq<byte>, size: nat, d: nat, n: nat)
    requires 6 + d + n <= size <= |b| && PathLength(b) == n
    requires Scannable(b, 6, 0, size - 6 - n) && DescSize(b, size - 6 - n) == d
    requires DP.Validity(b[6 + d..6 + d + n]) == DP.Valid && ListEnd(b, 6 + d, n) == Found(6 + d, n)
    ensures OptionalSize(b, size) == Found(0, size - 6 - n - d)
  {
    hide Scannable, DescSize, DP.Validity, PathLength, ListEnd;
  }

  /** Creating and reading back. */
  lemma RoundTrip(was: seq<byte>, attributes: nat, m: seq<byte>, us: seq<Unit>, dp: seq<byte>, ns: seq<DP.Node>,
                  optional: Option<seq<byte>>, data: seq<byte>)
    requires Inputs(m, us, dp, ns, optional, data) && attributes < TWO32
    requires LastStart(us) < 2 * |us| + 2
    requires 8 + 2 * |us| + |DP.PathBytes(ns)| + |data| <= |was|
    ensures Readable(m, 0, -1) && Readable(m, 0, 1024)
    ensures var path := DP.PathBytes(ns);
      var size := 8 + 2 * |us| + |path| + |data|;
      && |dp| >= |path| && Total(m, |path|, |data|) == size
      && Plan(|was|, Some(dp), |path|, m, optional, |data|) == Size(size)
      && var b := Built(was, attributes, Some(dp), |path|, m, optional, |data|);
      && |b| >= size && Attributes(b) == attributes
      && PathOf(b, size) == Found(8 + 2 * |us|, |path|) && Holds(b, 8 + 2 * |us|, path)
      && OptionalData(b, size) == Found(size - |data|, |data|) && Holds(b, size - |data|, data)
      && OptionalSize(b, size) == Found(0, |data|)
      && Scannable(b, 6, 0, -1) && Encode(Scan(b, 6, 0, -1)) + [0] == Encode(us) + [0]
  {
    hide *;
    InputsAre(m, us, dp, ns, optional, data);
    PathAccepted(dp, ns);
    CreatesParts(was, attributes, m, us, dp, ns, optional, data);
    var path := DP.PathBytes(ns);
    AccessorsGiveParts(Built(was, attributes, Some(dp), |path|, m, optional, |data|), attributes, us, ns, data);
  }

  lemma InputsAre(
      m: seq<byte>, us: seq<Unit>, dp: seq<byte>, ns: seq<DP.Node>, optional: Option<seq<byte>>, data: seq<byte>)
    requires Inputs(m, us, dp, ns, optional, data)
    ensures us != [] && NulFree(us) && HoldsText(m, 0, us) && |Encode(us)| <= 1024
    ensures DP.AllInner(ns) && DP.StartsWith(dp, ns) && |DP.PathBytes(ns)| < TWO16
    ensures data == if optional.Some? then optional.value else []
    ensures DP.Validity(DP.PathBytes(ns)) == DP.Valid && (optional.Some? ==> |optional.value| == |data|)
  {
    hide Encode, HoldsText, DP.Validity, DP.PathBytes, DP.AllInner, DP.StartsWith, NulFree;
  }
}
