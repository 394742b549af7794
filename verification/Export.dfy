/**
  Variable export and import (export.c): the dmpstore record, written through a moving
  pointer and walked back, and the acceptance test of the native record.
 */
module Export {
  import opened Bytes
  import opened Crc32
  import opened Guids
  import opened Ucs2

  /** An efi_variable_t whose name, guid and data are set; the name excludes its NUL. */
  datatype Variable = Variable(name: seq<byte>, guid: Guid, attrs: nat, data: seq<byte>)

  // ---------- the dmpstore record ----------

  /** The fields of a record as they lie in it; `name` includes its terminator. */
  datatype Raw = Raw(name: seq<byte>, guid: Guid, attrs: nat, data: seq<byte>)

  function Body(r: Raw): (s: seq<byte>)
    ensures |s| == 28 + |r.name| + |r.data|
  {
    Put(|r.name|, 4) + Put(|r.data|, 4) + r.name + r.guid + Put(r.attrs, 4) + r.data
  }

  function Record(r: Raw): (s: seq<byte>)
    ensures |s| == 32 + |r.name| + |r.data|
  {
    Body(r) + EfiCrc(Body(r))
  }

  /** What the importer insists on. */
  predicate WellFormed(r: Raw) {
    && 2 < |r.name| < TWO32 && |r.name| % 2 == 0
    && r.name[|r.name| - 2..] == [0, 0]
    && 0 < |r.data| < TWO32
    && r.attrs < TWO32
  }

  predicate Starts(b: seq<byte>, r: Raw) { WellFormed(r) && Holds(b, 0, Record(r)) }

  /** Where each field of a body lies. */
  lemma BodyFields(b: seq<byte>, r: Raw)
    requires Holds(b, 0, Body(r))
    ensures Holds(b, 0, Put(|r.name|, 4)) && Holds(b, 4, Put(|r.data|, 4))
    ensures Holds(b, 8, r.name) && Holds(b, 8 + |r.name|, r.guid)
    ensures Holds(b, 24 + |r.name|, Put(r.attrs, 4)) && Holds(b, 28 + |r.name|, r.data)
  {
    hide Holds;
    var a1 := Put(|r.name|, 4);
    var a2 := a1 + Put(|r.data|, 4);
    var a3 := a2 + r.name;
    var a4 := a3 + r.guid;
    var a5 := a4 + Put(r.attrs, 4);
    HoldsSplit(b, 0, a5, r.data);
    HoldsSplit(b, 0, a4, Put(r.attrs, 4));
    HoldsSplit(b, 0, a3, r.guid);
    HoldsSplit(b, 0, a2, r.name);
    HoldsSplit(b, 0, a1, Put(|r.data|, 4));
  }

  /** And conversely: a buffer whose fields are in place holds the body. */
  lemma BodyFromFields(b: seq<byte>, r: Raw)
    requires Holds(b, 0, Put(|r.name|, 4)) && Holds(b, 4, Put(|r.data|, 4))
    requires Holds(b, 8, r.name) && Holds(b, 8 + |r.name|, r.guid)
    requires Holds(b, 24 + |r.name|, Put(r.attrs, 4)) && Holds(b, 28 + |r.name|, r.data)
    ensures Holds(b, 0, Body(r))
  {
    hide Holds;
    var a1 := Put(|r.name|, 4);
    var a2 := a1 + Put(|r.data|, 4);
    var a3 := a2 + r.name;
    var a4 := a3 + r.guid;
    var a5 := a4 + Put(r.attrs, 4);
    HoldsSplit(b, 0, a1, Put(|r.data|, 4));
    HoldsSplit(b, 0, a2, r.name);
    HoldsSplit(b, 0, a3, r.guid);
    HoldsSplit(b, 0, a4, Put(r.attrs, 4));
    HoldsSplit(b, 0, a5, r.data);
  }

  /** The tests efi_variable_import_dmpstore makes, in its order. */
  predicate AcceptsDmpstore(b: seq<byte>) {
    && |b| > 35
    && Word(b, 0) > 2 && Word(b, 0) % 2 == 0
    && Word(b, 4) != 0
    && |b| >= 32 + Word(b, 0) + Word(b, 4)
    && b[6 + Word(b, 0)] == 0 && b[7 + Word(b, 0)] == 0
    && Sealed(b[..32 + Word(b, 0) + Word(b, 4)])
  }

  function RawAt(b: seq<byte>): (r: Raw)
    requires AcceptsDmpstore(b)
    ensures |r.name| == Word(b, 0) && |r.data| == Word(b, 4)
  {
    var n, d := Word(b, 0), Word(b, 4);
    Raw(b[8..8 + n], b[8 + n..24 + n], Word(b, 24 + n), b[28 + n..28 + n + d])
  }

  lemma AcceptedStarts(b: seq<byte>)
    requires AcceptsDmpstore(b)
    ensures Starts(b, RawAt(b))
  {
    hide Sealed, EfiCrc;
    var r := RawAt(b);
    var n, d := Word(b, 0), Word(b, 4);
    WordHolds(b, 0, n);
    WordHolds(b, 4, d);
    WordHolds(b, 24 + n, r.attrs);
    assert r.name[n - 2..] == [b[6 + n], b[7 + n]];
    BodyFromFields(b, r);
    SealedSplit(b[..32 + n + d], Body(r));
    HoldsSplit(b, 0, Body(r), EfiCrc(Body(r)));
  }

  lemma SealedSplit(s: seq<byte>, body: seq<byte>)
    requires |s| == |body| + 4 && Holds(s, 0, body)
    ensures Sealed(s) <==> Holds(s, |body|, EfiCrc(body))
  {
    hide EfiCrc;
    assert s[..|s| - 4] == body;
  }

  lemma RecordSealed(b: seq<byte>, r: Raw)
    requires Holds(b, 0, Record(r))
    ensures Sealed(b[..|Record(r)|])
  {
    hide EfiCrc, Sealed, Body;
    var s := b[..|Record(r)|];
    assert s == Record(r);
    SealedSplit(s, Body(r));
  }

  lemma StartsAccepted(b: seq<byte>, r: Raw)
    requires Starts(b, r)
    ensures AcceptsDmpstore(b) && RawAt(b) == r
  {
    hide EfiCrc, Sealed, Body, Word;
    HoldsSplit(b, 0, Body(r), EfiCrc(Body(r)));
    BodyFields(b, r);
    WordHolds(b, 0, |r.name|);
    WordHolds(b, 4, |r.data|);
    WordHolds(b, 24 + |r.name|, r.attrs);
    RecordSealed(b, r);
    NameEnd(b, r.name);
  }

  lemma NameEnd(b: seq<byte>, name: seq<byte>)
    requires Holds(b, 8, name) && |name| >= 2 && name[|name| - 2..] == [0, 0]
    ensures b[6 + |name|] == 0 && b[7 + |name|] == 0
  {
    assert b[8..8 + |name|][|name| - 2..] == [b[6 + |name|], b[7 + |name|]];
  }

  /** A buffer starts with at most one record, so records need no separator. */
  lemma RecordUnique(b: seq<byte>, r: Raw, r': Raw)
    requires Starts(b, r) && Starts(b, r')
    ensures r == r'
  {
    hide Starts, AcceptsDmpstore;
    StartsAccepted(b, r);
    StartsAccepted(b, r');
  }

  lemma {:induction false} NameScannable(b: seq<byte>, name: seq<byte>, k: nat)
    requires |name| % 2 == 0 && 2 * k < |name| && Holds(b, 8, name)
    requires name[|name| - 2] == 0 && name[|name| - 1] == 0
    ensures Scannable(b, 8, k, -1)
    decreases |name| - k
  {
    assert b[8..8 + |name|] == name;
    assert UnitAt(b, 8, k) == name[2 * k] + 256 * (name[2 * k + 1] as int);
    if UnitAt(b, 8, k) != 0 {
      NameScannable(b, name, k + 1);
    }
  }

  datatype Imported = Imported(raw: Raw, variable: Variable, consumed: nat)

  /** efi_variable_import_dmpstore; it fails at the end when the caller's pointer is already set. */
  method ImportDmpstore(b: seq<byte>, preset: bool) returns (r: Option<Imported>)
    ensures r.Some? <==> !preset && exists raw :: Starts(b, raw)
    ensures r.Some? ==>
              && Starts(b, r.value.raw)
              && r.value.consumed == |Record(r.value.raw)|
              && Scannable(b, 8, 0, -1)
              && r.value.variable == Variable(Encode(Scan(b, 8, 0, -1)), r.value.raw.guid,
                                              r.value.raw.attrs, r.value.raw.data)
  {
    hide Sealed, EfiCrc, Starts, Encode, Scan, Scannable, RawAt;
    AcceptedIff(b);
    r := None;
    if |b| <= 35 {
      return;
    }
    var ptr := 0;
    var namesz := Word(b, ptr);
    ptr := ptr + 4;
    if namesz <= 2 || namesz % 2 != 0 {
      return;
    }
    var datasz := Word(b, ptr);
    ptr := ptr + 4;
    if datasz == 0 {
      return;
    }
    var size := 32 + namesz + datasz;
    if |b| < size {
      return;
    }
    if !(b[ptr + namesz - 1] == 0 && b[ptr + namesz - 2] == 0) {
      return;
    }
    var crc := EfiCrc32(b[..size - 4]);
    SealedPrefix(b, size);
    if b[size - 4..size] != crc {
      return;
    }
    AcceptedStarts(b);
    RawFields(b);
    NameScannable(b, b[ptr..ptr + namesz], 0);
    var text := Ucs2ToUtf8(b, ptr, -1);
    var name := text.value[..|text.value| - 1];
    ptr := ptr + namesz;
    var guid := b[ptr..ptr + 16];
    ptr := ptr + 16;
    var attrs := Word(b, ptr);
    ptr := ptr + 4;
    var data := b[ptr..ptr + datasz];
    if preset {
      return None;
    }
    r := Some(Imported(Raw(b[8..8 + namesz], guid, attrs, data), Variable(name, guid, attrs, data), size));
  }

  lemma AcceptedIff(b: seq<byte>)
    ensures AcceptsDmpstore(b) <==> exists raw :: Starts(b, raw)
  {
    hide AcceptsDmpstore, Starts;
    if AcceptsDmpstore(b) {
      AcceptedStarts(b);
    }
    if raw :| Starts(b, raw) {
      StartsAccepted(b, raw);
    }
  }

  lemma SealedPrefix(b: seq<byte>, size: nat)
    requires 4 <= size <= |b|
    ensures Sealed(b[..size]) <==> b[size - 4..size] == EfiCrc(b[..size - 4])
  {
    hide EfiCrc;
    assert b[..size][..size - 4] == b[..size - 4] && b[..size][size - 4..] == b[size - 4..size];
  }

  lemma RawFields(b: seq<byte>)
    requires AcceptsDmpstore(b)
    ensures var n, d := Word(b, 0), Word(b, 4);
            RawAt(b) == Raw(b[8..8 + n], b[8 + n..24 + n], Word(b, 24 + n), b[28 + n..28 + n + d])
  {
  }

  // ---------- export ----------

  /** The name, as the C string the exporter is given. */
  function CName(v: Variable): (m: seq<byte>) { v.name + [0] }

  /** The name bytes a record carries when the decoder may read `size` bytes of the name. */
  function NameField(v: Variable, size: int): (s: seq<byte>)
    requires Readable(CName(v), 0, -1)
  {
    if CharCount(CName(v), 0, -1) == 0 then [] else Converted(CName(v), size, true)
  }

  function RawOf(v: Variable, size: int): (r: Raw)
    requires Readable(CName(v), 0, -1)
  {
    Raw(NameField(v, size), v.guid, v.attrs, v.data)
  }

  /** The size asked for before the name has been converted. */
  function Needed(v: Variable): (n: nat)
    requires Readable(CName(v), 0, -1)
  {
    32 + 2 * (CharCount(CName(v), 0, -1) + 1) + |v.data|
  }

  /** A name whose count of characters does not fit the 32 bits it is narrowed to. */
  predicate Long(v: Variable)
    requires Readable(CName(v), 0, -1)
  {
    CharCount(CName(v), 0, -1) + 1 >= TWO32
  }

  /** The size the exporter asks for, computed from the narrowed count. */
  function Asked(v: Variable): (n: nat)
    requires Readable(CName(v), 0, -1)
    ensures !Long(v) ==> n == Needed(v)
  {
    32 + 2 * U32(CharCount(CName(v), 0, -1) + 1) + |v.data|
  }

  /** The fields that get into a record when `s` has been converted: as much of it as a narrowed length counts. */
  function Narrowed(v: Variable, s: seq<byte>): (r: Raw) {
    Raw(s[..Min(U32(|s|), |s|)], v.guid, v.attrs, v.data)
  }

  function Min(a: nat, b: nat): (n: nat) { if a < b then a else b }

  lemma NarrowedIs(v: Variable, s: seq<byte>)
    ensures U32(|s|) <= |s| && Narrowed(v, s) == Raw(s[..U32(|s|)], v.guid, v.attrs, v.data)
    ensures |s| < TWO32 ==> Narrowed(v, s) == Raw(s, v.guid, v.attrs, v.data)
  {
    assert s[..|s|] == s;
  }

  lemma Multiples(x: nat, k: nat)
    ensures (x + TWO32 * k) % TWO32 == x % TWO32
    decreases k
  {
    if k > 0 {
      Multiples(x, k - 1);
      assert x + TWO32 * k == x + TWO32 * (k - 1) + TWO32;
    }
  }

  lemma NarrowTwice(n: nat)
    ensures U32(2 * U32(n)) == U32(2 * n)
  {
    var q, x := n / TWO32, U32(n);
    assert 2 * n == 2 * x + TWO32 * (2 * q);
    Multiples(2 * x, 2 * q);
  }

  lemma NameFieldSize(v: Variable, size: int)
    requires Readable(CName(v), 0, -1)
    ensures |NameField(v, size)| <= 2 * (CharCount(CName(v), 0, -1) + 1)
  {
    DecodeShorter(CName(v), 0, size);
  }

  lemma ConversionHappens(v: Variable, datasz: nat)
    requires Readable(CName(v), 0, -1) && datasz >= Needed(v)
    ensures CharCount(CName(v), 0, -1) > 0 <==> Converts(CName(v), datasz - 8, true)
    ensures CharCount(CName(v), 0, -1) == 0 ==> Required(CName(v), true) == 0
    ensures 8 + |Converted(CName(v), datasz - 8, true)| <= datasz
  {
    DecodeShorter(CName(v), 0, datasz - 8);
  }

  lemma PatchEmpty(b: seq<byte>, off: nat)
    requires off <= |b|
    ensures Patch(b, off, []) == b
  {
  }

  /** The name is stored first, the fields around it afterwards. */
  lemma BodyStored(was: seq<byte>, r: Raw)
    requires |Body(r)| <= |was|
    ensures var n := |r.name|;
            var b2 := Patch(Patch(Patch(was, 8, r.name), 0, Put(n, 4)), 4, Put(|r.data|, 4));
            Patch(Patch(Patch(b2, 8 + n, r.guid), 24 + n, Put(r.attrs, 4)), 28 + n, r.data) == Patch(was, 0, Body(r))
  {
    hide Patch, Body, Put;
    var n := |r.name|;
    var a1 := Put(n, 4);
    var a2 := a1 + Put(|r.data|, 4);
    var a3 := a2 + r.name;
    var a4 := a3 + r.guid;
    var a5 := a4 + Put(r.attrs, 4);
    PatchPatch(Patch(was, 8, r.name), 0, a1, Put(|r.data|, 4));
    PatchBefore(was, 0, a2, r.name);
    PatchPatch(was, 0, a3, r.guid);
    PatchPatch(was, 0, a4, Put(r.attrs, 4));
    PatchPatch(was, 0, a5, r.data);
    BodyIs(r);
  }

  lemma BodyIs(r: Raw)
    ensures Body(r) == Put(|r.name|, 4) + Put(|r.data|, 4) + r.name + r.guid + Put(r.attrs, 4) + r.data
  {
  }

  /** What an exporter does once there is room: `was` is the buffer before the name, `at` the place of the name and
      `rec` the record for the fields that get into one. */
  ghost predicate Stores(
    v: Variable, datasz: nat, was: seq<byte>, at: nat, rec: seq<byte>, asked: nat, r: int, overran: bool, now: seq<byte>)
    requires Readable(CName(v), 0, -1) && at <= |was|
  {
    var count, s := CharCount(CName(v), 0, -1), NameField(v, datasz - 8);
    if count > 0 && !Converts(CName(v), datasz - 8, true) then r == -1 && !overran && now == was
    else if at + |s| > |was| then overran
    else
      && !overran
      && var named := Patch(was, at, s);
      if |rec| > asked then r == -1 && now == named
      else |rec| <= |was| && r == |rec| && now == Patch(named, 0, rec)
  }

  /** efi_variable_export_dmpstore. A name of 2^32 characters or more is counted modulo 2^32: the size asked for is
      too small, and a record that is written after all has its name cut, in front of what is left of it. */
  method ExportDmpstore(v: Variable, buf: array<byte>, datasz: nat) returns (r: int, overran: bool)
    requires Readable(CName(v), 0, -1)
    requires datasz <= buf.Length
    modifies buf
    ensures Asked(v) >= TWO32 ==> r == -1 && !overran && buf[..] == old(buf[..])
    ensures Asked(v) < TWO32 && datasz == 0 ==> r == Asked(v) && !overran && buf[..] == old(buf[..])
    ensures Asked(v) < TWO32 && 0 < datasz < Asked(v) ==>
              r == Asked(v) - datasz && !overran && buf[..] == old(buf[..])
    ensures Asked(v) < TWO32 && Asked(v) <= datasz ==>
              var rec := Record(Narrowed(v, NameField(v, datasz - 8)));
              Stores(v, datasz, old(buf[..]), 8, rec, Asked(v), r, overran, buf[..])
    ensures Asked(v) < TWO32 && Asked(v) <= datasz && !Long(v) ==>
              var rec := Record(RawOf(v, datasz - 8));
              !overran && r == |rec| <= Needed(v) && buf[..] == Patch(old(buf[..]), 0, rec)
  {
    hide Converted, Decode, Readable, CharCount, EfiCrc, Patch, Body, Record, U32, NameField, Stores, Narrowed;
    ghost var was := buf[..];
    var n := Utf8Size(CName(v), -1);
    var namesz := U32(n);
    namesz := 2 * namesz;
    if namesz >= TWO32 {
      return -1, false;
    }
    var needed := 32;
    needed := needed + namesz;
    if needed >= TWO32 {
      return -1, false;
    }
    needed := needed + |v.data|;
    if needed >= TWO32 {
      return -1, false;
    }
    if datasz == 0 {
      return needed, false;
    }
    if datasz < needed {
      return needed - datasz, false;
    }
    r, overran := StoreDmpstore(v, namesz, needed, buf, datasz);
    if !Long(v) {
      ShortName(v, datasz);
      var raw := RawOf(v, datasz - 8);
      RecordIs(raw);
      ShortStores(v, datasz, was, 8, Record(raw), needed, r, overran, buf[..]);
    }
  }

  /** The conversion of the name, and the record around it. */
  method StoreDmpstore(v: Variable, namesz: nat, needed: nat, buf: array<byte>, datasz: nat) returns (r: int, overran: bool)
    requires Readable(CName(v), 0, -1) && needed == Asked(v) == 32 + namesz + |v.data| <= datasz <= buf.Length
    modifies buf
    ensures var rec := Record(Narrowed(v, NameField(v, datasz - 8)));
      Stores(v, datasz, old(buf[..]), 8, rec, needed, r, overran, buf[..])
  {
    hide Decode, Readable, CharCount, EfiCrc, Patch, Body, Record, U32, Narrowed, Asked;
    ghost var was, s := buf[..], NameField(v, datasz - 8);
    var units;
    units, overran := Utf8ToUcs2(buf, 8, datasz - 8, true, CName(v));
    if overran {
      return -1, true;
    }
    if units < 0 {
      return -1, false;
    }
    PatchEmpty(was, 8);
    ghost var named := buf[..];
    assert named == Patch(was, 8, s) && 2 * units == |s|;
    var size := U32(2 * U32(units));
    NarrowTwice(units);
    NarrowedIs(v, s);
    RecordIs(Narrowed(v, s));
    if namesz < size {
      return -1, false;
    }
    var slack := namesz - size;
    PatchAgain(was, 8, s, size);
    StoreRecord(v, namesz - slack, needed - slack, buf, named, Narrowed(v, s));
    return needed - slack, false;
  }

  lemma PatchAgain(was: seq<byte>, at: nat, s: seq<byte>, n: nat)
    requires at + |s| <= |was| && n <= |s|
    ensures Patch(Patch(was, at, s), at, s[..n]) == Patch(was, at, s)
  {
  }

  lemma PatchOver(was: seq<byte>, at: nat, s: seq<byte>, rec: seq<byte>)
    requires at + |s| <= |rec| <= |was|
    ensures Patch(Patch(was, at, s), 0, rec) == Patch(was, 0, rec)
  {
  }

  /** Below 2^32 characters the conversion always takes place, and the record has all of what it stored. */
  lemma ShortName(v: Variable, datasz: nat)
    requires Readable(CName(v), 0, -1) && !Long(v) && Needed(v) <= datasz && Needed(v) < TWO32
    ensures var s := NameField(v, datasz - 8);
      && (CharCount(CName(v), 0, -1) == 0 || Converts(CName(v), datasz - 8, true))
      && |s| + |v.data| + 32 <= Needed(v) && Narrowed(v, s) == RawOf(v, datasz - 8)
  {
    NameFieldSize(v, datasz - 8);
    ConversionHappens(v, datasz);
    hide Decode, Readable, CharCount, Converted, U32;
    NarrowedIs(v, NameField(v, datasz - 8));
  }

  lemma ShortStores(
      v: Variable, datasz: nat, was: seq<byte>, at: nat, rec: seq<byte>, asked: nat, r: int, overran: bool, now: seq<byte>)
    requires Readable(CName(v), 0, -1) && !Long(v) && Needed(v) <= datasz && Needed(v) < TWO32
    requires at + |NameField(v, datasz - 8)| <= |rec| <= asked <= |was|
    requires Stores(v, datasz, was, at, rec, asked, r, overran, now)
    ensures !overran && r == |rec| && now == Patch(was, 0, rec)
  {
    ShortName(v, datasz);
    PatchOver(was, at, NameField(v, datasz - 8), rec);
    hide NameField, Readable, CharCount, Patch, Converts;
  }

  /** The stores around a converted name: sizes before it, the rest and the CRC after it. */
  method StoreRecord(v: Variable, namesz: nat, needed: nat, buf: array<byte>, ghost was: seq<byte>, ghost raw: Raw)
    requires raw == Raw(raw.name, v.guid, v.attrs, v.data) && namesz == |raw.name|
    requires needed == |Record(raw)| <= buf.Length == |was|
    requires buf[..] == Patch(was, 8, raw.name)
    modifies buf
    ensures buf[..] == Patch(was, 0, Record(raw))
  {
    hide Patch, Body, EfiCrc, Record, Put;
    BodyStored(was, raw);
    var ptr := 0;
    Store(buf, ptr, Put(namesz, 4));
    ptr := ptr + 4;
    Store(buf, ptr, Put(|v.data|, 4));
    ptr := ptr + 4;
    ptr := ptr + namesz;
    Store(buf, ptr, v.guid);
    ptr := ptr + 16;
    Store(buf, ptr, Put(v.attrs, 4));
    ptr := ptr + 4;
    Store(buf, ptr, v.data);
    ptr := ptr + |v.data|;
    PatchHolds(was, 0, Body(raw));
    var crc := EfiCrc32(buf[..needed - 4]);
    PatchPatch(was, 0, Body(raw), crc);
    Store(buf, ptr, crc);
    RecordIs(raw);
  }

  lemma RecordIs(r: Raw)
    ensures Record(r) == Body(r) + EfiCrc(Body(r))
  {
  }

  // ---------- round trip ----------

  /** A variable both sides accept: a non-empty shortest-form name, data, 32-bit attributes. */
  predicate Portable(v: Variable) {
    && v.name != [] && ShortestForm(v.name)
    && v.attrs < TWO32
    && v.data != []
    && Readable(CName(v), 0, -1) && Needed(v) < TWO32
  }

  /** The fields of a record of `v` with the whole name in it. */
  function WholeRaw(v: Variable): (r: Raw)
    requires Portable(v)
    ensures r.guid == v.guid && r.attrs == v.attrs && r.data == v.data
  {
    RawOf(v, -1)
  }

  function WholeRecord(v: Variable): (s: seq<byte>)
    requires Portable(v)
  {
    Record(WholeRaw(v))
  }

  /** The name field of an exported variable holds the whole name exactly when its last character starts
      below the size the decoder was given. */
  lemma NameFieldText(v: Variable, us: seq<Unit>, size: int)
    requires us != [] && NulFree(us) && v.name == Encode(us)
    ensures Readable(CName(v), 0, -1) && CharCount(CName(v), 0, -1) == |us|
    ensures NameField(v, size) == UnitBytes(us) + [0, 0] <==> Fits(us, size)
  {
    hide UnitBytes, Encode, Decode, CharCount, Readable, LastStart, NulFree;
    var m := CName(v);
    WholeHolds(m);
    TextCount(m, 0, us);
    DecodeText(m, 0, us, size);
    var d := Decode(m, 0, size);
    UnitBytesSnoc(d, 0);
    SameName(d, us);
  }

  lemma SameName(d: seq<Unit>, us: seq<Unit>)
    ensures UnitBytes(d) + [0, 0] == UnitBytes(us) + [0, 0] <==> d == us
  {
    hide UnitBytes;
    if UnitBytes(d) + [0, 0] == UnitBytes(us) + [0, 0] {
      assert UnitBytes(d) == (UnitBytes(d) + [0, 0])[..|UnitBytes(us)|] == UnitBytes(us);
      UnitBytesInjective(d, us);
    }
  }

  /** An export that was given room keeps the whole name if and only if it fits. */
  lemma ExportWhole(v: Variable, us: seq<Unit>, datasz: nat)
    requires Portable(v) && us != [] && NulFree(us) && v.name == Encode(us) && datasz >= Needed(v)
    ensures RawOf(v, datasz - 8) == WholeRaw(v) <==> LastStart(us) < datasz - 8
  {
    hide Encode, LastStart, NameField, ShortestForm, UnitBytes;
    NameFieldText(v, us, datasz - 8);
    NameFieldText(v, us, -1);
  }

  /** Names below U+0800 always do. */
  lemma ShortNamesFit(v: Variable, us: seq<Unit>, datasz: nat)
    requires Portable(v) && us != [] && NulFree(us) && v.name == Encode(us) && datasz >= Needed(v)
    requires forall i :: 0 <= i < |us| ==> us[i] <= 0x7ff
    ensures LastStart(us) < datasz - 8
  {
    hide Encode, NameField, UnitBytes, ShortestForm;
    NameFieldText(v, us, -1);
    TwoByteText(us[..|us| - 1]);
  }

  /** So the exporter's record for such a name is the whole one. */
  lemma ExportedIsWhole(v: Variable, us: seq<Unit>, datasz: nat)
    requires Portable(v) && us != [] && NulFree(us) && v.name == Encode(us) && datasz >= Needed(v)
    requires forall i :: 0 <= i < |us| ==> us[i] <= 0x7ff
    ensures Record(RawOf(v, datasz - 8)) == WholeRecord(v)
  {
    ShortNamesFit(v, us, datasz);
    ExportWhole(v, us, datasz);
    hide Record, RawOf, WholeRaw, Portable, Encode, Needed;
  }

  lemma {:induction false} WideLength(n: nat)
    ensures |Encode(seq(n, _ => 0x800))| == 3 * n
  {
    if n > 0 {
      var us: seq<Unit> := seq(n, _ => 0x800);
      assert us[1..] == seq(n - 1, _ => 0x800);
      WideLength(n - 1);
    }
  }

  /** Thirty three-byte characters and one byte of data: the exporter cuts its own name short. */
  lemma WideNameCut(guid: Guid)
    ensures var us: seq<Unit> := seq(30, _ => 0x800);
      var v := Variable(Encode(us), guid, 0, [1]);
      Portable(v) && RawOf(v, Needed(v) - 8) != WholeRaw(v)
  {
    var us: seq<Unit> := seq(30, _ => 0x800);
    var v := Variable(Encode(us), guid, 0, [1]);
    WideLength(30);
    WideLength(29);
    assert us[..29] == seq(29, _ => 0x800);
    assert LastStart(us) == 87;
    assert NulFree(us);
    EncodedIsShortest(us);
    NameFieldText(v, us, -1);
    hide Encode, ShortestForm, LastStart, NameField, CharCount, Readable, NulFree;
    assert Needed(v) == 95;
    ExportWhole(v, us, 95);
  }

  lemma WholeIsWellFormed(v: Variable, us: seq<Unit>)
    requires Portable(v) && us != [] && NulFree(us) && v.name == Encode(us)
    ensures WholeRaw(v).name == UnitBytes(us) + [0, 0] && WellFormed(WholeRaw(v))
  {
    hide UnitBytes, Encode, ShortestForm, Readable, CharCount, NameField, NulFree;
    NameFieldText(v, us, -1);
    var n := UnitBytes(us) + [0, 0];
    assert n[|n| - 2..] == [0, 0];
  }

  /** Whatever follows it, an exported record is imported as the variable it came from. */
  lemma ImportsBack(v: Variable, b: seq<byte>)
    requires Portable(v) && Holds(b, 0, WholeRecord(v))
    ensures Starts(b, WholeRaw(v))
    ensures Scannable(b, 8, 0, -1) && Encode(Scan(b, 8, 0, -1)) == v.name
  {
    hide UnitBytes, Holds, Body, EfiCrc, Encode, Scan, Scannable, ShortestForm;
    var us := ShortestIsEncoded(v.name);
    EncodeEmpty();
    WholeIsWellFormed(v, us);
    var raw := WholeRaw(v);
    HoldsSplit(b, 0, Body(raw), EfiCrc(Body(raw)));
    BodyFields(b, raw);
    ScanFrom(b, 8, 0, us, -1);
  }

  lemma EncodeEmpty()
    ensures Encode([]) == []
  {
  }

  // ---------- the native record ----------

  const MAGIC := 0xf3df1597

  function Sub64(a: int, b: int): (r: nat) { (a - b) % TWO64 }

  /** The tests efi_variable_import_efivar makes, size_t differences wrapping as they do there. */
  predicate AcceptsNative(b: seq<byte>) {
    && |b| > 51
    && Word(b, 0) == MAGIC && Word(b, 4) == 1
    && 2 <= Word(b, 32) <= Sub64(|b|, Word(b, 36))
    && 1 <= Word(b, 36) <= Sub64(|b|, Word(b, 32))
    && Sealed(b)
  }

  /** What the native importer stores; None for a copy that would read past the buffer. */
  datatype Native = Native(attrs: nat, guid: Guid, name: Option<seq<byte>>, data: Option<seq<byte>>, consumed: nat)

  /** The low byte of each of `n` units. */
  function LowBytes(b: seq<byte>, o: nat, n: nat): (s: seq<byte>)
    requires o + 2 * n <= |b|
    ensures |s| == n
  {
    seq(n, i requires 0 <= i < n => b[o + 2 * i])
  }

  /** The copy of the name takes as many units as the name has bytes, and so reads twice the name field. */
  function NativeAt(b: seq<byte>): (r: Native)
    requires |b| > 51
  {
    var n, d := Word(b, 32), Word(b, 36);
    Native(Get(b[8..16]), b[16..32],
           if 40 + 2 * n <= |b| then Some(LowBytes(b, 40, n)) else None,
           if 40 + n + d <= |b| then Some(b[40 + n..40 + n + d]) else None,
           48 + n + d)
  }

  method CopyLowBytes(b: seq<byte>, o: nat, n: nat) returns (name: Option<seq<byte>>)
    ensures name == if o + 2 * n <= |b| then Some(LowBytes(b, o, n)) else None
  {
    var s: seq<byte> := [];
    for i := 0 to n
      invariant (o + 2 * i <= |b| && s == LowBytes(b, o, i)) || (i == 0 && s == [] && o > |b|)
    {
      if o + 2 * i + 2 > |b| {
        return None;
      }
      s := s + [b[o + 2 * i]];
    }
    if o > |b| {
      return None;
    }
    return Some(s);
  }

  method ImportEfivar(b: seq<byte>) returns (r: Option<Native>)
    ensures r == if AcceptsNative(b) then Some(NativeAt(b)) else None
  {
    hide Sealed, EfiCrc, LowBytes;
    var min := 51;
    if |b| <= min {
      return None;
    }
    var ptr := 0;
    if Word(b, ptr) != MAGIC {
      return None;
    }
    ptr := ptr + 4;
    if Word(b, ptr) != 1 {
      return None;
    }
    ptr := ptr + 4;
    var attrs := Get(b[ptr..ptr + 8]);
    ptr := ptr + 8;
    var guid := b[ptr..ptr + 16];
    ptr := ptr + 16;
    var nameLen := Word(b, ptr);
    ptr := ptr + 4;
    var dataLen := Word(b, ptr);
    ptr := ptr + 4;
    min := min - 3;
    min := min + nameLen;
    min := min + dataLen;
    if nameLen < 2 || nameLen > Sub64(|b|, dataLen) || dataLen < 1 || dataLen > Sub64(|b|, nameLen) {
      return None;
    }
    var crc := EfiCrc32(b[..|b| - 4]);
    SealedPrefix(b, |b|);
    assert b[..|b|] == b;
    if b[|b| - 4..] != crc {
      return None;
    }
    var name := CopyLowBytes(b, ptr, nameLen);
    ptr := ptr + nameLen;
    var data := None;
    if ptr + dataLen <= |b| {
      data := Some(b[ptr..ptr + dataLen]);
    }
    return Some(Native(attrs, guid, name, data, min));
  }

  /** Changing up to four consecutive bytes of an accepted buffer, CRC included, is always noticed. */
  lemma NativeBurst(b: seq<byte>, b': seq<byte>, i: nat, k: nat)
    requires AcceptsNative(b) && BurstApart(b, b', i, k)
    ensures !AcceptsNative(b')
  {
    hide Sealed;
    BurstBreaksSeal(b, b', i, k);
  }

  /** No dmpstore record passes for a native one: its first field is even, the magic is odd. */
  lemma RecordIsNotNative(b: seq<byte>, r: Raw)
    requires Starts(b, r)
    ensures !AcceptsNative(b)
  {
    hide Sealed, RawAt, AcceptsDmpstore, Starts;
    FirstFieldIsEven(b, r);
  }

  lemma FirstFieldIsEven(b: seq<byte>, r: Raw)
    requires Starts(b, r)
    ensures |b| >= 4 && Word(b, 0) % 2 == 0
  {
    hide Sealed, RawAt, Starts, Word;
    StartsAccepted(b, r);
  }

  /** The native layout, of the same fields. */
  function NativeBody(r: Raw): (s: seq<byte>)
    ensures |s| == 40 + |r.name| + |r.data|
  {
    Put(MAGIC, 4) + Put(1, 4) + Put(r.attrs, 8) + r.guid + Put(|r.name|, 4) + Put(|r.data|, 4) + r.name + r.data
  }

  function NativeRecord(r: Raw): (s: seq<byte>)
    ensures |s| == 44 + |r.name| + |r.data|
  {
    NativeBody(r) + EfiCrc(NativeBody(r))
  }

  lemma NativeFields(b: seq<byte>, r: Raw)
    requires Holds(b, 0, NativeBody(r))
    ensures Holds(b, 0, Put(MAGIC, 4)) && Holds(b, 4, Put(1, 4)) && Holds(b, 8, Put(r.attrs, 8)) && Holds(b, 16, r.guid)
    ensures Holds(b, 32, Put(|r.name|, 4)) && Holds(b, 36, Put(|r.data|, 4))
  {
    hide Holds;
    var a1 := Put(MAGIC, 4);
    var a2 := a1 + Put(1, 4);
    var a3 := a2 + Put(r.attrs, 8);
    var a4 := a3 + r.guid;
    var a5 := a4 + Put(|r.name|, 4);
    var a6 := a5 + Put(|r.data|, 4);
    HoldsSplit(b, 0, a6 + r.name, r.data);
    HoldsSplit(b, 0, a6, r.name);
    HoldsSplit(b, 0, a5, Put(|r.data|, 4));
    HoldsSplit(b, 0, a4, Put(|r.name|, 4));
    HoldsSplit(b, 0, a3, r.guid);
    HoldsSplit(b, 0, a2, Put(r.attrs, 8));
    HoldsSplit(b, 0, a1, Put(1, 4));
  }

  lemma NativeFacts(r: Raw)
    requires |NativeRecord(r)| < TWO32
    ensures var b := NativeRecord(r);
            Word(b, 0) == MAGIC && Word(b, 4) == 1 && Word(b, 32) == |r.name| && Word(b, 36) == |r.data|
    ensures Sealed(NativeRecord(r))
  {
    hide Holds, EfiCrc, Sealed, NativeBody, Word;
    var b, body := NativeRecord(r), NativeBody(r);
    WholeHolds(b);
    HoldsSplit(b, 0, body, EfiCrc(body));
    NativeFields(b, r);
    WordHolds(b, 0, MAGIC);
    WordHolds(b, 4, 1);
    WordHolds(b, 32, |r.name|);
    WordHolds(b, 36, |r.data|);
    SealedSplit(b, body);
  }

  /** An exported native record is accepted exactly when it is longer than 51 bytes: the importer's minimum
      counts the magic twice. */
  lemma NativeAcceptedIff(r: Raw)
    requires 2 <= |r.name| && 1 <= |r.data| && |NativeRecord(r)| < TWO32
    ensures AcceptsNative(NativeRecord(r)) <==> |NativeRecord(r)| > 51
  {
    hide Sealed, NativeRecord, Word;
    NativeFacts(r);
  }

  /** And its reported length is four more than the record, so it is not the offset of the next one. */
  lemma NativeLengthIsOff(r: Raw)
    requires |NativeRecord(r)| > 51 && |NativeRecord(r)| < TWO32
    ensures NativeAt(NativeRecord(r)).consumed == |NativeRecord(r)| + 4
  {
    hide NativeBody, EfiCrc, Sealed, LowBytes;
    NativeFacts(r);
    hide NativeRecord;
  }

  lemma NativeHeld(r: Raw)
    ensures var b := NativeRecord(r); Holds(b, 40, r.name) && Holds(b, 40 + |r.name|, r.data)
  {
    var b, body := NativeRecord(r), NativeBody(r);
    var head := Put(MAGIC, 4) + Put(1, 4) + Put(r.attrs, 8) + r.guid + Put(|r.name|, 4) + Put(|r.data|, 4);
    assert body == head + r.name + r.data && |head| == 40;
    WholeHolds(b);
    hide NativeRecord, NativeBody, Holds, EfiCrc, Put;
    NativeRecordIs(r);
    HoldsSplit(b, 0, body, EfiCrc(body));
    HoldsSplit(b, 0, head + r.name, r.data);
    HoldsSplit(b, 0, head, r.name);
  }

  lemma NativeHeader(r: Raw)
    ensures var b := NativeRecord(r); Get(b[8..16]) == r.attrs % TWO64 && b[16..32] == r.guid
  {
    var b := NativeRecord(r);
    WholeHolds(b);
    hide NativeBody, EfiCrc, Put, Get;
    HoldsSplit(b, 0, NativeBody(r), EfiCrc(NativeBody(r)));
    NativeFields(b, r);
    hide NativeRecord;
    GetPutModulo(r.attrs, 8);
    Widths();
  }

  /** Attributes, GUID and data of an exported record come back; the copy of its name stays inside the record if
      and only if the name field is at most four bytes longer than the data. */
  lemma NativeImportsData(r: Raw)
    requires 51 < |NativeRecord(r)| < TWO32
    ensures var n := NativeAt(NativeRecord(r));
      && n.attrs == r.attrs % TWO64 && n.guid == r.guid && n.data == Some(r.data)
      && (n.name.Some? <==> |r.name| <= |r.data| + 4)
  {
    NativeFacts(r);
    NativeHeld(r);
    NativeHeader(r);
    hide NativeRecord, EfiCrc, LowBytes, Get;
    assert |NativeRecord(r)| == 44 + |r.name| + |r.data|;
  }

  /** The bytes of a C string before its NUL. */
  function CString(s: seq<byte>): (t: seq<byte>) {
    if s == [] || s[0] == 0 then [] else [s[0]] + CString(s[1..])
  }

  /** The low bytes of a name, up to the first that is zero. */
  function LowText(us: seq<Unit>): (t: seq<byte>) {
    if us == [] || us[0] % 256 == 0 then [] else [us[0] % 256] + LowText(us[1..])
  }

  lemma {:induction false} CStringIs(s: seq<byte>, us: seq<Unit>)
    requires |us| < |s| && s[|us|] == 0 && forall i :: 0 <= i < |us| ==> s[i] == us[i] % 256
    ensures CString(s) == LowText(us)
    decreases |us|
  {
    if us != [] {
      CStringIs(s[1..], us[1..]);
    }
  }

  lemma {:induction false} LowTextShorter(us: seq<Unit>)
    ensures |LowText(us)| <= |us|
  {
    if us != [] {
      LowTextShorter(us[1..]);
    }
  }

  lemma {:induction false} EncodeLonger(us: seq<Unit>)
    ensures |us| <= |Encode(us)|
    ensures |Encode(us)| == |us| ==> forall i :: 0 <= i < |us| ==> us[i] <= 0x7f
  {
    if us != [] {
      EncodeLonger(us[1..]);
      assert |EncodeUnit(us[0])| >= 1 && (|EncodeUnit(us[0])| == 1 ==> us[0] <= 0x7f);
      assert forall i :: 0 < i < |us| ==> us[i] == us[1..][i - 1];
    }
  }

  lemma {:induction false} SingleBytes(us: seq<Unit>)
    requires forall i :: 0 <= i < |us| ==> 0 < us[i] <= 0x7f
    ensures LowText(us) == Encode(us)
  {
    if us != [] {
      SingleBytes(us[1..]);
    }
  }

  /** The low bytes are the UTF-8 text exactly for names of single-byte characters. */
  lemma LowTextIff(us: seq<Unit>)
    requires NulFree(us)
    ensures LowText(us) == Encode(us) <==> forall i :: 0 <= i < |us| ==> us[i] <= 0x7f
  {
    LowTextShorter(us);
    EncodeLonger(us);
    if forall i :: 0 <= i < |us| ==> us[i] <= 0x7f {
      SingleBytes(us);
    }
  }

  lemma {:induction false} UnitLow(us: seq<Unit>, i: nat)
    requires i < |us|
    ensures UnitBytes(us)[2 * i] == us[i] % 256
  {
    if i > 0 {
      UnitLow(us[1..], i - 1);
    }
  }

  lemma HeldAt(b: seq<byte>, o: nat, s: seq<byte>, k: nat)
    requires Holds(b, o, s) && k < |s|
    ensures o + k < |b| && b[o + k] == s[k]
  {
    assert b[o..o + |s|][k] == b[o + k];
  }

  lemma {:induction false} LowByteAt(b: seq<byte>, o: nat, us: seq<Unit>, i: nat)
    requires i <= |us| && Holds(b, o, UnitBytes(us) + [0, 0])
    ensures o + 2 * i < |b| && b[o + 2 * i] == if i < |us| then us[i] % 256 else 0
  {
    hide Holds, UnitBytes;
    var text := UnitBytes(us);
    HeldAt(b, o, text + [0, 0], 2 * i);
    if i < |us| {
      UnitLow(us, i);
      assert (text + [0, 0])[2 * i] == text[2 * i];
    } else {
      assert (text + [0, 0])[2 * i] == 0;
    }
  }

  lemma LowBytesName(b: seq<byte>, o: nat, us: seq<Unit>)
    requires o + 4 * |us| + 4 <= |b| && Holds(b, o, UnitBytes(us) + [0, 0])
    ensures CString(LowBytes(b, o, 2 * |us| + 2)) == LowText(us)
  {
    hide Holds, UnitBytes;
    var s := LowBytes(b, o, 2 * |us| + 2);
    forall i | 0 <= i <= |us| ensures s[i] == if i < |us| then us[i] % 256 else 0 {
      LowByteAt(b, o, us, i);
    }
    hide LowBytes;
    CStringIs(s, us);
  }

  /** When its copy stays inside the record, a name comes back as its low bytes up to the first zero, and so as it
      was if and only if all its characters are single bytes. */
  lemma NativeImportsName(r: Raw, us: seq<Unit>)
    requires 51 < |NativeRecord(r)| < TWO32 && |r.name| <= |r.data| + 4
    requires r.name == UnitBytes(us) + [0, 0] && NulFree(us)
    ensures var n := NativeAt(NativeRecord(r));
      && n.name.Some? && CString(n.name.value) == LowText(us)
      && (CString(n.name.value) == Encode(us) <==> forall i :: 0 <= i < |us| ==> us[i] <= 0x7f)
  {
    hide NativeBody, EfiCrc, Sealed, LowBytes, CString, UnitBytes, Holds, Word, LowText, Encode;
    var b := NativeRecord(r);
    NativeFacts(r);
    NativeHeld(r);
    hide NativeRecord;
    LowBytesName(b, 40, us);
    LowTextIff(us);
  }

  /** The name "A" with one byte of data: 49 bytes, which the importer takes for too short. */
  lemma ShortNativeRejected(guid: Guid, attrs: nat)
    ensures var r := Raw([65, 0, 0, 0], guid, attrs, [1]); |NativeRecord(r)| == 49 && !AcceptsNative(NativeRecord(r))
  {
    hide Sealed, EfiCrc, NativeBody;
  }

  /** The same name with four bytes of data: 52 bytes, accepted, and reported as 56. */
  lemma LengthOffExample(guid: Guid, attrs: nat)
    ensures var r := Raw([65, 0, 0, 0], guid, attrs, [1, 2, 3, 4]);
      |NativeRecord(r)| == 52 && AcceptsNative(NativeRecord(r)) && NativeAt(NativeRecord(r)).consumed == 56
  {
    var r := Raw([65, 0, 0, 0], guid, attrs, [1, 2, 3, 4]);
    assert |NativeRecord(r)| == 52;
    hide *;
    NativeAcceptedIff(r);
    NativeLengthIsOff(r);
  }

  /** Three letters with one byte of data: accepted, and the copy of the name leaves the record. */
  lemma NameLeavesRecord(guid: Guid, attrs: nat)
    ensures var r := Raw([65, 0, 66, 0, 67, 0, 0, 0], guid, attrs, [1]);
      AcceptsNative(NativeRecord(r)) && NativeAt(NativeRecord(r)).name.None?
  {
    var r := Raw([65, 0, 66, 0, 67, 0, 0, 0], guid, attrs, [1]);
    assert |NativeRecord(r)| == 53;
    hide *;
    NativeAcceptedIff(r);
    NativeImportsData(r);
  }

  /** The letter U+0141: its low byte is that of "A". */
  lemma NameChanged(guid: Guid, attrs: nat)
    ensures var r := Raw([0x41, 1, 0, 0], guid, attrs, [1, 2, 3, 4]);
      && AcceptsNative(NativeRecord(r))
      && var n := NativeAt(NativeRecord(r));
      n.name.Some? && CString(n.name.value) == [0x41] != Encode([0x141])
  {
    hide *;
    var name: seq<byte>, us: seq<Unit> := [0x41, 1, 0, 0], [0x141];
    var r := Raw(name, guid, attrs, [1, 2, 3, 4]);
    OneLetter();
    NativeAcceptedIff(r);
    NativeImportsName(r, us);
  }

  lemma OneLetter()
    ensures var us: seq<Unit> := [0x141];
      UnitBytes(us) + [0, 0] == [0x41, 1, 0, 0] && LowText(us) == [0x41] && |Encode(us)| == 2 && NulFree(us) && TWO32 > 100
  {
    var us: seq<Unit> := [0x141];
    assert us[1..] == [];
    assert Encode(us) == EncodeUnit(us[0]) + Encode(us[1..]);
  }

  lemma {:induction false} LettersCount(n: nat, k: nat)
    requires k <= n
    ensures var m := seq(n, _ => 65) + [0]; Readable(m, k, -1) && CharCount(m, k, -1) == n - k
    decreases n - k
  {
    if k < n {
      LettersCount(n, k + 1);
    }
  }

  /** A name of 2^32 - 1 letters: the exporter asks for 33 bytes, and needs more than 8 GiB. */
  lemma LongNameAsked(guid: Guid)
    ensures var v := Variable(seq(TWO32 - 1, _ => 65), guid, 0, [1]);
      Readable(CName(v), 0, -1) && Long(v) && Asked(v) == 33 && Needed(v) > 2 * TWO32
  {
    LettersCount(TWO32 - 1, 0);
    hide Readable, CharCount;
  }

  /** efi_variable_export; the size it gives the decoder counts 32 bytes that lie before the name. */
  method ExportNative(v: Variable, buf: array<byte>, datasz: nat) returns (r: int, overran: bool)
    requires Readable(CName(v), 0, -1)
    requires datasz <= buf.Length
    modifies buf
    ensures Asked(v) + 12 >= TWO32 ==> r == -1 && !overran && buf[..] == old(buf[..])
    ensures Asked(v) + 12 < TWO32 && datasz == 0 ==> r == Asked(v) + 12 && !overran && buf[..] == old(buf[..])
    ensures Asked(v) + 12 < TWO32 && 0 < datasz < Asked(v) + 12 ==>
              r == Asked(v) + 12 - datasz && !overran && buf[..] == old(buf[..])
    ensures Asked(v) + 12 < TWO32 && Asked(v) + 12 <= datasz ==>
              var rec := NativeRecord(Narrowed(v, NameField(v, datasz - 8)));
              Stores(v, datasz, Patch(old(buf[..]), 0, NativeHead(v)), 40, rec, Asked(v) + 12, r, overran, buf[..])
    ensures Asked(v) + 12 < TWO32 && Asked(v) + 12 <= datasz && !Long(v) ==>
              var rec := NativeRecord(RawOf(v, datasz - 8));
              !overran && r == |rec| <= Needed(v) + 12 && buf[..] == Patch(old(buf[..]), 0, rec)
  {
    hide Converted, Decode, Readable, CharCount, EfiCrc, Patch, NativeRecord, U32, NameField, Stores, Narrowed, NativeHead;
    ghost var was := buf[..];
    var n := Utf8Size(CName(v), -1);
    var namesz := U32(n);
    namesz := 2 * namesz;
    if namesz >= TWO32 {
      return -1, false;
    }
    var needed := 44;
    needed := needed + namesz;
    if needed >= TWO32 {
      return -1, false;
    }
    needed := needed + |v.data|;
    if needed >= TWO32 {
      return -1, false;
    }
    if datasz == 0 {
      return needed, false;
    }
    if datasz < needed {
      return needed - datasz, false;
    }
    StoreHead(v, buf, was);
    r, overran := StoreNamed(v, namesz, needed, buf, datasz, was);
    if !Long(v) {
      ShortName(v, datasz);
      ghost var raw := RawOf(v, datasz - 8);
      ShortStores(v, datasz, Patch(was, 0, NativeHead(v)), 40, NativeRecord(raw), needed, r, overran, buf[..]);
      PatchOver(was, 0, NativeHead(v), NativeRecord(raw));
    }
  }

  /** The conversion of the name behind the head, and the rest of the record around it. */
  method StoreNamed(v: Variable, namesz: nat, needed: nat, buf: array<byte>, datasz: nat, ghost was: seq<byte>)
    returns (r: int, overran: bool)
    requires Readable(CName(v), 0, -1) && needed == Asked(v) + 12 == 44 + namesz + |v.data| <= datasz <= buf.Length
    requires |was| == buf.Length && buf[..] == Patch(was, 0, NativeHead(v))
    modifies buf
    ensures var rec := NativeRecord(Narrowed(v, NameField(v, datasz - 8)));
      Stores(v, datasz, Patch(was, 0, NativeHead(v)), 40, rec, needed, r, overran, buf[..])
  {
    hide Decode, Readable, CharCount, EfiCrc, Patch, NativeRecord, U32, Narrowed, Asked, NativeHead;
    ghost var headed, s := buf[..], NameField(v, datasz - 8);
    var units;
    units, overran := Utf8ToUcs2(buf, 40, datasz - 8, true, CName(v));
    if overran {
      return -1, true;
    }
    if units < 0 {
      return -1, false;
    }
    PatchEmpty(headed, 40);
    ghost var named := buf[..];
    assert named == Patch(headed, 40, s) && 2 * units == |s|;
    var size := U32(2 * U32(units));
    NarrowTwice(units);
    NarrowedIs(v, s);
    ghost var raw := Narrowed(v, s);
    if namesz < size {
      return -1, false;
    }
    var slack := namesz - size;
    HeadAgain(was, NativeHead(v), 40, s, size);
    StoreNative(v, namesz - slack, needed - slack, buf, named, raw);
    return needed - slack, false;
  }

  /** What is stored already may be stored again. */
  lemma HeadAgain(was: seq<byte>, head: seq<byte>, at: nat, s: seq<byte>, n: nat)
    requires |head| <= at && at + |s| <= |was| && n <= |s|
    ensures var named := Patch(Patch(was, 0, head), at, s);
      Patch(Patch(named, 0, head), at, s[..n]) == named
  {
  }

  /** The fields before the two lengths. */
  function NativeHead(v: Variable): (s: seq<byte>)
    ensures |s| == 32
  {
    Put(MAGIC, 4) + Put(1, 4) + Put(v.attrs, 8) + v.guid
  }

  method StoreHead(v: Variable, buf: array<byte>, ghost was: seq<byte>)
    requires buf.Length >= 32 && buf[..] == was
    modifies buf
    ensures buf[..] == Patch(was, 0, NativeHead(v))
  {
    hide Patch, Put;
    ghost var a1 := Put(MAGIC, 4);
    ghost var a2 := a1 + Put(1, 4);
    PatchPatch(was, 0, a1, Put(1, 4));
    PatchPatch(was, 0, a2, Put(v.attrs, 8));
    PatchPatch(was, 0, a2 + Put(v.attrs, 8), v.guid);
    Store(buf, 0, Put(MAGIC, 4));
    Store(buf, 4, Put(1, 4));
    Store(buf, 8, Put(v.attrs, 8));
    Store(buf, 16, v.guid);
  }

  method StoreNative(v: Variable, namesz: nat, needed: nat, buf: array<byte>, ghost was: seq<byte>, ghost raw: Raw)
    requires raw == Raw(raw.name, v.guid, v.attrs, v.data) && namesz == |raw.name|
    requires needed == |NativeRecord(raw)| <= buf.Length == |was|
    requires buf[..] == Patch(Patch(was, 0, NativeHead(v)), 40, raw.name)
    modifies buf
    ensures buf[..] == Patch(was, 0, NativeRecord(raw))
  {
    hide Patch, EfiCrc, NativeHead, NativeBody, NativeRecord, Put;
    NativeBodyStored(was, v, raw);
    var ptr := 32;
    Store(buf, ptr, Put(namesz, 4));
    ptr := ptr + 4;
    Store(buf, ptr, Put(|v.data|, 4));
    ptr := ptr + 4;
    ptr := ptr + namesz;
    Store(buf, ptr, v.data);
    ptr := ptr + |v.data|;
    PatchHolds(was, 0, NativeBody(raw));
    var crc := EfiCrc32(buf[..needed - 4]);
    PatchPatch(was, 0, NativeBody(raw), crc);
    Store(buf, ptr, crc);
    NativeRecordIs(raw);
  }

  lemma NativeRecordIs(r: Raw)
    ensures NativeRecord(r) == NativeBody(r) + EfiCrc(NativeBody(r))
  {
  }

  lemma NativeBodyIs(v: Variable, r: Raw)
    requires r == Raw(r.name, v.guid, v.attrs, v.data)
    ensures NativeBody(r) == NativeHead(v) + (Put(|r.name|, 4) + Put(|r.data|, 4) + r.name + r.data)
  {
  }

  lemma NativeBodyStored(was: seq<byte>, v: Variable, r: Raw)
    requires r == Raw(r.name, v.guid, v.attrs, v.data) && |NativeBody(r)| <= |was|
    ensures var n := |r.name|;
            var b1 := Patch(Patch(was, 0, NativeHead(v)), 40, r.name);
            Patch(Patch(Patch(b1, 32, Put(n, 4)), 36, Put(|r.data|, 4)), 40 + n, r.data) == Patch(was, 0, NativeBody(r))
  {
    hide Patch, NativeHead, NativeBody, Put;
    var n, h := |r.name|, NativeHead(v);
    var b0 := Patch(was, 0, h);
    var l := Put(n, 4) + Put(|r.data|, 4);
    PatchPatch(Patch(b0, 40, r.name), 32, Put(n, 4), Put(|r.data|, 4));
    PatchBefore(b0, 32, l, r.name);
    PatchPatch(b0, 32, l + r.name, r.data);
    PatchPatch(was, 0, h, l + r.name + r.data);
    NativeBodyIs(v, r);
  }

  datatype Result = FromNative(native: Native) | FromDmpstore(imported: Imported) | Rejected

  /** efi_variable_import: native first, dmpstore otherwise. */
  method Import(b: seq<byte>, preset: bool) returns (r: Result)
    ensures r.FromNative? <==> AcceptsNative(b)
    ensures r.FromNative? ==> r.native == NativeAt(b)
    ensures r.FromDmpstore? <==> !AcceptsNative(b) && !preset && exists raw :: Starts(b, raw)
    ensures r.FromDmpstore? ==>
              && Starts(b, r.imported.raw)
              && r.imported.consumed == |Record(r.imported.raw)|
              && Scannable(b, 8, 0, -1)
              && r.imported.variable == Variable(Encode(Scan(b, 8, 0, -1)), r.imported.raw.guid,
                                                 r.imported.raw.attrs, r.imported.raw.data)
  {
    hide *;
    var n := ImportEfivar(b);
    if n.Some? {
      return FromNative(n.value);
    }
    var d := ImportDmpstore(b, preset);
    if d.Some? {
      return FromDmpstore(d.value);
    }
    return Rejected;
  }

  function WholeRecords(vs: seq<Variable>): (s: seq<byte>)
    requires forall i :: 0 <= i < |vs| ==> Portable(vs[i])
  {
    if vs == [] then [] else WholeRecord(vs[0]) + WholeRecords(vs[1..])
  }

  /** The loop the manual page describes: each return value is the offset of the next record. */
  method ImportAll(b: seq<byte>, ghost vs: seq<Variable>) returns (out: seq<Variable>)
    requires forall i :: 0 <= i < |vs| ==> Portable(vs[i])
    requires b == WholeRecords(vs)
    ensures out == vs
  {
    hide AcceptsNative, Starts, Scan, Scannable, Encode, WholeRaw, Portable, Record;
    out := [];
    var off := 0;
    ghost var k := 0;
    assert vs[0..] == vs && b[0..] == b;
    while off < |b|
      invariant 0 <= off <= |b| && k == |out| <= |vs| && out == vs[..k]
      invariant b[off..] == WholeRecords(vs[k..])
      decreases |b| - off
    {
      var rest := b[off..];
      var r := Import(rest, false);
      NextRecord(vs, k, rest);
      ImportsBack(vs[k], rest);
      RecordIsNotNative(rest, WholeRaw(vs[k]));
      assert r.FromDmpstore?;
      RecordUnique(rest, r.imported.raw, WholeRaw(vs[k]));
      out := out + [r.imported.variable];
      off := off + r.imported.consumed;
      k := k + 1;
    }
  }

  lemma NextRecord(vs: seq<Variable>, k: nat, rest: seq<byte>)
    requires forall i :: 0 <= i < |vs| ==> Portable(vs[i])
    requires k <= |vs| && rest == WholeRecords(vs[k..]) && rest != []
    ensures k < |vs| && Holds(rest, 0, WholeRecord(vs[k]))
    ensures rest[|WholeRecord(vs[k])|..] == WholeRecords(vs[k + 1..])
  {
    hide WholeRecord, Portable;
    assert vs[k..] != [] && vs[k..][1..] == vs[k + 1..];
    assert rest == WholeRecord(vs[k]) + WholeRecords(vs[k + 1..]);
  }
}
