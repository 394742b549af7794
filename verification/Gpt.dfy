/**
  GPT validation (gpt.c; section 5.3.2 of the UEFI Specification 2.8) over an abstract disk.
 */
module Gpt {
  import opened Bytes
  import opened Crc32

  // ---------- the table fits ----------

  datatype Fit = Fits | Rejected | DividesByZero

  /** (2^64 - 1) / b < k, without dividing. */
  lemma QuotientBelow(m: nat, b: nat, k: nat)
    requires b > 0
    ensures m / b < k <==> m < b * k
  {
    var q, r := m / b, m % b;
    assert m == b * q + r && 0 <= r < b;
    if q < k {
      Times(b, q + 1, k);
      assert b * (q + 1) == b * q + b;
    } else {
      Times(b, k, q);
    }
  }

  lemma Times(b: nat, x: nat, y: nat)
    requires x <= y
    ensures b * x <= b * y
  {
  }

  /** The exact condition under which a table of `nptes` entries from `start` is taken to end by `last`. */
  predicate TableFits(first: u64, start: u64, last: u64, ptesz: u32, nptes: u32, blksz: u32) {
    && ptesz >= 128
    && first <= start <= last
    && (last - start) * blksz < TWO64
    && (last - start) * blksz * ptesz < TWO64
    && nptes * ptesz <= (last - start) * blksz
  }

  /** validate_nptes, with every product below 2^64. */
  method ValidateNptes(first: u64, start: u64, last: u64, ptesz: u32, nptes: u32, blksz: u32) returns (r: Fit)
    requires blksz > 0
    ensures r == Fits <==> nptes > 0 && TableFits(first, start, last, ptesz, nptes, blksz)
    ensures r == DividesByZero <==> nptes == 0 && TableFits(first, start, last, ptesz, nptes, blksz)
  {
    if ptesz < 128 {
      return Rejected;
    }
    if start < first || start > last {
      return Rejected;
    }
    var maxBlocks: u64 := last - start;
    QuotientBelow(TWO64 - 1, blksz, maxBlocks);
    Swap(blksz, maxBlocks);
    if (TWO64 - 1) / blksz < maxBlocks {
      return Rejected;
    }
    var maxBytes: u64 := maxBlocks * blksz;
    QuotientBelow(TWO64 - 1, ptesz, maxBytes);
    Swap(ptesz, maxBytes);
    if (TWO64 - 1) / ptesz < maxBytes {
      return Rejected;
    }
    if nptes == 0 {
      return DividesByZero;
    }
    QuotientBelow(maxBytes, nptes, ptesz);
    QuotientBelow(maxBytes, ptesz, nptes);
    Swap(ptesz, nptes);
    if ptesz > maxBytes / nptes {
      return Rejected;
    }
    if maxBytes / ptesz < nptes {
      return Rejected;
    }
    return Fits;
  }

  lemma Swap(a: nat, b: nat)
    ensures a * b == b * a
  {
  }

  // ---------- one copy ----------

  /** Reads of whole structures; None when nothing could be read. */
  datatype Disk = Disk(lastLba: u64, read: (nat, nat) -> Option<seq<byte>>)

  function Read(d: Disk, lba: nat, n: nat): (r: Option<seq<byte>>)
    ensures r.Some? ==> |r.value| == n
  {
    var r := d.read(lba, n);
    if r.Some? && |r.value| == n then r else None
  }

  const HEADER := 512

  function Long(h: seq<byte>, off: nat): (n: u64)
    requires off + 8 <= |h|
  {
    Widths();
    PutGet(h[off..off + 8]);
    Get(h[off..off + 8])
  }

  type Header = h: seq<byte> | |h| == HEADER witness seq(HEADER, i => 0)

  function Magic(h: Header): (n: u64) { Long(h, 0) }
  function HeaderSize(h: Header): (n: u32) { Word(h, 12) }
  function MyLba(h: Header): (n: u64) { Long(h, 24) }
  function AlternateLba(h: Header): (n: u64) { Long(h, 32) }
  function FirstUsable(h: Header): (n: u64) { Long(h, 40) }
  function LastUsable(h: Header): (n: u64) { Long(h, 48) }
  function EntriesLba(h: Header): (n: u64) { Long(h, 72) }
  function EntryCount(h: Header): (n: u32) { Word(h, 80) }
  function EntrySize(h: Header): (n: u32) { Word(h, 84) }

  const MAGIC := 0x5452415020494645

  /** The CRC over the first `header_size` bytes with its own field zeroed. */
  predicate HeaderSealed(h: Header) {
    HeaderSize(h) <= HEADER && EfiCrc(Patch(h, 16, [0, 0, 0, 0])[..HeaderSize(h)]) == h[16..20]
  }

  /** The tests on single fields. */
  predicate FieldsSound(h: Header, lba: nat, last: u64, blksz: u32) {
    && Magic(h) == MAGIC
    && 92 <= HeaderSize(h) <= blksz
    && HeaderSealed(h)
    && (MyLba(h) == lba || AlternateLba(h) == lba)
    && MyLba(h) <= last && AlternateLba(h) <= last
    && EntriesLba(h) <= last && FirstUsable(h) <= last && LastUsable(h) <= last
    && EntrySize(h) >= 128 && EntrySize(h) % 128 == 0
    && EntryCount(h) <= 1024 && EntrySize(h) <= 4096
  }

  /** The region a copy's table is checked against: after the header for the primary, before it for the other. */
  function RegionFirst(h: Header): (n: nat) { if AlternateLba(h) > MyLba(h) then MyLba(h) + 1 else LastUsable(h) }
  function RegionLast(h: Header): (n: u64) { if AlternateLba(h) > MyLba(h) then FirstUsable(h) else MyLba(h) }

  predicate RegionHolds(h: Header, blksz: u32) {
    RegionFirst(h) < TWO64
    && TableFits(RegionFirst(h), EntriesLba(h), RegionLast(h), EntrySize(h), EntryCount(h), blksz)
  }

  function Product(a: nat, b: nat): (n: nat) { a * b }

  /** The size of the entry array; below 2^32 for the counts and sizes accepted. */
  function TableBytes(h: Header): (n: nat) { Product(EntryCount(h), EntrySize(h)) }

  predicate EntriesSealed(h: Header, ptes: seq<byte>) { EfiCrc(ptes) == h[88..92] }

  /** A header and its table as one copy at `lba` has them. */
  predicate ValidCopy(d: Disk, lba: nat, blksz: u32, h: Header, ptes: seq<byte>) {
    && Read(d, lba, HEADER) == Some(h)
    && FieldsSound(h, lba, d.lastLba, blksz)
    && EntryCount(h) > 0 && RegionHolds(h, blksz)
    && Read(d, EntriesLba(h), TableBytes(h)) == Some(ptes)
    && EntriesSealed(h, ptes)
  }

  /** What is_gpt_valid makes of the header at `lba`. */
  datatype Status = Ok | No | Fault | Overread

  /** The size field is acceptable but larger than the buffer the header was read into. */
  predicate Oversized(h: Header, blksz: u32) {
    Magic(h) == MAGIC && HEADER < HeaderSize(h) <= blksz
  }

  /** A sound header without entries, whose table would fit: the code divides by its entry count. */
  predicate Empty(h: Header, lba: nat, last: u64, blksz: u32) {
    FieldsSound(h, lba, last, blksz) && EntryCount(h) == 0 && RegionHolds(h, blksz)
  }

  ghost predicate Present(d: Disk, lba: nat, blksz: u32) {
    exists h, ptes :: ValidCopy(d, lba, blksz, h, ptes)
  }

  ghost function StatusAt(d: Disk, lba: nat, blksz: u32): (s: Status) {
    var r := Read(d, lba, HEADER);
    if r.None? then No
    else if Oversized(r.value, blksz) then Overread
    else if Empty(r.value, lba, d.lastLba, blksz) then Fault
    else if Present(d, lba, blksz) then Ok
    else No
  }

  datatype Check = Good(header: Header, ptes: seq<byte>) | Bad | Faults | Overreads

  /** The first part of is_gpt_valid, up to the bounds on the entries. */
  method CheckFields(h: Header, lba: nat, last: u64, blksz: u32) returns (ok: bool, oversized: bool)
    ensures oversized == Oversized(h, blksz)
    ensures ok == FieldsSound(h, lba, last, blksz) && !(ok && oversized)
  {
    hide EfiCrc, Magic, HeaderSize, MyLba, AlternateLba, FirstUsable, LastUsable, EntriesLba, EntryCount, EntrySize;
    if Magic(h) != MAGIC {
      return false, false;
    }
    var hdrsz := HeaderSize(h);
    if hdrsz < 92 || hdrsz > blksz {
      return false, false;
    }
    if hdrsz > HEADER {
      return false, true;
    }
    var crc := EfiCrc32(Patch(h, 16, [0, 0, 0, 0])[..hdrsz]);
    if crc != h[16..20] {
      return false, false;
    }
    var my, alt := MyLba(h), AlternateLba(h);
    if my != lba && alt != lba {
      return false, false;
    }
    if my > last || alt > last {
      return false, false;
    }
    if EntriesLba(h) > last || FirstUsable(h) > last || LastUsable(h) > last {
      return false, false;
    }
    if EntrySize(h) < 128 || EntrySize(h) % 128 != 0 {
      return false, false;
    }
    return EntryCount(h) <= 1024 && EntrySize(h) <= 4096, false;
  }

  /** The choice of the region and the call of validate_nptes. */
  method CheckRegion(h: Header, last: u64, blksz: u32) returns (fit: Fit)
    requires blksz > 0 && MyLba(h) <= last && AlternateLba(h) <= last
    ensures fit == Fits <==> EntryCount(h) > 0 && RegionHolds(h, blksz)
    ensures fit == DividesByZero <==> EntryCount(h) == 0 && RegionHolds(h, blksz)
  {
    hide TableFits, MyLba, AlternateLba, FirstUsable, LastUsable, EntriesLba, EntryCount, EntrySize;
    if AlternateLba(h) > MyLba(h) {
      fit := ValidateNptes(MyLba(h) + 1, EntriesLba(h), FirstUsable(h), EntrySize(h), EntryCount(h), blksz);
    } else {
      fit := ValidateNptes(LastUsable(h), EntriesLba(h), MyLba(h), EntrySize(h), EntryCount(h), blksz);
    }
  }

  /** is_gpt_valid: exactly when it hands out a copy, divides by zero, or reads past the header. */
  method IsGptValid(d: Disk, lba: nat, blksz: u32) returns (r: Check)
    ensures r.Good? <==> StatusAt(d, lba, blksz) == Ok
    ensures r.Bad? <==> StatusAt(d, lba, blksz) == No
    ensures r.Faults? <==> StatusAt(d, lba, blksz) == Fault
    ensures r.Overreads? <==> StatusAt(d, lba, blksz) == Overread
    ensures r.Good? ==> ValidCopy(d, lba, blksz, r.header, r.ptes)
  {
    hide EfiCrc, RegionHolds, Read, FieldsSound, Oversized, MyLba, AlternateLba, EntriesLba, EntryCount, EntrySize,
      TableBytes, Present;
    var read := Read(d, lba, HEADER);
    if read.None? {
      return Bad;
    }
    var h: Header := read.value;
    var ok, oversized := CheckFields(h, lba, d.lastLba, blksz);
    if oversized {
      return Overreads;
    }
    if !ok {
      NotPresent(d, lba, blksz, h);
      return Bad;
    }
    LbasInside(h, lba, d.lastLba, blksz);
    var fit := CheckRegion(h, d.lastLba, blksz);
    if fit == DividesByZero {
      return Faults;
    }
    if fit == Rejected {
      NotPresent(d, lba, blksz, h);
      return Bad;
    }
    var entries := Read(d, EntriesLba(h), TableBytes(h));
    if entries.None? {
      NotPresent(d, lba, blksz, h);
      return Bad;
    }
    var crc := EfiCrc32(entries.value);
    if crc != h[88..92] {
      NotPresent(d, lba, blksz, h);
      return Bad;
    }
    PresentBy(d, lba, blksz, h, entries.value);
    return Good(h, entries.value);
  }

  lemma LbasInside(h: Header, lba: nat, last: u64, blksz: u32)
    requires FieldsSound(h, lba, last, blksz)
    ensures blksz > 0 && MyLba(h) <= last && AlternateLba(h) <= last
  {
    hide HeaderSealed, Magic, HeaderSize, MyLba, AlternateLba, EntriesLba, EntryCount, EntrySize, FirstUsable, LastUsable;
  }

  /** There is one header at an address, so one failed test rules out every copy. */
  lemma NotPresent(d: Disk, lba: nat, blksz: u32, h: Header)
    requires Read(d, lba, HEADER) == Some(h)
    requires FieldsSound(h, lba, d.lastLba, blksz) && EntryCount(h) > 0 && RegionHolds(h, blksz) ==>
      var e := Read(d, EntriesLba(h), TableBytes(h)); e.None? || !EntriesSealed(h, e.value)
    ensures !Present(d, lba, blksz)
  {
    hide FieldsSound, RegionHolds, Read, EntriesSealed, EntriesLba, EntryCount, TableBytes;
  }

  lemma PresentBy(d: Disk, lba: nat, blksz: u32, h: Header, ptes: seq<byte>)
    requires ValidCopy(d, lba, blksz, h, ptes)
    ensures Present(d, lba, blksz)
  {
    hide ValidCopy;
  }

  /** The table of a valid copy lies inside the region reserved for it and inside the device. */
  lemma CopyInBounds(d: Disk, lba: nat, blksz: u32, h: Header, ptes: seq<byte>)
    requires ValidCopy(d, lba, blksz, h, ptes)
    ensures |ptes| == EntryCount(h) * EntrySize(h)
    ensures RegionFirst(h) * blksz <= EntriesLba(h) * blksz
    ensures EntriesLba(h) * blksz + |ptes| <= RegionLast(h) * blksz <= d.lastLba * blksz
    ensures (RegionLast(h) - EntriesLba(h)) * blksz < TWO64 && EntryCount(h) * EntrySize(h) < TWO32
  {
    hide HeaderSealed, EntriesSealed, Magic, HeaderSize, MyLba, AlternateLba, FirstUsable, LastUsable, EntriesLba,
      EntryCount, EntrySize;
    var first, start, last := RegionFirst(h), EntriesLba(h), RegionLast(h);
    Times(blksz, first, start);
    Times(blksz, last, d.lastLba);
    Swap(blksz, first);
    Swap(blksz, start);
    Swap(blksz, last);
    Swap(blksz, d.lastLba);
    SmallTable(EntryCount(h), EntrySize(h));
  }

  predicate Between3(a: nat, x: nat, b: nat) { a <= x < b }

  /** Some byte of the table lies in a usable block. */
  ghost predicate Overlaps(h: Header, blksz: u32, len: nat) {
    var start, first, past := EntriesLba(h) * blksz, FirstUsable(h) * blksz, (LastUsable(h) + 1) * blksz;
    exists x :: Between3(start, x, start + len) && Between3(first, x, past)
  }

  lemma IntervalsMeet(s: nat, len: nat, f: nat, l: nat)
    requires len > 0
    ensures (exists x :: Between3(s, x, s + len) && Between3(f, x, l)) <==> s < l && f < s + len && f < l
  {
    if s < l && f < s + len && f < l {
      var x := if s <= f then f else s;
      assert Between3(s, x, s + len) && Between3(f, x, l);
    }
  }

  /** Addresses in bytes compare as blocks do. */
  lemma InBlocks(a: nat, b: nat, blksz: nat)
    requires blksz > 0
    ensures a * blksz < b * blksz <==> a < b
  {
    if a < b {
      Times(blksz, a + 1, b);
      assert blksz * (a + 1) == blksz * a + blksz;
    } else {
      Times(blksz, b, a);
    }
    Swap(blksz, a);
    Swap(blksz, b);
  }

  /** The table of a copy keeps off the usable blocks, except that the alternate copy may start its table on
      the last of them. */
  lemma TableOverlapsIff(d: Disk, lba: nat, blksz: u32, h: Header, ptes: seq<byte>)
    requires ValidCopy(d, lba, blksz, h, ptes)
    ensures Overlaps(h, blksz, |ptes|) <==>
      AlternateLba(h) <= MyLba(h) && EntriesLba(h) == LastUsable(h) && FirstUsable(h) <= LastUsable(h)
  {
    hide *;
    CopyInBounds(d, lba, blksz, h, ptes);
    TableNotEmpty(d, lba, blksz, h, ptes);
    RegionIs(d, lba, blksz, h, ptes);
    var start, first, last := EntriesLba(h), FirstUsable(h), LastUsable(h);
    OverlapsIs(h, blksz, |ptes|);
    InBlocks(start, last + 1, blksz);
    InBlocks(first, last + 1, blksz);
    InBlocks(start, first, blksz);
    OverlapNumbers(start, first, last, start * blksz, first * blksz, (last + 1) * blksz, |ptes|,
                   AlternateLba(h) > MyLba(h));
  }

  lemma OverlapsIs(h: Header, blksz: u32, len: nat)
    requires len > 0
    ensures Overlaps(h, blksz, len) <==>
      && EntriesLba(h) * blksz < (LastUsable(h) + 1) * blksz
      && FirstUsable(h) * blksz < EntriesLba(h) * blksz + len
      && FirstUsable(h) * blksz < (LastUsable(h) + 1) * blksz
  {
    hide EntriesLba, FirstUsable, LastUsable, Between3;
    IntervalsMeet(EntriesLba(h) * blksz, len, FirstUsable(h) * blksz, (LastUsable(h) + 1) * blksz);
  }

  lemma OverlapNumbers(start: nat, first: nat, last: nat, s: nat, f: nat, l: nat, len: nat, primary: bool)
    requires (s < l <==> start < last + 1) && (f < l <==> first < last + 1) && (s < f <==> start < first) && len > 0
    requires primary ==> s + len <= f
    requires !primary ==> last <= start
    ensures s < l && f < s + len && f < l <==> !primary && start == last && first <= last
  {
  }

  lemma RegionIs(d: Disk, lba: nat, blksz: u32, h: Header, ptes: seq<byte>)
    requires ValidCopy(d, lba, blksz, h, ptes)
    ensures blksz > 0
    ensures AlternateLba(h) > MyLba(h) ==> RegionLast(h) == FirstUsable(h)
    ensures AlternateLba(h) <= MyLba(h) ==> LastUsable(h) <= EntriesLba(h)
  {
    hide HeaderSealed, EntriesSealed, Magic, HeaderSize, MyLba, AlternateLba, FirstUsable, LastUsable, EntriesLba,
      EntryCount, EntrySize, Read;
  }

  lemma TableNotEmpty(d: Disk, lba: nat, blksz: u32, h: Header, ptes: seq<byte>)
    requires ValidCopy(d, lba, blksz, h, ptes)
    ensures |ptes| > 0
  {
    CopyInBounds(d, lba, blksz, h, ptes);
    EntrySizeBound(d, lba, blksz, h, ptes);
    var n, sz := EntryCount(h), EntrySize(h);
    assert n > 0;
    hide ValidCopy, EntryCount, EntrySize;
    Times(sz, 1, n);
    Swap(n, sz);
  }

  lemma SmallTable(n: nat, sz: nat)
    requires n <= 1024 && sz <= 4096
    ensures n * sz <= 1024 * 4096
  {
    Times(n, sz, 4096);
  }

  // ---------- choosing a copy ----------

  /** is_pmbr_valid: the magic, and a partition of type 0xEE. */
  predicate PmbrValid(m: seq<byte>)
    requires |m| == 512
  {
    m[510] == 0x55 && m[511] == 0xaa && exists i :: 0 <= i < 4 && m[446 + 16 * i + 4] == 0xee
  }

  method IsPmbrValid(m: seq<byte>) returns (r: bool)
    requires |m| == 512
    ensures r == PmbrValid(m)
  {
    if m[510] != 0x55 || m[511] != 0xaa {
      return false;
    }
    for i := 0 to 4
      invariant forall k :: 0 <= k < i ==> m[446 + 16 * k + 4] != 0xee
    {
      if m[446 + 16 * i + 4] == 0xee {
        return true;
      }
    }
    return false;
  }

  /** What find_valid_gpt hands back, and where that copy's header is. */
  datatype Found = Found(header: Header, ptes: seq<byte>, lba: nat) | NotFound | Faulted | Overran

  /** What the last test of a backup finds: after a valid primary the address it names, and the last block if
      that has none; the last block otherwise. */
  ghost function BackupStatus(d: Disk, blksz: u32): (s: Status) {
    if StatusAt(d, 1, blksz) != Ok then StatusAt(d, d.lastLba, blksz)
    else
      var named := StatusAt(d, AlternateLba(Read(d, 1, HEADER).value), blksz);
      if named == No then StatusAt(d, d.lastLba, blksz) else named
  }

  ghost predicate PmbrGood(d: Disk) {
    Read(d, 0, 512).Some? && PmbrValid(Read(d, 0, 512).value)
  }

  /** Which of the results find_valid_gpt gives. */
  ghost function Expected(d: Disk, ignorePmbr: bool, blksz: u32): (s: Status) {
    var p, a := StatusAt(d, 1, blksz), BackupStatus(d, blksz);
    if p == Fault || p == Overread then p
    else if a == Fault || a == Overread then a
    else if (p == Ok || a == Ok) && (ignorePmbr || PmbrGood(d)) then Ok
    else No
  }

  /** find_valid_gpt. Both halves come from one copy; the primary wins whenever it is valid. */
  method FindValidGpt(d: Disk, ignorePmbr: bool, blksz: u32) returns (r: Found)
    ensures r.Found? <==> Expected(d, ignorePmbr, blksz) == Ok
    ensures r.NotFound? <==> Expected(d, ignorePmbr, blksz) == No
    ensures r.Faulted? <==> Expected(d, ignorePmbr, blksz) == Fault
    ensures r.Overran? <==> Expected(d, ignorePmbr, blksz) == Overread
    ensures r.Found? ==> ValidCopy(d, r.lba, blksz, r.header, r.ptes)
    ensures r.Found? ==> r.lba == if StatusAt(d, 1, blksz) == Ok then 1 else d.lastLba
    ensures StatusAt(d, 1, blksz) == Ok && (ignorePmbr || PmbrGood(d)) ==>
      match BackupStatus(d, blksz)
      case Fault => r.Faulted?
      case Overread => r.Overran?
      case _ => r.Found? && r.lba == 1
  {
    hide ValidCopy, StatusAt, PmbrValid, Read;
    var p := IsGptValid(d, 1, blksz);
    if p.Faults? {
      return Faulted;
    }
    if p.Overreads? {
      return Overran;
    }
    var a := Bad;
    if p.Good? {
      HeaderRead(d, 1, blksz, p.header, p.ptes);
      a := IsGptValid(d, AlternateLba(p.header), blksz);
      if a.Bad? {
        a := IsGptValid(d, d.lastLba, blksz);
      }
    } else {
      a := IsGptValid(d, d.lastLba, blksz);
    }
    if a.Faults? {
      return Faulted;
    }
    if a.Overreads? {
      return Overran;
    }
    if !p.Good? && !a.Good? {
      return NotFound;
    }
    var mbr := Read(d, 0, 512);
    var goodPmbr := false;
    if mbr.Some? {
      goodPmbr := IsPmbrValid(mbr.value);
    }
    if !goodPmbr && !ignorePmbr {
      return NotFound;
    }
    if p.Good? {
      return Found(p.header, p.ptes, 1);
    }
    return Found(a.header, a.ptes, d.lastLba);
  }

  lemma HeaderRead(d: Disk, lba: nat, blksz: u32, h: Header, ptes: seq<byte>)
    requires ValidCopy(d, lba, blksz, h, ptes)
    ensures Read(d, lba, HEADER) == Some(h)
  {
    hide FieldsSound, RegionHolds, EntriesSealed, Read;
  }

  // ---------- looking up a partition ----------

  /** Entries are found in steps of 128 bytes, whatever size the header gives. */
  function EntryOffset(num: nat): (o: int) { 128 * (num - 1) }

  /** The entry read lies inside the table, and is the right one exactly for the first partition or when
      the header's entry size is 128. */
  lemma LookupInBounds(d: Disk, lba: nat, blksz: u32, h: Header, ptes: seq<byte>, num: nat)
    requires ValidCopy(d, lba, blksz, h, ptes) && 0 < num <= EntryCount(h)
    ensures 0 <= EntryOffset(num) && EntryOffset(num) + 128 <= |ptes|
    ensures EntryOffset(num) == EntrySize(h) * (num - 1) <==> num == 1 || EntrySize(h) == 128
  {
    CopyInBounds(d, lba, blksz, h, ptes);
    EntrySizeBound(d, lba, blksz, h, ptes);
    hide *;
    var n, sz := EntryCount(h), EntrySize(h);
    Times(n, 128, sz);
    if num > 1 && sz > 128 {
      Grows(sz, num - 1);
    }
  }

  lemma EntrySizeBound(d: Disk, lba: nat, blksz: u32, h: Header, ptes: seq<byte>)
    requires ValidCopy(d, lba, blksz, h, ptes)
    ensures EntrySize(h) >= 128
  {
    hide HeaderSealed, EntriesSealed, RegionHolds, Magic, HeaderSize, MyLba, AlternateLba, FirstUsable, LastUsable,
      EntriesLba, EntryCount, EntrySize, TableBytes, Read;
  }

  lemma Grows(sz: nat, k: nat)
    requires sz > 128 && k > 0
    ensures sz * k > 128 * k
  {
  }

  // ---------- a disk to try things on ----------

  /** Where a copy puts its header and its table, and where it says the other header is. */
  datatype Place = Place(my: u64, alternate: u64, entries: u64)

  const PRIMARY := Place(1, 1000, 2)
  const ALTERNATE := Place(1000, 1, 900)

  /** The addresses behind the header's CRC. */
  function LbaFields(p: Place): (s: seq<byte>)
    ensures |s| == 52
  {
    Put(0, 4) + (Put(p.my, 8) + (Put(p.alternate, 8) + (Put(34, 8) + (Put(900, 8) + Zeros(16)))))
  }

  /** The table's fields. */
  function TableFields(p: Place, n: nat, sz: nat, crc: seq<byte>): (s: seq<byte>)
    requires |crc| == 4
    ensures |s| == 440
  {
    Put(p.entries, 8) + (Put(n, 4) + (Put(sz, 4) + (crc + Zeros(420))))
  }

  function Fields(p: Place, n: nat, sz: nat, crc: seq<byte>): (s: seq<byte>)
    requires |crc| == 4
    ensures |s| == 492
  {
    LbaFields(p) + TableFields(p, n, sz, crc)
  }

  function HeaderOf(p: Place, seal: seq<byte>, n: nat, sz: nat, crc: seq<byte>): (h: Header)
    requires |seal| == 4 && |crc| == 4
  {
    var fields := Fields(p, n, sz, crc);
    assert |fields| == 492;
    Put(MAGIC, 8) + (Put(0x10000, 4) + (Put(92, 4) + (seal + fields)))
  }

  lemma LongIs(b: seq<byte>, off: nat, n: u64)
    requires Holds(b, off, Put(n, 8))
    ensures off + 8 <= |b| && Long(b, off) == n
  {
    Widths();
    GetPut(n, 8);
    hide Put, Get;
  }

  lemma LbasHold(b: seq<byte>, p: Place)
    requires |b| == HEADER && Holds(b, 20, LbaFields(p))
    ensures Holds(b, 24, Put(p.my, 8)) && Holds(b, 32, Put(p.alternate, 8))
    ensures Holds(b, 40, Put(34, 8)) && Holds(b, 48, Put(900, 8))
  {
    hide Put, Holds;
    var f5 := Put(900, 8) + Zeros(16);
    var f4 := Put(34, 8) + f5;
    var f3 := Put(p.alternate, 8) + f4;
    var f2 := Put(p.my, 8) + f3;
    HoldsSplit(b, 20, Put(0, 4), f2);
    HoldsSplit(b, 24, Put(p.my, 8), f3);
    HoldsSplit(b, 32, Put(p.alternate, 8), f4);
    HoldsSplit(b, 40, Put(34, 8), f5);
    HoldsSplit(b, 48, Put(900, 8), Zeros(16));
  }

  lemma TableHolds(b: seq<byte>, p: Place, n: nat, sz: nat, crc: seq<byte>)
    requires |b| == HEADER && |crc| == 4 && Holds(b, 72, TableFields(p, n, sz, crc))
    ensures Holds(b, 72, Put(p.entries, 8)) && Holds(b, 80, Put(n, 4)) && Holds(b, 84, Put(sz, 4)) && Holds(b, 88, crc)
  {
    hide Put, Holds;
    var f3 := crc + Zeros(420);
    var f2 := Put(sz, 4) + f3;
    var f1 := Put(n, 4) + f2;
    HoldsSplit(b, 72, Put(p.entries, 8), f1);
    HoldsSplit(b, 80, Put(n, 4), f2);
    HoldsSplit(b, 84, Put(sz, 4), f3);
    HoldsSplit(b, 88, crc, Zeros(420));
  }

  lemma FieldsHold(b: seq<byte>, p: Place, n: u32, sz: u32, crc: seq<byte>)
    requires |crc| == 4 && |b| == HEADER && Holds(b, 20, Fields(p, n, sz, crc))
    ensures MyLba(b) == p.my && AlternateLba(b) == p.alternate && FirstUsable(b) == 34 && LastUsable(b) == 900
    ensures EntriesLba(b) == p.entries && EntryCount(b) == n && EntrySize(b) == sz && b[88..92] == crc
  {
    hide LbaFields, TableFields, Holds, Put, MyLba, AlternateLba, FirstUsable, LastUsable, EntriesLba, EntryCount, EntrySize;
    HoldsSplit(b, 20, LbaFields(p), TableFields(p, n, sz, crc));
    LbasHold(b, p);
    TableHolds(b, p, n, sz, crc);
    FieldsRead(b, p, n, sz, crc);
  }

  lemma FieldsRead(b: Header, p: Place, n: u32, sz: u32, crc: seq<byte>)
    requires Holds(b, 24, Put(p.my, 8)) && Holds(b, 32, Put(p.alternate, 8))
    requires Holds(b, 40, Put(34, 8)) && Holds(b, 48, Put(900, 8))
    requires Holds(b, 72, Put(p.entries, 8)) && Holds(b, 80, Put(n, 4)) && Holds(b, 84, Put(sz, 4))
    requires |crc| == 4 && Holds(b, 88, crc)
    ensures MyLba(b) == p.my && AlternateLba(b) == p.alternate && FirstUsable(b) == 34 && LastUsable(b) == 900
    ensures EntriesLba(b) == p.entries && EntryCount(b) == n && EntrySize(b) == sz && b[88..92] == crc
  {
    LongIs(b, 24, p.my);
    LongIs(b, 32, p.alternate);
    LongIs(b, 40, 34);
    LongIs(b, 48, 900);
    LongIs(b, 72, p.entries);
    WordIs(b, 80, n);
    WordIs(b, 84, sz);
    hide Long, Word, Put;
  }

  /** A header with its own CRC in place. */
  function SealedHeader(p: Place, n: nat, sz: nat, crc: seq<byte>): (h: Header)
    requires |crc| == 4
  {
    HeaderOf(p, EfiCrc(HeaderOf(p, [0, 0, 0, 0], n, sz, crc)[..92]), n, sz, crc)
  }

  lemma HeaderStart(p: Place, seal: seq<byte>, n: u32, sz: u32, crc: seq<byte>)
    requires |seal| == 4 && |crc| == 4
    ensures var h := HeaderOf(p, seal, n, sz, crc);
      Magic(h) == MAGIC && HeaderSize(h) == 92 && h[16..20] == seal && Holds(h, 20, Fields(p, n, sz, crc))
  {
    var f := Fields(p, n, sz, crc);
    var h := HeaderOf(p, seal, n, sz, crc);
    var f3 := seal + f;
    var f2 := Put(92, 4) + f3;
    var f1 := Put(0x10000, 4) + f2;
    assert h == Put(MAGIC, 8) + f1;
    WholeHolds(h);
    hide HeaderOf, Fields, Holds, Magic, HeaderSize, Put;
    HoldsSplit(h, 0, Put(MAGIC, 8), f1);
    HoldsSplit(h, 8, Put(0x10000, 4), f2);
    HoldsSplit(h, 12, Put(92, 4), f3);
    HoldsSplit(h, 16, seal, f);
    StartRead(h, seal);
  }

  lemma StartRead(h: Header, seal: seq<byte>)
    requires Holds(h, 0, Put(MAGIC, 8)) && Holds(h, 12, Put(92, 4)) && |seal| == 4 && Holds(h, 16, seal)
    ensures Magic(h) == MAGIC && HeaderSize(h) == 92 && h[16..20] == seal
  {
    LongIs(h, 0, MAGIC);
    WordIs(h, 12, 92);
    hide Long, Word, Put;
  }

  lemma Unseal(p: Place, seal: seq<byte>, n: nat, sz: nat, crc: seq<byte>)
    requires |seal| == 4 && |crc| == 4
    ensures Patch(HeaderOf(p, seal, n, sz, crc), 16, [0, 0, 0, 0]) == HeaderOf(p, [0, 0, 0, 0], n, sz, crc)
  {
    hide Fields, Put;
    var a := Put(MAGIC, 8) + Put(0x10000, 4) + Put(92, 4);
    var f := Fields(p, n, sz, crc);
    assert HeaderOf(p, seal, n, sz, crc) == a + seal + f;
    assert HeaderOf(p, [0, 0, 0, 0], n, sz, crc) == a + [0, 0, 0, 0] + f;
  }

  lemma SealIsRight(p: Place, n: u32, sz: u32, crc: seq<byte>)
    requires |crc| == 4
    ensures HeaderSealed(SealedHeader(p, n, sz, crc)) && Magic(SealedHeader(p, n, sz, crc)) == MAGIC
    ensures HeaderSize(SealedHeader(p, n, sz, crc)) == 92 && Holds(SealedHeader(p, n, sz, crc), 20, Fields(p, n, sz, crc))
  {
    var seal := EfiCrc(HeaderOf(p, [0, 0, 0, 0], n, sz, crc)[..92]);
    HeaderStart(p, seal, n, sz, crc);
    Unseal(p, seal, n, sz, crc);
    hide HeaderOf, EfiCrc, Magic, HeaderSize, Patch, Fields;
  }

  lemma SealedFields(p: Place, n: u32, sz: u32, crc: seq<byte>)
    requires |crc| == 4 && n <= 1024 && 128 <= sz <= 4096 && sz % 128 == 0
    requires p.my <= 1000 && p.alternate <= 1000 && p.entries <= 1000
    ensures var h := SealedHeader(p, n, sz, crc);
      && FieldsSound(h, p.my, 1000, 512) && !Oversized(h, 512) && h[88..92] == crc
      && EntryCount(h) == n && EntrySize(h) == sz && EntriesLba(h) == p.entries
      && MyLba(h) == p.my && AlternateLba(h) == p.alternate && FirstUsable(h) == 34 && LastUsable(h) == 900
  {
    hide HeaderSealed, SealedHeader, Fields, Holds, Magic, HeaderSize, MyLba, AlternateLba, FirstUsable, LastUsable,
      EntriesLba, EntryCount, EntrySize;
    SealIsRight(p, n, sz, crc);
    FieldsHold(SealedHeader(p, n, sz, crc), p, n, sz, crc);
  }

  /** A disk with 1001 blocks and one copy. */
  function DiskOf(p: Place, h: Header, ptes: seq<byte>): (d: Disk) {
    Disk(1000, (lba, n) => if lba == p.my && n == HEADER then Some(h) else if lba == p.entries then Some(ptes) else None)
  }

  lemma DiskReads(p: Place, h: Header, ptes: seq<byte>)
    requires p.my != p.entries
    ensures var d := DiskOf(p, h, ptes);
      d.lastLba == 1000 && Read(d, p.my, HEADER) == Some(h) && Read(d, p.entries, |ptes|) == Some(ptes)
  {
  }

  lemma ValidBy(d: Disk, lba: nat, h: Header, ptes: seq<byte>)
    requires d.lastLba == 1000 && Read(d, lba, HEADER) == Some(h) && Read(d, EntriesLba(h), |ptes|) == Some(ptes)
    requires FieldsSound(h, lba, 1000, 512) && EntryCount(h) > 0 && RegionHolds(h, 512)
    requires TableBytes(h) == |ptes| && h[88..92] == EfiCrc(ptes)
    ensures ValidCopy(d, lba, 512, h, ptes)
  {
    hide Read, FieldsSound, EntryCount, RegionHolds, EntriesLba, TableBytes, EfiCrc;
  }

  /** The regions of the two places, and the tables they hold. */
  lemma RegionBy(h: Header, p: Place, n: u32, sz: u32)
    requires p == PRIMARY || p == ALTERNATE
    requires MyLba(h) == p.my && AlternateLba(h) == p.alternate && FirstUsable(h) == 34 && LastUsable(h) == 900
    requires EntryCount(h) == n && EntrySize(h) == sz && EntriesLba(h) == p.entries && n * sz <= 512
    requires 128 <= sz <= 512
    ensures RegionHolds(h, 512) && TableBytes(h) == n * sz
  {
    hide MyLba, AlternateLba, FirstUsable, LastUsable, EntriesLba, EntryCount, EntrySize;
  }

  /** A table of at most one block at either place is that of a valid copy. */
  lemma ExampleValid(p: Place, n: u32, sz: u32, ptes: seq<byte>)
    requires p == PRIMARY || p == ALTERNATE
    requires 0 < n <= 1024 && 128 <= sz <= 512 && sz % 128 == 0 && n * sz == |ptes| <= 512
    ensures var h := SealedHeader(p, n, sz, EfiCrc(ptes));
      && ValidCopy(DiskOf(p, h, ptes), p.my, 512, h, ptes)
      && EntrySize(h) == sz && EntriesLba(h) == p.entries
      && MyLba(h) == p.my && AlternateLba(h) == p.alternate && FirstUsable(h) == 34 && LastUsable(h) == 900
  {
    PlacesApart(p);
    hide *;
    var h := SealedHeader(p, n, sz, EfiCrc(ptes));
    SealedFields(p, n, sz, EfiCrc(ptes));
    DiskReads(p, h, ptes);
    RegionBy(h, p, n, sz);
    ValidBy(DiskOf(p, h, ptes), p.my, h, ptes);
  }

  lemma PlacesApart(p: Place)
    requires p == PRIMARY || p == ALTERNATE
    ensures p.my != p.entries && p.my <= 1000 && p.alternate <= 1000 && p.entries <= 1000
  {
  }

  /** Two entries of 256 bytes: the second partition is looked up in the middle of the first. */
  lemma WideEntries(ptes: seq<byte>)
    requires |ptes| == 512
    ensures var h := SealedHeader(PRIMARY, 2, 256, EfiCrc(ptes));
      && ValidCopy(DiskOf(PRIMARY, h, ptes), 1, 512, h, ptes)
      && EntryOffset(2) == 128 && EntrySize(h) == 256
  {
    var n: u32, sz: u32 := 2, 256;
    hide EfiCrc, SealedHeader, DiskOf, ValidCopy, EntrySize;
    ExampleValid(PRIMARY, n, sz, ptes);
  }

  /** A valid alternate copy whose table lies on the last usable block. */
  lemma TableOnUsableBlock(ptes: seq<byte>)
    requires |ptes| == 512
    ensures var h := SealedHeader(ALTERNATE, 4, 128, EfiCrc(ptes));
      ValidCopy(DiskOf(ALTERNATE, h, ptes), 1000, 512, h, ptes) && Overlaps(h, 512, |ptes|)
  {
    var n: u32, sz: u32 := 4, 128;
    hide EfiCrc, SealedHeader, DiskOf, ValidCopy, EntrySize, Overlaps, EntriesLba, MyLba, AlternateLba, FirstUsable, LastUsable;
    ExampleValid(ALTERNATE, n, sz, ptes);
    var h := SealedHeader(ALTERNATE, n, sz, EfiCrc(ptes));
    TableOverlapsIff(DiskOf(ALTERNATE, h, ptes), 1000, 512, h, ptes);
  }

  lemma FaultBy(d: Disk, h: Header)
    requires d.lastLba == 1000 && Read(d, 1, HEADER) == Some(h)
    requires FieldsSound(h, 1, 1000, 512) && EntryCount(h) == 0 && RegionHolds(h, 512) && !Oversized(h, 512)
    ensures StatusAt(d, 1, 512) == Fault
  {
    hide Read, FieldsSound, EntryCount, RegionHolds, Oversized, Present;
  }

  /** A header that counts no entries makes is_gpt_valid divide by zero. */
  lemma NoEntries(crc: seq<byte>)
    requires |crc| == 4
    ensures StatusAt(DiskOf(PRIMARY, SealedHeader(PRIMARY, 0, 128, crc), []), 1, 512) == Fault
  {
    var p, n: u32, sz: u32 := PRIMARY, 0, 128;
    PlacesApart(p);
    hide EfiCrc, SealedHeader, DiskOf, StatusAt, EntryCount, EntrySize, EntriesLba, MyLba, AlternateLba, FirstUsable,
      LastUsable, FieldsSound, RegionHolds, Oversized, Read, TableBytes;
    var h := SealedHeader(p, n, sz, crc);
    SealedFields(p, n, sz, crc);
    DiskReads(p, h, []);
    RegionBy(h, p, n, sz);
    FaultBy(DiskOf(p, h, []), h);
  }

  /** A header of 513 bytes in blocks of 4096: its CRC is taken over one byte more than was read. */
  lemma LongHeader(rest: seq<byte>)
    requires |rest| == 496
    ensures var h: Header := Put(MAGIC, 8) + Put(0x10000, 4) + Put(513, 4) + rest;
      HeaderSize(h) == 513 && StatusAt(DiskOf(PRIMARY, h, []), 1, 4096) == Overread
  {
    hide Put, Holds, StatusAt, DiskOf, Magic, HeaderSize, Get;
    var version, size := Put(0x10000, 4), Put(513, 4);
    var h: Header := Put(MAGIC, 8) + version + size + rest;
    WholeHolds(h);
    HoldsSplit(h, 0, Put(MAGIC, 8) + version + size, rest);
    HoldsSplit(h, 0, Put(MAGIC, 8) + version, size);
    HoldsSplit(h, 0, Put(MAGIC, 8), version);
    LongStart(h);
    OverreadBy(h);
  }

  lemma LongStart(h: Header)
    requires Holds(h, 0, Put(MAGIC, 8)) && Holds(h, 12, Put(513, 4))
    ensures Magic(h) == MAGIC && HeaderSize(h) == 513
  {
    LongIs(h, 0, MAGIC);
    WordIs(h, 12, 513);
    hide Long, Word, Put;
  }

  lemma OverreadBy(h: Header)
    requires Magic(h) == MAGIC && HeaderSize(h) == 513
    ensures StatusAt(DiskOf(PRIMARY, h, []), 1, 4096) == Overread
  {
    hide Magic, HeaderSize, Present, Empty;
  }
}
