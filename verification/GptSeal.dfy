/**
  What the two checksums of a GPT copy refuse: any change within four bytes of a sealed header, except one that
  reaches over the end of the checksum itself, and any such change of the table or its checksum.
 */
module GptSeal {
  import opened Bytes
  import opened Crc32
  import opened CrcLinear
  import opened Gpt

  /** The bytes the header's CRC is taken over, and that CRC behind them. */
  function SealBytes(h: Header): (s: seq<byte>)
    requires HeaderSize(h) <= HEADER
    ensures |s| == HeaderSize(h) + 4
  {
    Patch(h, 16, [0, 0, 0, 0])[..HeaderSize(h)] + h[16..20]
  }

  lemma SealedBytes(h: Header)
    requires HeaderSize(h) <= HEADER
    ensures HeaderSealed(h) <==> Sealed(SealBytes(h))
  {
    hide EfiCrc, HeaderSize;
    var s, n := SealBytes(h), HeaderSize(h);
    assert s[..n] == Patch(h, 16, [0, 0, 0, 0])[..n] && s[n..] == h[16..20];
  }

  /** Two headers of one size that differ within `k` bytes from `i` on. */
  ghost predicate Apart(h: Header, g: Header, i: nat, k: nat) {
    && h != g && k <= 4 && i + k <= HeaderSize(h) == HeaderSize(g) <= HEADER
    && h[..i] == g[..i] && h[i + k..] == g[i + k..]
  }

  /** A change of a sealed header that keeps its size goes unnoticed if and only if the difference of the bytes, their CRC
      included, leaves an empty register empty. */
  lemma HeaderUnseenIff(h: Header, g: Header)
    requires HeaderSealed(h) && HeaderSize(g) == HeaderSize(h)
    ensures HeaderSize(h) <= HEADER
    ensures HeaderSealed(g) <==> Serial(0, XorAll(Bits(SealBytes(h)), Bits(SealBytes(g)))) == 0
  {
    SealedSizeOk(h);
    hide HeaderSealed, SealBytes, Sealed, Serial, Bits, XorAll, HeaderSize;
    SealedBytes(h);
    SealedBytes(g);
    UnseenIff(SealBytes(h), SealBytes(g));
  }

  lemma SealedSizeOk(h: Header)
    requires HeaderSealed(h)
    ensures HeaderSize(h) <= HEADER
  {
    hide EfiCrc, HeaderSize;
  }

  // ---------- four bytes ----------

  lemma SameSizeField(h: Header, g: Header)
    requires HeaderSize(h) == HeaderSize(g)
    ensures h[12..16] == g[12..16]
  {
    hide Word, Put;
    WordHolds(h, 12, HeaderSize(h));
    WordHolds(g, 12, HeaderSize(g));
  }

  /** The checksum is a copy of its own: behind what it covers. */
  lemma SealAt(h: Header, j: nat)
    requires HeaderSize(h) <= HEADER && j < HeaderSize(h) + 4
    ensures SealBytes(h)[j] ==
      if j < HeaderSize(h) then (if 16 <= j < 20 then 0 else h[j]) else h[16 + j - HeaderSize(h)]
  {
    hide HeaderSize;
  }

  lemma BurstInBody(h: Header, g: Header, i: nat, k: nat)
    requires Apart(h, g, i, k) && (i + k <= 16 || 20 <= i)
    ensures BurstApart(SealBytes(h), SealBytes(g), i, k)
  {
    var s, t, n := SealBytes(h), SealBytes(g), HeaderSize(h);
    hide SealBytes, HeaderSize;
    forall j | 0 <= j < n + 4 && !(i <= j < i + k) ensures s[j] == t[j] {
      SealAt(h, j);
      SealAt(g, j);
      SameAt(h, g, i, k, j);
      if j >= n {
        SameAt(h, g, i, k, 16 + j - n);
      }
    }
    var j := Differs(h, g, i, k);
    SealAt(h, j);
    SealAt(g, j);
    assert s[..i] == t[..i] && s[i + k..] == t[i + k..];
  }

  lemma SameAt(h: Header, g: Header, i: nat, k: nat, j: nat)
    requires Apart(h, g, i, k) && !(i <= j < i + k)
    ensures j < HEADER ==> h[j] == g[j]
  {
    hide HeaderSize;
    if j < i {
      assert h[..i][j] == g[..i][j];
    } else if j < HEADER {
      assert h[i + k..][j - i - k] == g[i + k..][j - i - k];
    }
  }

  lemma Differs(h: Header, g: Header, i: nat, k: nat) returns (j: nat)
    requires Apart(h, g, i, k)
    ensures i <= j < i + k && h[j] != g[j]
  {
    hide HeaderSize;
    j :| 0 <= j < HEADER && h[j] != g[j];
    if !(i <= j < i + k) {
      SameAt(h, g, i, k, j);
    }
  }

  lemma BurstInSeal(h: Header, g: Header, i: nat, k: nat)
    requires Apart(h, g, i, k) && 16 < i + k <= 20
    ensures BurstApart(SealBytes(h), SealBytes(g), HeaderSize(h), 4)
  {
    var s, t, n := SealBytes(h), SealBytes(g), HeaderSize(h);
    SameSizeField(h, g);
    hide SealBytes, HeaderSize;
    assert forall j :: 12 <= j < 16 ==> h[12..16][j - 12] == h[j] && g[12..16][j - 12] == g[j];
    forall j | 0 <= j < n ensures s[j] == t[j] {
      SealAt(h, j);
      SealAt(g, j);
      if !(i <= j < i + k) {
        SameAt(h, g, i, k, j);
      }
    }
    var j := Differs(h, g, i, k);
    SealAt(h, n + j - 16);
    SealAt(g, n + j - 16);
    assert s[..n] == t[..n];
  }

  /** No header within four bytes of a sealed one is sealed, unless they reach over the end of the checksum. */
  lemma BurstBreaksHeader(h: Header, g: Header, i: nat, k: nat)
    requires HeaderSealed(h) && Apart(h, g, i, k) && (i + k <= 20 || 20 <= i)
    ensures !HeaderSealed(g)
  {
    SealedBytes(h);
    SealedBytes(g);
    hide HeaderSealed, SealBytes, HeaderSize, Sealed, BurstApart;
    if i + k <= 16 || 20 <= i {
      BurstInBody(h, g, i, k);
      BurstBreaksSeal(SealBytes(h), SealBytes(g), i, k);
    } else {
      BurstInSeal(h, g, i, k);
      BurstBreaksSeal(SealBytes(h), SealBytes(g), HeaderSize(h), 4);
    }
  }

  // ---------- what is_gpt_valid makes of it ----------

  lemma UnsoundRefused(d: Disk, lba: nat, blksz: u32, h: Header)
    requires Read(d, lba, HEADER) == Some(h) && !FieldsSound(h, lba, d.lastLba, blksz)
    ensures StatusAt(d, lba, blksz) != Ok && StatusAt(d, lba, blksz) != Fault
  {
    hide FieldsSound, Read, Oversized, RegionHolds, EntriesSealed, EntriesLba, EntryCount, TableBytes;
    NotPresent(d, lba, blksz, h);
  }

  lemma UnsealedUnsound(h: Header, lba: nat, last: u64, blksz: u32)
    requires !HeaderSealed(h)
    ensures !FieldsSound(h, lba, last, blksz)
  {
    hide HeaderSealed, Magic, HeaderSize, MyLba, AlternateLba, FirstUsable, LastUsable, EntriesLba, EntryCount, EntrySize;
  }

  lemma NotOversized(h: Header, blksz: u32)
    requires HeaderSize(h) <= HEADER
    ensures !Oversized(h, blksz)
  {
    hide HeaderSize;
  }

  lemma CopySealed(d: Disk, lba: nat, blksz: u32, h: Header, ptes: seq<byte>)
    requires ValidCopy(d, lba, blksz, h, ptes)
    ensures HeaderSealed(h) && EntriesSealed(h, ptes)
  {
    hide HeaderSealed, EntriesSealed, RegionHolds, Magic, HeaderSize, MyLba, AlternateLba, FirstUsable, LastUsable,
      EntriesLba, EntryCount, EntrySize, TableBytes, Read;
  }

  lemma OnlyNo(d: Disk, lba: nat, blksz: u32, h: Header)
    requires Read(d, lba, HEADER) == Some(h) && !Oversized(h, blksz)
    requires StatusAt(d, lba, blksz) != Ok && StatusAt(d, lba, blksz) != Fault
    ensures StatusAt(d, lba, blksz) == No
  {
    hide Read, Oversized, Empty, Present;
  }

  /** A header that passes on one disk, changed within four bytes and with its size kept, is refused on every disk that has
      it in that place; the change must not reach over the end of the checksum. */
  lemma DamagedHeaderRefused(
      d: Disk, lba: nat, blksz: u32, h: Header, ptes: seq<byte>, d': Disk, lba': nat, blksz': u32, g: Header, i: nat, k: nat)
    requires ValidCopy(d, lba, blksz, h, ptes) && Apart(h, g, i, k) && (i + k <= 20 || 20 <= i)
    requires Read(d', lba', HEADER) == Some(g)
    ensures StatusAt(d', lba', blksz') == No
  {
    CopySealed(d, lba, blksz, h, ptes);
    BurstBreaksHeader(h, g, i, k);
    UnsealedUnsound(g, lba', d'.lastLba, blksz');
    UnsoundRefused(d', lba', blksz', g);
    hide ValidCopy, StatusAt, Read, HeaderSize, FieldsSound, HeaderSealed;
    NotOversized(g, blksz');
    OnlyNo(d', lba', blksz', g);
  }

  /** With a damaged primary of that kind the search goes to the last block. */
  lemma BackupInstead(
      d: Disk, blksz: u32, h: Header, ptes: seq<byte>, d': Disk, g: Header, i: nat, k: nat, ignorePmbr: bool)
    requires ValidCopy(d, 1, blksz, h, ptes) && Apart(h, g, i, k) && (i + k <= 20 || 20 <= i)
    requires Read(d', 1, HEADER) == Some(g) && (ignorePmbr || PmbrGood(d'))
    ensures StatusAt(d', 1, blksz) == No && Expected(d', ignorePmbr, blksz) == StatusAt(d', d'.lastLba, blksz)
  {
    hide *;
    DamagedHeaderRefused(d, 1, blksz, h, ptes, d', 1, blksz, g, i, k);
    NoPrimary(d', ignorePmbr, blksz);
  }

  lemma NoPrimary(d: Disk, ignorePmbr: bool, blksz: u32)
    requires StatusAt(d, 1, blksz) == No && (ignorePmbr || PmbrGood(d))
    ensures Expected(d, ignorePmbr, blksz) == StatusAt(d, d.lastLba, blksz)
  {
    hide StatusAt, PmbrGood, Read, AlternateLba;
  }

  lemma TableSealed(h: Header, ptes: seq<byte>)
    ensures EntriesSealed(h, ptes) <==> Sealed(ptes + h[88..92])
  {
    hide EfiCrc;
    var s := ptes + h[88..92];
    assert s[..|s| - 4] == ptes && s[|s| - 4..] == h[88..92];
  }

  /** No table and stored checksum within four bytes of sealed ones are sealed. */
  lemma DamagedTableRefused(
      d: Disk, lba: nat, blksz: u32, h: Header, ptes: seq<byte>, d': Disk, lba': nat, blksz': u32, g: Header,
      ptes': seq<byte>, i: nat, k: nat)
    requires ValidCopy(d, lba, blksz, h, ptes) && BurstApart(ptes + h[88..92], ptes' + g[88..92], i, k)
    requires Read(d', lba', HEADER) == Some(g) && Read(d', EntriesLba(g), TableBytes(g)) == Some(ptes')
    ensures StatusAt(d', lba', blksz') != Ok
  {
    CopySealed(d, lba, blksz, h, ptes);
    TableSealed(h, ptes);
    TableSealed(g, ptes');
    hide ValidCopy, EntriesSealed, Sealed, BurstApart, FieldsSound, RegionHolds, Read, EntriesLba, EntryCount, TableBytes,
      Oversized, Empty, Present;
    BurstBreaksSeal(ptes + h[88..92], ptes' + g[88..92], i, k);
    NotPresent(d', lba', blksz', g);
  }

  /** A header that does not begin with "EFI PART", is somewhere else than both of its addresses, points behind the device,
      has a size or a number or size of entries out of bounds, is refused. */
  lemma StrangeHeaderRefused(d: Disk, lba: nat, blksz: u32, h: Header)
    requires Read(d, lba, HEADER) == Some(h)
    requires
      || h[..8] != [0x45, 0x46, 0x49, 0x20, 0x50, 0x41, 0x52, 0x54]
      || (MyLba(h) != lba && AlternateLba(h) != lba)
      || d.lastLba < MyLba(h) || d.lastLba < AlternateLba(h)
      || d.lastLba < FirstUsable(h) || d.lastLba < LastUsable(h) || d.lastLba < EntriesLba(h)
      || HeaderSize(h) < 92 || HeaderSize(h) > blksz
      || EntryCount(h) > 1024 || EntrySize(h) % 128 != 0 || EntrySize(h) == 0 || EntrySize(h) > 4096
    ensures StatusAt(d, lba, blksz) != Ok && StatusAt(d, lba, blksz) != Fault
  {
    SignatureIs(h);
    hide Magic, HeaderSize, MyLba, AlternateLba, FirstUsable, LastUsable, EntriesLba, EntryCount, EntrySize, HeaderSealed,
      Read, StatusAt;
    assert !FieldsSound(h, lba, d.lastLba, blksz);
    UnsoundRefused(d, lba, blksz, h);
  }

  lemma SignatureIs(h: Header)
    ensures Magic(h) == MAGIC ==> h[..8] == [0x45, 0x46, 0x49, 0x20, 0x50, 0x41, 0x52, 0x54]
  {
    Widths();
    PutGet(h[0..8]);
    assert h[0..8] == h[..8];
    MagicBytes();
    hide Put, Get;
  }

  lemma PutFirst(b: byte, n: nat, width: nat)
    ensures Put(b + 256 * n, width + 1) == [b] + Put(n, width)
  {
    assert (b + 256 * n) / 256 == n && (b + 256 * n) % 256 == b;
  }

  lemma MagicBytes()
    ensures Put(MAGIC, 8) == [0x45, 0x46, 0x49, 0x20, 0x50, 0x41, 0x52, 0x54]
  {
    assert Put(0, 0) == [];
    hide Put;
    PutFirst(0x54, 0, 0);
    PutFirst(0x52, 0x54, 1);
    PutFirst(0x41, 0x5452, 2);
    PutFirst(0x50, 0x545241, 3);
    PutFirst(0x20, 0x54524150, 4);
    PutFirst(0x49, 0x5452415020, 5);
    PutFirst(0x46, 0x545241502049, 6);
    PutFirst(0x45, 0x54524150204946, 7);
  }

  // ---------- over the end of the checksum ----------

  lemma SameSlice(h: Header, g: Header, i: nat, j: nat)
    requires i <= j <= HEADER && h[..17] == g[..17] && h[23..] == g[23..] && (j <= 17 || 23 <= i)
    ensures h[i..j] == g[i..j]
  {
    if j <= 17 {
      TakeSlice(h, 17, i, j);
      TakeSlice(g, 17, i, j);
    } else {
      DropSlice(h, 23, i, j);
      DropSlice(g, 23, i, j);
    }
  }

  lemma TakeSlice(s: seq<byte>, o: nat, i: nat, j: nat)
    requires i <= j <= o <= |s|
    ensures s[i..j] == s[..o][i..j]
  {
  }

  lemma DropSlice(s: seq<byte>, o: nat, i: nat, j: nat)
    requires o <= i <= j <= |s|
    ensures s[i..j] == s[o..][i - o..j - o]
  {
  }

  /** The headers agree but for bytes 17 to 22, which hold no field the code looks at besides the checksum. */
  predicate AlikeBut(h: Header, g: Header) {
    h[..17] == g[..17] && h[23..] == g[23..]
  }

  lemma SameFields(h: Header, g: Header)
    requires AlikeBut(h, g)
    ensures Magic(g) == Magic(h) && HeaderSize(g) == HeaderSize(h) && MyLba(g) == MyLba(h)
    ensures AlternateLba(g) == AlternateLba(h) && FirstUsable(g) == FirstUsable(h) && LastUsable(g) == LastUsable(h)
    ensures EntriesLba(g) == EntriesLba(h) && EntryCount(g) == EntryCount(h) && EntrySize(g) == EntrySize(h)
    ensures g[88..92] == h[88..92]
  {
    hide Get;
    SameSlice(h, g, 0, 8);
    SameSlice(h, g, 12, 16);
    SameSlice(h, g, 24, 32);
    SameSlice(h, g, 32, 40);
    SameSlice(h, g, 40, 48);
    SameSlice(h, g, 48, 56);
    SameSlice(h, g, 72, 80);
    SameSlice(h, g, 80, 84);
    SameSlice(h, g, 84, 88);
    SameSlice(h, g, 88, 92);
  }

  lemma AlikeSound(h: Header, g: Header, lba: nat, last: u64, blksz: u32)
    requires FieldsSound(h, lba, last, blksz) && AlikeBut(h, g) && HeaderSealed(g)
    ensures FieldsSound(g, lba, last, blksz)
  {
    SameFields(h, g);
    hide HeaderSealed, Magic, HeaderSize, MyLba, AlternateLba, FirstUsable, LastUsable, EntriesLba, EntryCount, EntrySize;
  }

  lemma CopySound(d: Disk, lba: nat, blksz: u32, h: Header, ptes: seq<byte>)
    requires ValidCopy(d, lba, blksz, h, ptes)
    ensures FieldsSound(h, lba, d.lastLba, blksz)
  {
    hide FieldsSound, RegionHolds, EntriesSealed, Read, EntryCount, EntriesLba, TableBytes;
  }

  lemma SameTable(d: Disk, lba: nat, blksz: u32, h: Header, ptes: seq<byte>, d': Disk, g: Header)
    requires ValidCopy(d, lba, blksz, h, ptes) && d'.lastLba == d.lastLba && FieldsSound(g, lba, d.lastLba, blksz)
    requires Read(d', lba, HEADER) == Some(g) && Read(d', EntriesLba(h), TableBytes(h)) == Some(ptes)
    requires MyLba(g) == MyLba(h) && AlternateLba(g) == AlternateLba(h) && FirstUsable(g) == FirstUsable(h)
    requires LastUsable(g) == LastUsable(h) && EntriesLba(g) == EntriesLba(h) && EntryCount(g) == EntryCount(h)
    requires EntrySize(g) == EntrySize(h) && g[88..92] == h[88..92]
    ensures ValidCopy(d', lba, blksz, g, ptes)
  {
    hide FieldsSound, Read, EfiCrc, TableFits, MyLba, AlternateLba, FirstUsable, LastUsable, EntriesLba, EntryCount, EntrySize;
  }

  lemma StraddleAlike(h: Header, g: Header, i: nat, k: nat)
    requires Apart(h, g, i, k) && i < 20 < i + k
    ensures AlikeBut(h, g)
  {
    hide HeaderSize;
    assert h[..17] == h[..i][..17] && g[..17] == g[..i][..17];
    assert h[23..] == h[i + k..][23 - i - k..] && g[23..] == g[i + k..][23 - i - k..];
  }

  lemma OkBy(d: Disk, lba: nat, blksz: u32, h: Header, ptes: seq<byte>)
    requires ValidCopy(d, lba, blksz, h, ptes)
    ensures StatusAt(d, lba, blksz) == Ok
  {
    CopyFacts(d, lba, blksz, h, ptes);
    PresentBy(d, lba, blksz, h, ptes);
    hide ValidCopy, Read, Present, FieldsSound, RegionHolds, HeaderSize, EntryCount;
    NotOversized(h, blksz);
  }

  lemma CopyFacts(d: Disk, lba: nat, blksz: u32, h: Header, ptes: seq<byte>)
    requires ValidCopy(d, lba, blksz, h, ptes)
    ensures Read(d, lba, HEADER) == Some(h) && EntryCount(h) > 0 && HeaderSize(h) <= HEADER
  {
    CopySealed(d, lba, blksz, h, ptes);
    SealedSizeOk(h);
    hide FieldsSound, RegionHolds, EntriesSealed, Read, EntryCount, EntriesLba, TableBytes, HeaderSize, HeaderSealed;
  }

  /** A change within four bytes that reaches over the end of the checksum leaves the copy valid if and only if its
      difference leaves an empty register empty; whatever else is in the header does not matter. */
  lemma StraddleIff(d: Disk, lba: nat, blksz: u32, h: Header, ptes: seq<byte>, d': Disk, g: Header, i: nat, k: nat)
    requires ValidCopy(d, lba, blksz, h, ptes) && Apart(h, g, i, k) && i < 20 < i + k
    requires d'.lastLba == d.lastLba && Read(d', lba, HEADER) == Some(g)
    requires Read(d', EntriesLba(h), TableBytes(h)) == Some(ptes)
    ensures HeaderSize(h) <= HEADER && HeaderSize(g) == HeaderSize(h)
    ensures StatusAt(d', lba, blksz) == Ok <==> Serial(0, XorAll(Bits(SealBytes(h)), Bits(SealBytes(g)))) == 0
  {
    StraddleAlike(h, g, i, k);
    CopySealed(d, lba, blksz, h, ptes);
    SealedSizeOk(h);
    hide *;
    SameFields(h, g);
    HeaderUnseenIff(h, g);
    if HeaderSealed(g) {
      CopySound(d, lba, blksz, h, ptes);
      AlikeSound(h, g, lba, d.lastLba, blksz);
      SameTable(d, lba, blksz, h, ptes, d', g);
      OkBy(d', lba, blksz, g, ptes);
    } else {
      UnsealedUnsound(g, lba, d'.lastLba, blksz);
      UnsoundRefused(d', lba, blksz, g);
    }
  }

  // ---------- four bytes that go unnoticed ----------

  function Flip(b: byte, m: bv8): (r: byte) { ToByte(XorByte(ToBits(b), m)) }

  /** The last three bytes of the checksum changed, and the one behind it. */
  function Touched(h: Header): (g: Header) {
    h[..17] + [Flip(h[17], 0xc3), Flip(h[18], 0xc4), Flip(h[19], 0x5d), Flip(h[20], 0x68)] + h[21..]
  }

  lemma TouchedKeeps(h: Header)
    ensures var g := Touched(h); g[..17] == h[..17] && g[21..] == h[21..]
    ensures forall j :: 0 <= j < HEADER && !(17 <= j < 21) ==> Touched(h)[j] == h[j]
  {
    hide Flip;
  }

  lemma FlipBits(b: byte, m: bv8)
    ensures ToBits(Flip(b, m)) == XorByte(ToBits(b), m)
  {
    hide ToBits, ToByte, XorByte;
    ToBitsToByte(XorByte(ToBits(b), m));
  }

  lemma XorNothing(a: bv8)
    ensures XorByte(a, 0) == a
  {
  }

  /** The change at each place of the header. */
  function Spot(k: nat): (m: bv8) {
    if k == 17 then 0xc3 else if k == 18 then 0xc4 else if k == 19 then 0x5d else if k == 20 then 0x68 else 0
  }

  lemma TouchedAt(h: Header, k: nat)
    requires k < HEADER
    ensures ToBits(Touched(h)[k]) == XorByte(ToBits(h[k]), Spot(k))
  {
    TouchedKeeps(h);
    hide Flip, ToBits, XorByte;
    if 17 <= k < 21 {
      FlipBits(h[k], Spot(k));
    } else {
      XorNothing(ToBits(h[k]));
    }
  }

  lemma MaskIsSpot(j: nat)
    ensures j < 16 || 20 <= j < 92 ==> Mask(j) == Spot(j)
    ensures 16 <= j < 20 ==> Mask(j) == 0
    ensures 92 <= j < 96 ==> Mask(j) == Spot(j - 76)
  {
  }

  /** Each byte of what is sealed is changed by its part of the mask. */
  lemma TouchedByte(h: Header, j: nat)
    requires HeaderSize(h) == HeaderSize(Touched(h)) == 92 && j < 96
    ensures ToBits(SealBytes(Touched(h))[j]) == XorByte(ToBits(SealBytes(h)[j]), Mask(j))
  {
    assert 92 <= HEADER;
    SealAt(h, j);
    SealAt(Touched(h), j);
    hide SealBytes, HeaderSize, ToBits, XorByte, Touched, Mask, Spot;
    MaskIsSpot(j);
    TouchedAt(h, if j < 92 then j else j - 76);
    XorNothing(ToBits(SealBytes(h)[j]));
  }

  lemma TouchedBits(h: Header)
    requires HeaderSize(h) == HeaderSize(Touched(h)) == 92
    ensures Bits(SealBytes(Touched(h))) == XorAll(Bits(SealBytes(h)), Hidden())
  {
    hide SealBytes, HeaderSize, ToBits, XorByte, Touched, Mask;
    var s, t := SealBytes(h), SealBytes(Touched(h));
    forall j | 0 <= j < 96 ensures Bits(t)[j] == XorAll(Bits(s), Hidden())[j] {
      TouchedByte(h, j);
    }
  }

  /** Over the end of the checksum the burst is not always found: every valid header of the usual 92 bytes has another one
      that differs from it in bytes 17 to 20 only, and is valid in its place. */
  lemma StraddleUnseen(d: Disk, lba: nat, blksz: u32, h: Header, ptes: seq<byte>, d': Disk)
    requires ValidCopy(d, lba, blksz, h, ptes) && HeaderSize(h) == 92
    requires d'.lastLba == d.lastLba && Read(d', lba, HEADER) == Some(Touched(h))
    requires Read(d', EntriesLba(h), TableBytes(h)) == Some(ptes)
    ensures Apart(h, Touched(h), 17, 4) && ValidCopy(d', lba, blksz, Touched(h), ptes)
  {
    var g := Touched(h);
    TouchedKeeps(h);
    TouchedDiffers(h);
    hide *;
    CopySealed(d, lba, blksz, h, ptes);
    SealedSizeOk(h);
    TouchedAlike(h);
    SameFields(h, g);
    TouchedBits(h);
    SealedBytes(h);
    SealedBytes(g);
    HiddenChange(SealBytes(h), SealBytes(g));
    CopySound(d, lba, blksz, h, ptes);
    AlikeSound(h, g, lba, d.lastLba, blksz);
    SameTable(d, lba, blksz, h, ptes, d', g);
    TouchedApart(h);
  }

  lemma TouchedAlike(h: Header)
    ensures AlikeBut(h, Touched(h))
  {
    hide Flip;
  }

  lemma TouchedApart(h: Header)
    requires HeaderSize(h) == HeaderSize(Touched(h)) == 92
    ensures Apart(h, Touched(h), 17, 4)
  {
    TouchedKeeps(h);
    TouchedDiffers(h);
    hide Touched, HeaderSize;
  }

  lemma TouchedDiffers(h: Header)
    ensures Touched(h) != h
  {
    hide Flip;
    FlipBits(h[20], 0x68);
    Flipped(ToBits(h[20]));
    hide ToBits;
    assert Touched(h)[20] == Flip(h[20], 0x68);
  }

  lemma Flipped(a: bv8)
    ensures XorByte(a, 0x68) != a
  {
  }
}
