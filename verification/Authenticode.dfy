/**
  The byte stream of generate_authenticode_digest (authenticode.c), after "Calculating the PE Image
  Hash" in Microsoft's Windows Authenticode Portable Executable Signature Format.

  The digest contexts all receive the same updates, so the updates are concatenated onto one sequence.
 */
module Authenticode {
  import opened Bytes
  import opened Sorting

  datatype Section = Section(
    virtualAddress: u32, virtualSize: u32, rawSize: u32, rawPointer: u32, uninitialized: bool)

  /** A mapped file and the header fields the loader has cached: the offsets of the checksum and of the
      security directory entry, the size of the headers, and the section table. */
  datatype Image = Image(file: seq<byte>, checksum: nat, secDir: nat, headers: u32, sections: seq<Section>)

  /** The offsets the digest works with lie inside the file, in order. */
  predicate Framed(img: Image) {
    img.checksum + 4 <= img.secDir && img.secDir + 8 <= |img.file|
  }

  /** A section header in the file. */
  function SectionAt(f: seq<byte>, o: nat): (s: Section)
    requires o + 40 <= |f|
  {
    Section(Word(f, o + 12), Word(f, o + 8), Word(f, o + 16), Word(f, o + 20), Word(f, o + 36) / 128 % 2 == 1)
  }

  /** Where the header puts its fields: `e` is the offset of the PE signature, `wide` the 64-bit layout. */
  predicate HeaderFields(img: Image, e: nat, wide: bool)
    requires |img.file| >= 576 && e + 264 <= |img.file|
  {
    var f := img.file;
    && f[0] == 0x4d && f[1] == 0x5a && Word(f, 60) == e
    && Holds(f, e, [0x50, 0x45, 0, 0])
    && (wide <==> Short(f, e + 24) == 0x20b)
    && img.checksum == e + 88 && img.secDir == (if wide then e + 168 else e + 152)
    && img.headers == Word(f, e + 84)
  }

  /** The tests of load_pe on the sizes it finds. */
  predicate HeaderSizes(img: Image, e: nat, wide: bool)
    requires |img.file| >= 576 && e + 264 <= |img.file| && img.secDir + 8 <= |img.file|
  {
    var f, n := img.file, |img.sections|;
    var directories, image := Word(f, if wide then e + 132 else e + 116), Word(f, e + 80);
    var table := e + 24 + Short(f, e + 20);
    && Word(f, e + 60) % 2 == 0 && Short(f, e + 22) % 2 == 0
    && directories <= 16 && Short(f, e + 20) == (if wide then 112 else 96) + 8 * directories
    && n == Short(f, e + 6)
    && table <= image && (image - table) / 40 > n
    && table <= img.headers <= image && (img.headers - table) / 40 >= n
    && table + 40 * n <= |f|
    && (forall i :: 0 <= i < n ==> table + 40 * i + 40 <= |f| && img.sections[i] == SectionAt(f, table + 40 * i))
    && (Word(f, img.secDir) < |f| || (Word(f, img.secDir) == |f| && Word(f, img.secDir + 4) == 0))
  }

  /** An image as load_pe accepts and caches it. */
  predicate Loaded(img: Image) {
    && |img.file| >= 576
    && var e := Word(img.file, 60);
    && e + 264 <= |img.file|
    && var wide := Short(img.file, e + 24) == 0x20b;
    && HeaderFields(img, e, wide) && HeaderSizes(img, e, wide)
  }

  lemma LoadedFramed(img: Image)
    requires Loaded(img)
    ensures Framed(img)
  {
    hide Word, Short, SectionAt;
  }

  datatype Hashing = Rejected | PastEnd | Hashed(stream: seq<byte>)

  /** The size field of the security directory entry. */
  function DirSize(img: Image): (n: nat)
    requires Framed(img)
  {
    Word(img.file, img.secDir + 4)
  }

  /** One update: `len` bytes from `off`, or a read past the end of the map. */
  function Update(file: seq<byte>, stream: seq<byte>, off: nat, len: nat): (h: Hashing) {
    if off + len <= |file| then Hashed(stream + file[off..off + len]) else PastEnd
  }

  function Headers(img: Image): (h: Hashing)
    requires Framed(img)
  {
    var h := Update(img.file, [], 0, U32(img.checksum));
    if !h.Hashed? then h
    else
      var h := Update(img.file, h.stream, img.checksum + 4, U32(img.secDir - img.checksum - 4));
      if !h.Hashed? then h
      else
        var n := U32(img.headers - (img.secDir + 8));
        if n > |img.file| then Rejected else Update(img.file, h.stream, img.secDir + 8, n)
  }

  // ---------- the section table ----------

  /** get_section_vma succeeds. */
  predicate VmaValid(img: Image, s: Section) {
    && (s.uninitialized || (s.virtualAddress >= img.headers && s.rawPointer >= img.headers))
    && U32(s.virtualAddress + s.virtualSize - 1) >= s.virtualAddress
  }

  function SumRaw(ss: seq<Section>): (n: nat) {
    if ss == [] then 0 else SumRaw(ss[..|ss| - 1]) + ss[|ss| - 1].rawSize
  }

  /** What is left of the map, in 64 bits, before section `i`. */
  function Room(img: Image, i: nat): (n: nat)
    requires i <= |img.sections|
  {
    (|img.file| - img.headers - U32(SumRaw(img.sections[..i]))) % TWO64
  }

  predicate SectionAccepted(img: Image, i: nat)
    requires i < |img.sections|
  {
    VmaValid(img, img.sections[i]) && img.sections[i].rawSize <= Room(img, i)
  }

  predicate TableAccepted(img: Image) {
    forall i :: 0 <= i < |img.sections| ==> SectionAccepted(img, i)
  }

  /** Insertion from the back, past the sections that lie behind the new one. */
  function Insert(ss: seq<Section>, x: Section): (r: seq<Section>)
    ensures |r| == |ss| + 1
  {
    if ss != [] && x.rawPointer < ss[|ss| - 1].rawPointer
    then Insert(ss[..|ss| - 1], x) + [ss[|ss| - 1]]
    else ss + [x]
  }

  function Sorted(ss: seq<Section>): (r: seq<Section>)
    ensures |r| == |ss|
  {
    if ss == [] then [] else Insert(Sorted(ss[..|ss| - 1]), ss[|ss| - 1])
  }

  /** The updates for the sorted sections. */
  function HashSections(file: seq<byte>, ss: seq<Section>, stream: seq<byte>): (h: Hashing)
    decreases |ss|
  {
    if ss == [] then Hashed(stream)
    else
      var s := ss[0];
      if s.rawSize == 0 then HashSections(file, ss[1..], stream)
      else if s.rawSize > (|file| - s.rawPointer) % TWO64 then Rejected
      else
        var h := Update(file, stream, s.rawPointer, s.rawSize);
        if h.Hashed? then HashSections(file, ss[1..], h.stream) else h
  }

  // ---------- the rest of the file ----------

  function Padding(n: nat): (k: nat) { (8 - n % 8) % 8 }

  /** Data between the sections and the certificate table. */
  function BeforeTable(img: Image, stream: seq<byte>, sum: u32): (r: (Hashing, u32))
    requires Framed(img)
  {
    var d := DirSize(img);
    if |img.file| > sum && d != 0 then
      var n := U32(|img.file| - d - sum);
      (Update(img.file, stream, sum, n), U32(sum + n))
    else (Hashed(stream), sum)
  }

  /** Whatever is still left, padded to a multiple of eight. */
  function Remaining(img: Image, stream: seq<byte>, sum: u32): (h: Hashing)
    requires Framed(img)
  {
    var d := DirSize(img);
    if |img.file| > U32(sum + d) then
      var n := U32(|img.file| - sum - d);
      var h := Update(img.file, stream, sum, n);
      if h.Hashed? then Hashed(h.stream + Zeros(Padding(U32(sum + n)))) else h
    else Hashed(stream)
  }

  /** The whole stream. */
  function Digest(img: Image): (h: Hashing)
    requires Framed(img)
  {
    var h := Headers(img);
    if !h.Hashed? then h
    else if !TableAccepted(img) then Rejected
    else
      var h := HashSections(img.file, Sorted(img.sections), h.stream);
      if !h.Hashed? then h
      else
        var (h, sum) := BeforeTable(img, h.stream, U32(img.headers + SumRaw(Sorted(img.sections))));
        if !h.Hashed? then h else Remaining(img, h.stream, sum)
  }

  // ---------- the code ----------

  /** One turn of the insertion sort, in place. */
  method InsertSection(a: array<Section>, index: nat, x: Section)
    requires index < a.Length
    modifies a
    ensures a[..index + 1] == Insert(old(a[..index]), x)
    ensures forall i :: index < i < a.Length ==> a[i] == old(a[i])
  {
    hide Insert;
    ghost var was := a[..index];
    var pos := index;
    while pos > 0 && x.rawPointer < a[pos - 1].rawPointer
      invariant 0 <= pos <= index
      invariant forall i :: 0 <= i < pos ==> a[i] == was[i]
      invariant forall i :: pos <= i < index ==> a[i + 1] == was[i] && x.rawPointer < was[i].rawPointer
      invariant forall i :: index < i < a.Length ==> a[i] == old(a[i])
    {
      a[pos] := a[pos - 1];
      pos := pos - 1;
    }
    a[pos] := x;
    Assembled(a[..index + 1], was, pos, x);
    InsertSplit(was, x, pos);
  }

  lemma {:induction false} InsertSplit(was: seq<Section>, x: Section, pos: nat)
    requires pos <= |was| && (pos > 0 ==> was[pos - 1].rawPointer <= x.rawPointer)
    requires forall i :: pos <= i < |was| ==> x.rawPointer < was[i].rawPointer
    ensures Insert(was, x) == was[..pos] + [x] + was[pos..]
    decreases |was|
  {
    if pos < |was| {
      var k := |was| - 1;
      InsertSplit(was[..k], x, pos);
      assert was[..k][..pos] == was[..pos] && was[..k][pos..] + [was[k]] == was[pos..];
      Associative(was[..pos] + [x], was[..k][pos..], [was[k]]);
    }
  }

  lemma Assembled(r: seq<Section>, was: seq<Section>, pos: nat, x: Section)
    requires |r| == |was| + 1 && pos < |r| && r[pos] == x
    requires forall i :: 0 <= i < pos ==> r[i] == was[i]
    requires forall i :: pos <= i < |was| ==> r[i + 1] == was[i]
    ensures r == was[..pos] + [x] + was[pos..]
  {
    var t := was[..pos] + [x] + was[pos..];
    forall i | 0 <= i < |r| ensures r[i] == t[i] {
      if i > pos {
        assert was[i - 1] == was[pos..][i - 1 - pos];
      }
    }
  }

  lemma SumStep(ss: seq<Section>, i: nat)
    requires i < |ss|
    ensures SumRaw(ss[..i + 1]) == SumRaw(ss[..i]) + ss[i].rawSize
    ensures U32(SumRaw(ss[..i + 1])) == U32(U32(SumRaw(ss[..i])) + ss[i].rawSize)
  {
    assert ss[..i + 1][..i] == ss[..i];
    AddNarrowed(SumRaw(ss[..i]), ss[i].rawSize);
    hide U32;
  }

  /** Validates the table and sorts it into a new array. */
  method SortTable(img: Image) returns (ok: bool, a: array<Section>)
    ensures fresh(a) && ok == TableAccepted(img)
    ensures ok ==> a[..] == Sorted(img.sections)
  {
    hide VmaValid, Insert;
    var zero := Section(0, 0, 0, 0, false);
    a := new Section[|img.sections|](_ => zero);
    var sum := 0;
    var index := 0;
    assert img.sections[..0] == [];
    while index < |img.sections|
      invariant 0 <= index <= |img.sections| && a.Length == |img.sections|
      invariant sum == U32(SumRaw(img.sections[..index]))
      invariant forall i :: 0 <= i < index ==> SectionAccepted(img, i)
      invariant a[..index] == Sorted(img.sections[..index])
    {
      var s := img.sections[index];
      if !VmaValid(img, s) {
        assert !SectionAccepted(img, index);
        return false, a;
      }
      if s.rawSize > (|img.file| - img.headers - sum) % TWO64 {
        assert !SectionAccepted(img, index);
        return false, a;
      }
      SumStep(img.sections, index);
      sum := U32(sum + s.rawSize);
      InsertSection(a, index, s);
      assert img.sections[..index + 1][..index] == img.sections[..index];
      index := index + 1;
    }
    assert img.sections[..index] == img.sections && a[..] == a[..index];
    return true, a;
  }

  /** generate_authenticode_digest. */
  method GenerateDigest(img: Image) returns (h: Hashing)
    requires Framed(img)
    ensures h == Digest(img)
  {
    hide Headers, TableAccepted, Sorted, BeforeTable, Remaining, DirSize, Update;
    h := Headers(img);
    if !h.Hashed? {
      return;
    }
    var sum := img.headers;
    var ok, a := SortTable(img);
    if !ok {
      return Rejected;
    }
    var stream := h.stream;
    ghost var ss := Sorted(img.sections);
    var index := 0;
    assert ss[..0] == [];
    while index < a.Length
      invariant 0 <= index <= a.Length && a[..] == ss
      invariant HashSections(img.file, ss, h.stream) == HashSections(img.file, ss[index..], stream)
      invariant sum == U32(img.headers + SumRaw(ss[..index]))
    {
      var s := a[index];
      assert s == ss[index] && ss[index..][1..] == ss[index + 1..];
      if s.rawSize != 0 {
        if s.rawSize > (|img.file| - s.rawPointer) % TWO64 {
          return Rejected;
        }
        var u := Update(img.file, stream, s.rawPointer, s.rawSize);
        if !u.Hashed? {
          return u;
        }
        stream := u.stream;
      }
      SumTotal(img.headers, ss, index);
      sum := U32(sum + s.rawSize);
      index := index + 1;
    }
    assert ss[..index] == ss;
    var (before, sum') := BeforeTable(img, stream, sum);
    if !before.Hashed? {
      return before;
    }
    h := Remaining(img, before.stream, sum');
  }

  lemma SumTotal(headers: nat, ss: seq<Section>, i: nat)
    requires i < |ss|
    ensures U32(headers + SumRaw(ss[..i + 1])) == U32(U32(headers + SumRaw(ss[..i])) + ss[i].rawSize)
  {
    SumStep(ss, i);
    hide SumRaw, U32;
    AddNarrowed(headers + SumRaw(ss[..i]), ss[i].rawSize);
  }

  lemma AddNarrowed(x: nat, y: nat)
    ensures U32(U32(x) + y) == U32(x + y)
  {
    LowerBits(x);
    Congruent(x + y, U32(x) + y, x / TWO32);
  }

  // ---------- sorting finds the tiling ----------

  function Nonempty(ss: seq<Section>): (r: seq<Section>) {
    if ss == [] then []
    else Nonempty(ss[..|ss| - 1]) + if ss[|ss| - 1].rawSize == 0 then [] else [ss[|ss| - 1]]
  }

  lemma {:induction false} NonemptyAppend(a: seq<Section>, b: seq<Section>)
    ensures Nonempty(a + b) == Nonempty(a) + Nonempty(b)
    decreases |b|
  {
    if b == [] {
      assert a + b == a;
    } else {
      var k := |b| - 1;
      var c := a + b;
      assert c[..|c| - 1] == a + b[..k] && c[|c| - 1] == b[k];
      NonemptyAppend(a, b[..k]);
    }
  }

  lemma NonemptyOne(x: Section)
    ensures Nonempty([x]) == if x.rawSize == 0 then [] else [x]
  {
    assert [x][..0] == [];
  }

  lemma {:induction false} SumAppend(a: seq<Section>, b: seq<Section>)
    ensures SumRaw(a + b) == SumRaw(a) + SumRaw(b)
    decreases |b|
  {
    if b == [] {
      assert a + b == a;
    } else {
      var k := |b| - 1;
      var c := a + b;
      assert c[..|c| - 1] == a + b[..k] && c[|c| - 1] == b[k];
      SumAppend(a, b[..k]);
    }
  }

  lemma SumOne(x: Section)
    ensures SumRaw([x]) == x.rawSize
  {
    assert [x][..0] == [];
  }

  /** Insertion adds one section, wherever it goes. */
  lemma {:induction false} InsertAdds(ss: seq<Section>, x: Section)
    ensures multiset(Nonempty(Insert(ss, x))) == multiset(Nonempty(ss + [x]))
    ensures SumRaw(Insert(ss, x)) == SumRaw(ss) + x.rawSize
    decreases |ss|
  {
    var k := |ss| - 1;
    SumOne(x);
    if ss != [] && x.rawPointer < ss[k].rawPointer {
      var front, last := ss[..k], ss[k];
      assert ss == front + [last];
      InsertAdds(front, x);
      SumAppend(Insert(front, x), [last]);
      SumAppend(front, [last]);
      SumOne(last);
      NonemptyAppend(Insert(front, x), [last]);
      NonemptyAppend(front, [x]);
      NonemptyAppend(front, [last]);
      NonemptyAppend(ss, [x]);
    } else {
      SumAppend(ss, [x]);
    }
  }

  lemma {:induction false} SortedAdds(ss: seq<Section>)
    ensures multiset(Nonempty(Sorted(ss))) == multiset(Nonempty(ss))
    ensures SumRaw(Sorted(ss)) == SumRaw(ss)
  {
    if ss != [] {
      hide Insert, Nonempty;
      var front, x := ss[..|ss| - 1], ss[|ss| - 1];
      var r := Sorted(front);
      assert ss == front + [x];
      SortedAdds(front);
      InsertAdds(r, x);
      calc {
        multiset(Nonempty(Sorted(ss)));
        multiset(Nonempty(r + [x]));
        { NonemptyAppend(r, [x]); }
        multiset(Nonempty(r)) + multiset(Nonempty([x]));
        multiset(Nonempty(front)) + multiset(Nonempty([x]));
        { NonemptyAppend(front, [x]); }
        multiset(Nonempty(ss));
      }
    }
  }

  function Order(a: Section, b: Section): (r: int) { a.rawPointer - b.rawPointer }

  function PointerOf(s: Section): (n: nat) { s.rawPointer }

  lemma {:induction false} InsertInOrder(ss: seq<Section>, x: Section)
    requires InOrder(ss, Order)
    ensures InOrder(Insert(ss, x), Order)
    ensures forall y :: y in Insert(ss, x) ==> y in ss || y == x
    decreases |ss|
  {
    var k := |ss| - 1;
    if ss != [] && x.rawPointer < ss[k].rawPointer {
      InsertInOrder(ss[..k], x);
      var r := Insert(ss[..k], x);
      forall y | y in r ensures Order(y, ss[k]) <= 0 {
        if y in ss[..k] {
          var i :| 0 <= i < k && ss[i] == y;
        }
      }
      SnocInOrder(r, ss[k]);
    } else {
      forall y | y in ss ensures Order(y, x) <= 0 {
        var i :| 0 <= i < |ss| && ss[i] == y;
        if i < k {
          assert Order(ss[i], ss[k]) <= 0;
        }
      }
      SnocInOrder(ss, x);
    }
  }

  lemma SnocInOrder(ss: seq<Section>, x: Section)
    requires InOrder(ss, Order) && forall y :: y in ss ==> Order(y, x) <= 0
    ensures InOrder(ss + [x], Order)
  {
    forall i, j | 0 <= i < j < |ss| + 1 ensures Order((ss + [x])[i], (ss + [x])[j]) <= 0 {
      assert (ss + [x])[i] in ss;
    }
  }

  lemma {:induction false} SortedInOrder(ss: seq<Section>)
    ensures InOrder(Sorted(ss), Order)
  {
    if ss != [] {
      SortedInOrder(ss[..|ss| - 1]);
      InsertInOrder(Sorted(ss[..|ss| - 1]), ss[|ss| - 1]);
    }
  }

  lemma {:induction false} NonemptyInOrder(ss: seq<Section>)
    requires InOrder(ss, Order)
    ensures InOrder(Nonempty(ss), Order)
    ensures forall y :: y in Nonempty(ss) ==> y in ss
  {
    if ss != [] {
      hide InOrder, Order;
      var front, last := ss[..|ss| - 1], ss[|ss| - 1];
      NonemptyInOrder(front);
      forall y | y in Nonempty(front) ensures Order(y, last) <= 0 && y in ss {
        BeforeLast(ss, y);
      }
      SnocInOrder(Nonempty(front), last);
    }
  }

  lemma BeforeLast(ss: seq<Section>, y: Section)
    requires ss != [] && InOrder(ss, Order) && y in ss[..|ss| - 1]
    ensures Order(y, ss[|ss| - 1]) <= 0 && y in ss
  {
    hide Order;
    var i :| 0 <= i < |ss| - 1 && ss[..|ss| - 1][i] == y;
    assert ss[i] == y;
  }

  /** Non-empty sections that follow one another from `start` to `end`. */
  ghost predicate Tiles(t: seq<Section>, start: nat, end: nat) {
    if t == [] then start == end
    else t[0].rawPointer == start && t[0].rawSize > 0 && Tiles(t[1..], start + t[0].rawSize, end)
  }

  lemma {:induction false} TilesBounds(t: seq<Section>, start: nat, end: nat)
    requires Tiles(t, start, end)
    ensures start <= end && forall i :: 0 <= i < |t| ==> start <= t[i].rawPointer < end
    ensures Strict(t, Order)
    decreases |t|
  {
    if t != [] {
      TilesBounds(t[1..], start + t[0].rawSize, end);
      assert forall i :: 1 <= i < |t| ==> t[i] == t[1..][i - 1];
    }
  }

  lemma StrictDistinct(t: seq<Section>)
    requires Strict(t, Order)
    ensures DistinctBy(t, PointerOf)
  {
    forall i, j | 0 <= i < j < |t| ensures PointerOf(t[i]) != PointerOf(t[j]) {
      assert Order(t[i], t[j]) < 0;
    }
  }

  /** Whatever the order of the table, sorting and skipping the empty sections gives the tiling. */
  lemma SortFindsTiles(ss: seq<Section>, t: seq<Section>, start: nat, end: nat)
    requires multiset(t) == multiset(Nonempty(ss)) && Tiles(t, start, end)
    ensures Nonempty(Sorted(ss)) == t
  {
    var r := Nonempty(Sorted(ss));
    SortedAdds(ss);
    SortedInOrder(ss);
    NonemptyInOrder(Sorted(ss));
    TilesBounds(t, start, end);
    hide Nonempty, Sorted, Tiles;
    SameMembers(r, t);
    StrictDistinct(t);
    DistinctPermuted(r, t, PointerOf);
    forall i, j | 0 <= i < j < |r| ensures Order(r[i], r[j]) != 0 {
      assert PointerOf(r[i]) != PointerOf(r[j]);
    }
    SortedStrict(r, Order);
    StrictUnique(r, t, Order);
  }

  lemma {:induction false} SkipsEmpty(file: seq<byte>, ss: seq<Section>, stream: seq<byte>)
    ensures HashSections(file, ss, stream) == HashSections(file, Nonempty(ss), stream)
    decreases |ss|
  {
    hide Update;
    if ss != [] {
      assert ss == [ss[0]] + ss[1..];
      NonemptyAppend([ss[0]], ss[1..]);
      NonemptyOne(ss[0]);
      if ss[0].rawSize == 0 {
        assert [] + Nonempty(ss[1..]) == Nonempty(ss[1..]);
        SkipsEmpty(file, ss[1..], stream);
      } else {
        assert Nonempty(ss)[1..] == Nonempty(ss[1..]);
        var h := Update(file, stream, ss[0].rawPointer, ss[0].rawSize);
        if h.Hashed? {
          SkipsEmpty(file, ss[1..], h.stream);
        }
      }
    }
  }

  lemma {:induction false} HashesTiles(file: seq<byte>, t: seq<Section>, start: nat, end: nat, stream: seq<byte>)
    requires Tiles(t, start, end) && start <= end <= |file| < TWO64
    ensures HashSections(file, t, stream) == Hashed(stream + file[start..end])
    decreases |t|
  {
    if t == [] {
      assert stream + file[start..end] == stream;
    } else {
      var mid := start + t[0].rawSize;
      TilesBounds(t[1..], mid, end);
      assert t[0].rawSize <= (|file| - start) % TWO64;
      HashesTiles(file, t[1..], mid, end, stream + file[start..mid]);
      assert stream + file[start..mid] + file[mid..end] == stream + file[start..end];
    }
  }

  lemma {:induction false} TilesSum(t: seq<Section>, start: nat, end: nat)
    requires Tiles(t, start, end)
    ensures start + SumRaw(t) == end
    decreases |t|
  {
    if t != [] {
      TilesSum(t[1..], start + t[0].rawSize, end);
      assert t == [t[0]] + t[1..];
      SumAppend([t[0]], t[1..]);
      SumOne(t[0]);
    }
  }

  lemma {:induction false} NonemptySum(ss: seq<Section>)
    ensures SumRaw(Nonempty(ss)) == SumRaw(ss)
  {
    if ss != [] {
      var k := |ss| - 1;
      NonemptySum(ss[..k]);
      SumAppend(Nonempty(ss[..k]), [ss[k]]);
      SumOne(ss[k]);
      assert Nonempty(ss[..k]) + [] == Nonempty(ss[..k]);
    }
  }

  // ---------- coverage ----------

  /** The section lies behind the headers, in memory and in the file, unless it is uninitialised; and its last address
      is a 32-bit number not below its first. */
  predicate Placed(s: Section, headers: nat) {
    && (s.uninitialized || (headers <= s.virtualAddress && headers <= s.rawPointer))
    && (if s.virtualSize == 0 then s.virtualAddress == 0 else s.virtualAddress + s.virtualSize <= TWO32)
  }

  predicate AllPlaced(img: Image) {
    forall i :: 0 <= i < |img.sections| ==> Placed(img.sections[i], img.headers)
  }

  /** The non-empty sections `t`, in whatever order the table has them, tile the file from the end of the
      headers to `end`, and the certificate table lies behind them. */
  ghost predicate Laid(img: Image, t: seq<Section>, end: nat) {
    && Loaded(img) && Framed(img) && |img.file| < TWO64
    && img.secDir + 8 <= img.headers
    && multiset(t) == multiset(Nonempty(img.sections))
    && Tiles(t, img.headers, end)
    && end + DirSize(img) <= |img.file|
  }

  /** The sections tile the file, and each of them is where a section may be. */
  ghost predicate Tiled(img: Image, t: seq<Section>, end: nat) {
    Laid(img, t, end) && AllPlaced(img)
  }

  lemma TotalSize(img: Image, t: seq<Section>, end: nat)
    requires Laid(img, t, end)
    ensures img.headers <= end && SumRaw(img.sections) == SumRaw(Sorted(img.sections)) == end - img.headers
  {
    SortFindsTiles(img.sections, t, img.headers, end);
    NonemptySum(Sorted(img.sections));
    TilesSum(t, img.headers, end);
    SortedAdds(img.sections);
  }

  lemma PartialSum(ss: seq<Section>, i: nat)
    requires i < |ss|
    ensures SumRaw(ss[..i]) + ss[i].rawSize <= SumRaw(ss)
  {
    SumStep(ss, i);
    assert ss == ss[..i + 1] + ss[i + 1..];
    SumAppend(ss[..i + 1], ss[i + 1..]);
  }

  lemma RoomEnough(img: Image, i: nat, end: nat)
    requires i < |img.sections| && img.headers + SumRaw(img.sections) == end <= |img.file| < TWO64
    ensures img.sections[i].rawSize <= Room(img, i)
  {
    PartialSum(img.sections, i);
    hide SumRaw;
  }

  lemma PlacedValid(img: Image, s: Section)
    ensures VmaValid(img, s) <==> Placed(s, img.headers)
  {
  }

  /** The table of such an image is accepted exactly if every section is where a section may be. */
  lemma AcceptedIffPlaced(img: Image, t: seq<Section>, end: nat)
    requires Laid(img, t, end)
    ensures TableAccepted(img) <==> AllPlaced(img)
  {
    TotalSize(img, t, end);
    hide Sorted, Tiles, Nonempty, SumRaw, VmaValid, Placed, DirSize, Room;
    forall i | 0 <= i < |img.sections| ensures SectionAccepted(img, i) <==> Placed(img.sections[i], img.headers) {
      PlacedValid(img, img.sections[i]);
      RoomEnough(img, i, end);
    }
  }

  /** One section that is not makes the image be refused, whatever else is in it. */
  lemma MisplacedRefused(img: Image, i: nat)
    requires Framed(img) && i < |img.sections| && !Placed(img.sections[i], img.headers)
    ensures !Digest(img).Hashed?
  {
    PlacedValid(img, img.sections[i]);
    hide Headers, VmaValid, Placed, HashSections, Sorted, SumRaw, BeforeTable, Remaining;
    assert !SectionAccepted(img, i);
  }

  function HeaderBytes(img: Image): (s: seq<byte>)
    requires Framed(img)
  {
    img.file[..img.checksum] + img.file[img.checksum + 4..img.secDir]
  }

  lemma HeadersHashed(img: Image)
    requires Framed(img) && img.secDir + 8 <= img.headers <= |img.file|
    ensures Headers(img) == Hashed(HeaderBytes(img) + img.file[img.secDir + 8..img.headers])
  {
    var f := img.file;
    assert [] + f[0..img.checksum] == f[..img.checksum];
  }

  /** Zeros are appended only when data without a certificate table follows the last section. */
  function PadBytes(img: Image, end: nat): (s: seq<byte>)
    requires Framed(img)
  {
    if DirSize(img) == 0 && end < |img.file| then Zeros(Padding(|img.file|)) else []
  }

  /** The file before the certificate table, without the checksum and the security directory entry. */
  function Covered(img: Image): (s: seq<byte>)
    requires Framed(img) && DirSize(img) + img.secDir + 8 <= |img.file|
  {
    HeaderBytes(img) + img.file[img.secDir + 8..|img.file| - DirSize(img)]
  }

  // ---------- what follows the sections, sizes being 32-bit numbers ----------

  /** The bytes between the last section and the certificate table. */
  function Trailing(img: Image, end: nat): (n: nat)
    requires Framed(img) && end + DirSize(img) <= |img.file|
    ensures end + n <= |img.file|
  {
    |img.file| - DirSize(img) - end
  }

  /** The zeros that are appended: from 4 GiB on also behind sections or a certificate table. */
  function TailPad(img: Image, end: nat): (s: seq<byte>)
    requires Framed(img) && end + DirSize(img) <= |img.file|
  {
    if (if DirSize(img) == 0 then end < |img.file| || end >= TWO32 else |img.file| >= TWO32)
    then Zeros(Padding(|img.file| - DirSize(img))) else []
  }

  /** What is hashed behind the sections: its start and its length lose their upper bits. */
  function Tail(img: Image, end: nat): (s: seq<byte>)
    requires Framed(img) && end + DirSize(img) <= |img.file|
  {
    var o, n := U32(end), U32(Trailing(img, end));
    LowerBits(end);
    LowerBits(Trailing(img, end));
    img.file[o..o + n] + TailPad(img, end)
  }

  lemma LowerBits(n: nat)
    ensures U32(n) <= n && n == U32(n) + TWO32 * (n / TWO32)
  {
  }

  lemma {:induction false} Multiples(x: int, k: nat)
    ensures U32(x + TWO32 * k) == U32(x)
    decreases k
  {
    if k > 0 {
      Multiples(x, k - 1);
      assert x + TWO32 * k == x + TWO32 * (k - 1) + TWO32;
    }
  }

  /** Numbers that differ by a multiple of 2^32. */
  lemma Congruent(x: int, y: int, k: nat)
    requires x == y + TWO32 * k
    ensures U32(x) == U32(y)
  {
    Multiples(y, k);
  }

  lemma SamePadding(n: nat)
    ensures Padding(U32(n)) == Padding(n)
  {
    LowerBits(n);
    assert TWO32 == 8 * 0x2000_0000;
    Eights(U32(n), 0x2000_0000 * (n / TWO32));
  }

  lemma Eights(x: nat, k: nat)
    ensures (x + 8 * k) % 8 == x % 8
  {
  }

  /** The two sizes the code computes with a certificate table: the second has nothing left to take. */
  lemma SizesWithTable(n: nat, d: nat, end: nat)
    requires 0 < d && end + d <= n
    ensures var m, s := n - d - end, U32(end);
      var sum := U32(s + U32(n - d - s));
      && U32(n - d - s) == U32(m) && sum == U32(n - d) && U32(n - sum - d) == 0
      && (n > U32(sum + d) <==> n >= TWO32)
  {
    var m, s := n - d - end, U32(end);
    LowerBits(end);
    Congruent(n - d - s, m, end / TWO32);
    LowerBits(m);
    LowerBits(n - d);
    Congruent(n - d, s + U32(m), end / TWO32 + m / TWO32);
    var sum := U32(n - d);
    Congruent(n - sum - d, 0, (n - d) / TWO32);
    LowerBits(n);
    Congruent(n, sum + d, (n - d) / TWO32);
  }

  lemma SizesWithoutTable(n: nat, end: nat)
    requires end <= n
    ensures U32(n - U32(end)) == U32(n - end) && U32(U32(end) + U32(n - end)) == U32(n)
    ensures n > U32(end) <==> end < n || end >= TWO32
  {
    var m := n - end;
    LowerBits(end);
    LowerBits(m);
    Congruent(n - U32(end), m, end / TWO32);
    Congruent(n, U32(end) + U32(m), end / TWO32 + m / TWO32);
  }

  lemma TailWithout(img: Image, stream: seq<byte>, end: nat)
    requires Framed(img) && end <= |img.file| && DirSize(img) == 0
    ensures BeforeTable(img, stream, U32(end)) == (Hashed(stream), U32(end))
    ensures Remaining(img, stream, U32(end)) == Hashed(stream + Tail(img, end))
  {
    hide *;
    var n, o, k := |img.file|, U32(end), U32(Trailing(img, end));
    TailIs(img, end);
    PadWithout(img, end);
    SizesWithoutTable(n, end);
    NoTable(img, stream, o);
    var part, pad := img.file[o..o + k], TailPad(img, end);
    Associative(stream, part, pad);
    if n <= o {
      assert part == [] && stream + (part + []) == stream;
    }
  }

  lemma PadWithout(img: Image, end: nat)
    requires Framed(img) && end <= |img.file| && DirSize(img) == 0
    ensures Trailing(img, end) == |img.file| - end
    ensures TailPad(img, end) == if |img.file| > U32(end) then Zeros(Padding(U32(|img.file|))) else []
  {
    SizesWithoutTable(|img.file|, end);
    SamePadding(|img.file|);
    hide DirSize, U32, Padding, Zeros;
  }

  lemma NoTable(img: Image, stream: seq<byte>, o: u32)
    requires Framed(img) && DirSize(img) == 0
    ensures BeforeTable(img, stream, o) == (Hashed(stream), o)
    ensures |img.file| <= o ==> Remaining(img, stream, o) == Hashed(stream)
    ensures |img.file| > o ==>
      var k := U32(|img.file| - o);
      o + k <= |img.file| ==>
        Remaining(img, stream, o) == Hashed(stream + img.file[o..o + k] + Zeros(Padding(U32(o + k))))
  {
    hide DirSize, U32, Padding, Zeros;
  }

  lemma RemainingEmpty(img: Image, stream: seq<byte>, sum: u32)
    requires Framed(img) && sum <= |img.file| && U32(|img.file| - sum - DirSize(img)) == 0
    ensures Remaining(img, stream, sum) ==
      Hashed(stream + if |img.file| > U32(sum + DirSize(img)) then Zeros(Padding(sum)) else [])
  {
    hide DirSize, Padding, Zeros, U32;
    assert img.file[sum..sum + 0] == [] && stream + [] == stream;
  }

  lemma BeforeIs(img: Image, stream: seq<byte>, end: nat)
    requires Framed(img) && end + DirSize(img) <= |img.file| && DirSize(img) != 0
    ensures var n, d, o, k := |img.file|, DirSize(img), U32(end), U32(Trailing(img, end));
      o + k <= n && BeforeTable(img, stream, o) == (Hashed(stream + img.file[o..o + k]), U32(n - d))
  {
    var n, d := |img.file|, DirSize(img);
    SizesWithTable(n, d, end);
    LowerBits(end);
    LowerBits(Trailing(img, end));
    hide DirSize, U32;
  }

  lemma TailIs(img: Image, end: nat)
    requires Framed(img) && end + DirSize(img) <= |img.file|
    ensures var o, k := U32(end), U32(Trailing(img, end));
      o + k <= |img.file| && Tail(img, end) == img.file[o..o + k] + TailPad(img, end)
  {
    LowerBits(end);
    LowerBits(Trailing(img, end));
    hide DirSize, TailPad, U32;
  }

  lemma PadWith(img: Image, end: nat)
    requires Framed(img) && end + DirSize(img) <= |img.file| && DirSize(img) != 0
    ensures var n, d := |img.file|, DirSize(img);
      && U32(n - d) <= n && U32(n - U32(n - d) - d) == 0
      && TailPad(img, end) == if n > U32(U32(n - d) + d) then Zeros(Padding(U32(n - d))) else []
  {
    var n, d := |img.file|, DirSize(img);
    SizesWithTable(n, d, end);
    SamePadding(n - d);
    LowerBits(n - d);
    hide DirSize, U32, Padding, Zeros;
  }

  lemma TailWith(img: Image, stream: seq<byte>, end: nat)
    requires Framed(img) && end + DirSize(img) <= |img.file| && DirSize(img) != 0
    ensures var (h, sum) := BeforeTable(img, stream, U32(end));
      h.Hashed? && Remaining(img, h.stream, sum) == Hashed(stream + Tail(img, end))
  {
    hide *;
    TailIs(img, end);
    BeforeIs(img, stream, end);
    PadWith(img, end);
    var o, k := U32(end), U32(Trailing(img, end));
    var part, sum := img.file[o..o + k], U32(|img.file| - DirSize(img));
    RemainingEmpty(img, stream + part, sum);
    Associative(stream, part, TailPad(img, end));
  }

  lemma TailHashed(img: Image, stream: seq<byte>, end: nat)
    requires Framed(img) && end + DirSize(img) <= |img.file|
    ensures var (h, sum) := BeforeTable(img, stream, U32(end));
      h.Hashed? && Remaining(img, h.stream, sum) == Hashed(stream + Tail(img, end))
  {
    hide *;
    if DirSize(img) == 0 {
      TailWithout(img, stream, end);
    } else {
      TailWith(img, stream, end);
    }
  }

  /** The stages of a digest that is not rejected. */
  lemma Stages(img: Image, h0: seq<byte>, h1: seq<byte>, sum: u32, h2: seq<byte>, sum': u32)
    requires Framed(img) && Headers(img) == Hashed(h0) && TableAccepted(img)
    requires HashSections(img.file, Sorted(img.sections), h0) == Hashed(h1)
    requires sum == U32(img.headers + SumRaw(Sorted(img.sections)))
    requires BeforeTable(img, h1, sum) == (Hashed(h2), sum')
    ensures Digest(img) == Remaining(img, h2, sum')
  {
    hide Headers, TableAccepted, HashSections, Sorted, SumRaw, BeforeTable, Remaining, U32;
  }

  /** The stream of a tiled image of any size. */
  lemma Stream(img: Image, t: seq<Section>, end: nat)
    requires Tiled(img, t, end)
    ensures Framed(img) && img.secDir + 8 <= img.headers <= end && end + DirSize(img) <= |img.file|
    ensures Digest(img) == Hashed(HeaderBytes(img) + img.file[img.secDir + 8..end] + Tail(img, end))
  {
    hide *;
    TiledIs(img, t, end);
    TotalSize(img, t, end);
    AcceptedIffPlaced(img, t, end);
    HeadersHashed(img);
    SortFindsTiles(img.sections, t, img.headers, end);
    var f, ss, h0 := img.file, Sorted(img.sections), HeaderBytes(img) + img.file[img.secDir + 8..img.headers];
    SkipsEmpty(f, ss, h0);
    HashesTiles(f, t, img.headers, end, h0);
    var h1 := h0 + f[img.headers..end];
    TailHashed(img, h1, end);
    var (h, sum') := BeforeTable(img, h1, U32(end));
    Stages(img, h0, h1, U32(end), h.stream, sum');
    assert h1 == HeaderBytes(img) + f[img.secDir + 8..end];
  }

  /** Sizes and positions behind the sections survive their narrowing to 32 bits. */
  predicate Whole(img: Image, end: nat)
    requires Framed(img) && end + DirSize(img) <= |img.file|
  {
    var n, d, m := |img.file|, DirSize(img), Trailing(img, end);
    && m < TWO32
    && (end < TWO32 || (LowerBits(end); img.file[U32(end)..U32(end) + m] == img.file[end..end + m]))
    && (n < TWO32 || (d == 0 && end < n) || (n - d) % 8 == 0)
  }

  /** Every byte before the certificate table is hashed once, in ascending order, except the checksum and the
      security directory entry: always below 4 GiB, and from there on exactly under `Whole`. */
  lemma Coverage(img: Image, t: seq<Section>, end: nat)
    requires Tiled(img, t, end)
    ensures Framed(img) && img.secDir + 8 <= img.headers <= end && DirSize(img) + end <= |img.file|
    ensures |img.file| < TWO32 ==> Whole(img, end)
    ensures Digest(img) == Hashed(Covered(img) + PadBytes(img, end)) <==> Whole(img, end)
  {
    hide *;
    Stream(img, t, end);
    SmallWhole(img, end);
    TailIff(img, end);
    CoveredSplit(img, end);
    var front, pad := HeaderBytes(img) + img.file[img.secDir + 8..end], PadBytes(img, end);
    var all := img.file[end..end + Trailing(img, end)];
    Associative(front, all, pad);
    SplitEqual(front, Tail(img, end), front, all + pad);
  }

  lemma SmallWhole(img: Image, end: nat)
    requires Framed(img) && end + DirSize(img) <= |img.file|
    ensures |img.file| < TWO32 ==> Whole(img, end)
  {
    hide DirSize;
  }

  lemma CoveredSplit(img: Image, end: nat)
    requires Framed(img) && img.secDir + 8 <= end && end + DirSize(img) <= |img.file|
    ensures Covered(img) == HeaderBytes(img) + img.file[img.secDir + 8..end] + img.file[end..end + Trailing(img, end)]
  {
    hide DirSize, HeaderBytes;
    var f, k := img.file, end + Trailing(img, end);
    assert f[img.secDir + 8..k] == f[img.secDir + 8..end] + f[end..k];
  }

  lemma PadsShort(n: nat)
    ensures |Zeros(Padding(n))| == Padding(n) < 8 && (Padding(n) == 0 <==> n % 8 == 0)
  {
  }

  lemma PadsEqual(img: Image, end: nat)
    requires Framed(img) && end + DirSize(img) <= |img.file|
    ensures var n, d := |img.file|, DirSize(img);
      && |TailPad(img, end)| < 8
      && (TailPad(img, end) == PadBytes(img, end) <==> n < TWO32 || (d == 0 && end < n) || (n - d) % 8 == 0)
      && (|TailPad(img, end)| == |PadBytes(img, end)| <==> TailPad(img, end) == PadBytes(img, end))
  {
    PadsShort(|img.file| - DirSize(img));
    hide DirSize, Padding;
  }

  /** The tail is what should be hashed exactly under `Whole`. */
  lemma TailIff(img: Image, end: nat)
    requires Framed(img) && end + DirSize(img) <= |img.file|
    ensures Tail(img, end) == img.file[end..end + Trailing(img, end)] + PadBytes(img, end) <==> Whole(img, end)
  {
    hide *;
    var m := Trailing(img, end);
    TailIs(img, end);
    WholeIs(img, end);
    PadsEqual(img, end);
    var o, k, pad, want := U32(end), U32(m), TailPad(img, end), PadBytes(img, end);
    var got, all := img.file[o..o + k], img.file[end..end + m];
    BigDrop(m);
    if m < TWO32 {
      SplitEqual(got, pad, all, want);
    } else {
      assert |got + pad| < |all + want|;
    }
  }

  lemma BigDrop(m: nat)
    ensures m < TWO32 ==> U32(m) == m
    ensures m >= TWO32 ==> U32(m) + 8 <= m
  {
  }

  lemma WholeIs(img: Image, end: nat)
    requires Framed(img) && end + DirSize(img) <= |img.file|
    ensures var n, d, m := |img.file|, DirSize(img), Trailing(img, end);
      U32(end) <= end && (Whole(img, end) <==>
        && m < TWO32 && img.file[U32(end)..U32(end) + m] == img.file[end..end + m]
        && (n < TWO32 || (d == 0 && end < n) || (n - d) % 8 == 0))
  {
    LowerBits(end);
    BigDrop(end);
    hide DirSize, Trailing, U32;
  }

  lemma SplitEqual(a: seq<byte>, b: seq<byte>, c: seq<byte>, d: seq<byte>)
    requires |a| == |c|
    ensures a + b == c + d <==> a == c && b == d
  {
    if a + b == c + d {
      assert a == (a + b)[..|a|] && b == (a + b)[|a|..];
      assert c == (c + d)[..|a|] && d == (c + d)[|a|..];
    }
  }

  lemma TiledIs(img: Image, t: seq<Section>, end: nat)
    requires Tiled(img, t, end)
    ensures Laid(img, t, end) && AllPlaced(img)
    ensures Framed(img) && img.secDir + 8 <= img.headers && end + DirSize(img) <= |img.file| < TWO64
    ensures multiset(t) == multiset(Nonempty(img.sections)) && Tiles(t, img.headers, end)
  {
    hide Nonempty, Tiles, DirSize, AllPlaced;
  }

  /** Where the directory entry says the certificate table is. */
  function DirAddress(img: Image): (n: nat)
    requires Framed(img)
  {
    Word(img.file, img.secDir)
  }

  predicate InTable(img: Image, i: nat)
    requires Framed(img)
  {
    DirAddress(img) <= i < DirAddress(img) + DirSize(img)
  }

  /** Behind what `Covered` takes. */
  predicate LeftOut(img: Image, i: nat)
    requires Framed(img)
  {
    |img.file| - DirSize(img) <= i
  }

  /** The bytes left out at the end are those the size field counts, wherever the address field points: the table
      itself is left out if and only if it is the last thing in the file. */
  lemma TableLeftOutIff(img: Image)
    requires Framed(img) && 0 < DirSize(img) && DirAddress(img) + DirSize(img) <= |img.file|
    ensures (forall i :: InTable(img, i) ==> LeftOut(img, i)) <==> DirAddress(img) == |img.file| - DirSize(img)
  {
    hide DirAddress, DirSize;
    assert InTable(img, DirAddress(img));
  }

  // ---------- signing ----------

  /** The zeros a signer puts before the certificate table. */
  function Aligned(file: seq<byte>): (r: seq<byte>) {
    file + Zeros(Padding(|file|))
  }

  /** `signed` is `img` zero-padded to eight bytes, with the certificate table behind it and the checksum
      and the directory entry filled in. */
  ghost predicate Signs(img: Image, signed: Image, table: seq<byte>) {
    && Loaded(img) && Loaded(signed) && Framed(img) && Framed(signed)
    && signed == img.(file := signed.file)
    && |signed.file| == |Aligned(img.file)| + |table|
    && DirSize(signed) == |table|
    && signed.file[|Aligned(img.file)|..] == table
    && signed.file[..img.checksum] == img.file[..img.checksum]
    && signed.file[img.checksum + 4..img.secDir] == img.file[img.checksum + 4..img.secDir]
    && signed.file[img.secDir + 8..|Aligned(img.file)|] == Aligned(img.file)[img.secDir + 8..]
  }

  lemma SignedTiled(img: Image, t: seq<Section>, end: nat, signed: Image, table: seq<byte>)
    requires Tiled(img, t, end) && DirSize(img) == 0 && Signs(img, signed, table) && |signed.file| < TWO64
    ensures Tiled(signed, t, end)
  {
    hide DirSize, Tiles, Nonempty, Padding, Placed;
  }

  lemma AlignedLength(file: seq<byte>)
    ensures |Aligned(file)| == |file| + Padding(|file|) && Padding(|Aligned(file)|) == 0
  {
    hide Zeros;
  }

  /** The parts before the tail are the same, and the signed tail gets no padding. */
  lemma SignedParts(img: Image, signed: Image, table: seq<byte>, end: nat)
    requires Signs(img, signed, table) && DirSize(img) == 0 && img.secDir + 8 <= end <= |img.file|
    ensures signed.secDir == img.secDir && HeaderBytes(signed) == HeaderBytes(img) && |Aligned(img.file)| + DirSize(signed) == |signed.file|
    ensures signed.file[img.secDir + 8..end] == img.file[img.secDir + 8..end]
    ensures |Aligned(img.file)| == |img.file| + Padding(|img.file|)
    ensures signed.file[end..|Aligned(img.file)|] == img.file[end..] + Zeros(Padding(|img.file|))
    ensures Trailing(signed, end) == |img.file| - end + Padding(|img.file|) && TailPad(signed, end) == []
  {
    var f, g, n, o := img.file, signed.file, |Aligned(img.file)|, img.secDir + 8;
    AlignedLength(f);
    hide DirSize, Padding, Loaded;
    var w := Aligned(f)[o..];
    assert g[o..n] == w;
    SplitSlice(g, o, end, n);
    DropAppended(f, Zeros(Padding(|f|)), o, end);
  }

  lemma SplitSlice(g: seq<byte>, o: nat, e: nat, n: nat)
    requires o <= e <= n <= |g|
    ensures g[o..e] == g[o..n][..e - o] && g[e..n] == g[o..n][e - o..]
  {
  }

  lemma DropAppended(f: seq<byte>, z: seq<byte>, o: nat, e: nat)
    requires o <= e <= |f|
    ensures f[o..e] == (f + z)[o..][..e - o] && (f + z)[o..][e - o..] == f[e..] + z
  {
  }

  /** Behind sections that end below 4 GiB: for less than 4 GiB of data the code pads what follows the sections and
      nothing else; from there on it hashes a part, which has to be followed by the zeros the padding adds. */
  predicate KeepsTail(rest: seq<byte>, pad: nat) {
    var n, k := |rest|, U32(|rest|);
    if n + pad < TWO32 then n > 0 || pad == 0
    else k + pad < TWO32 && k + pad <= n && rest[k..k + pad] == Zeros(pad)
  }

  lemma KeepsTailIff(rest: seq<byte>, pad: nat)
    requires pad < 8
    ensures var n := |rest|;
      var k, k' := U32(n), U32(n + pad);
      && k <= n && k' <= n + pad
      && ((rest + Zeros(pad))[..k'] == rest[..k] + (if n > 0 then Zeros(pad) else []) <==> KeepsTail(rest, pad))
  {
    var n, w := |rest|, rest + Zeros(pad);
    var k, k' := U32(n), U32(n + pad);
    LowerBits(n);
    LowerBits(n + pad);
    if n + pad < TWO32 {
      hide Zeros;
      assert w[..k'] == rest + Zeros(pad) && rest[..k] == rest;
      assert |w| == n + pad && |rest + []| == n;
    } else if k + pad < TWO32 {
      Congruent(n + pad, k + pad, n / TWO32);
      hide U32, Zeros;
      assert k' == k + pad <= n;
      SplitEqual(rest[..k], rest[k..k + pad], rest[..k], Zeros(pad));
    } else {
      Congruent(n + pad, k + pad - TWO32, n / TWO32 + 1);
      hide Zeros;
      assert |w[..k']| < 8;
    }
  }

  lemma TailOfSigned(img: Image, signed: Image, table: seq<byte>, end: nat)
    requires Signs(img, signed, table) && DirSize(img) == 0 && img.secDir + 8 <= end <= |img.file| && end < TWO32
    requires end + DirSize(signed) <= |signed.file|
    ensures var w := img.file[end..] + Zeros(Padding(|img.file|));
      U32(|w|) <= |w| && Tail(signed, end) == w[..U32(|w|)]
  {
    hide *;
    SignsIs(img, signed, table);
    SignedParts(img, signed, table, end);
    TailIs(signed, end);
    PadsShort(|img.file|);
    var w, k := img.file[end..] + Zeros(Padding(|img.file|)), U32(Trailing(signed, end));
    LowerBits(Trailing(signed, end));
    assert |w| == Trailing(signed, end);
    PrefixOf(signed.file, end, w, k);
    assert w[..k] + [] == w[..k];
  }

  lemma PrefixOf(g: seq<byte>, o: nat, w: seq<byte>, k: nat)
    requires o + |w| <= |g| && g[o..o + |w|] == w && k <= |w|
    ensures g[o..o + k] == w[..k]
  {
    assert g[o..o + k] == g[o..o + |w|][..k];
  }

  lemma TailOfUnsigned(img: Image, end: nat)
    requires Framed(img) && DirSize(img) == 0 && end <= |img.file| && end < TWO32
    ensures var rest := img.file[end..];
      U32(|rest|) <= |rest|
      && Tail(img, end) == rest[..U32(|rest|)] + if |rest| > 0 then Zeros(Padding(|img.file|)) else []
  {
    TailIs(img, end);
    LowerBits(|img.file| - end);
    assert U32(end) == end;
    hide DirSize, Padding, Zeros, Tail, U32;
    var rest := img.file[end..];
    assert img.file[end..end + U32(|rest|)] == rest[..U32(|rest|)];
  }

  lemma TailsAgree(img: Image, signed: Image, table: seq<byte>, end: nat)
    requires Signs(img, signed, table) && DirSize(img) == 0 && img.secDir + 8 <= end <= |img.file| && end < TWO32
    requires end + DirSize(signed) <= |signed.file|
    ensures Tail(signed, end) == Tail(img, end) <==> KeepsTail(img.file[end..], Padding(|img.file|))
  {
    hide *;
    var rest, pad := img.file[end..], Padding(|img.file|);
    PadsShort(|img.file|);
    SignsIs(img, signed, table);
    TailOfSigned(img, signed, table, end);
    TailOfUnsigned(img, end);
    KeepsTailIff(rest, pad);
    assert |rest + Zeros(pad)| == |rest| + pad;
  }

  lemma SignsIs(img: Image, signed: Image, table: seq<byte>)
    requires Signs(img, signed, table)
    ensures Framed(img) && Framed(signed) && DirSize(signed) == |table|
  {
    hide DirSize, Aligned;
  }

  /** Signing leaves the stream unchanged exactly when it leaves the tail unchanged: behind sections that end below
      4 GiB, and with less than 4 GiB after them, when data follows the last section or the file is already aligned. */
  lemma SigningKeepsStream(img: Image, t: seq<Section>, end: nat, signed: Image, table: seq<byte>)
    requires Tiled(img, t, end) && Framed(img) && DirSize(img) == 0 && table != []
    requires Signs(img, signed, table) && |signed.file| < TWO64
    ensures Framed(signed) && Digest(signed).Hashed? && Digest(img).Hashed?
    ensures end <= |img.file| && end + DirSize(signed) <= |signed.file|
    ensures Digest(signed) == Digest(img) <==> Tail(signed, end) == Tail(img, end)
    ensures end < TWO32 ==> (Digest(signed) == Digest(img) <==> KeepsTail(img.file[end..], Padding(|img.file|)))
  {
    hide *;
    SignsIs(img, signed, table);
    SignedTiled(img, t, end, signed, table);
    Stream(img, t, end);
    Stream(signed, t, end);
    SignedParts(img, signed, table, end);
    var front := HeaderBytes(img) + img.file[img.secDir + 8..end];
    SplitEqual(front, Tail(signed, end), front, Tail(img, end));
    if end < TWO32 {
      TailsAgree(img, signed, table, end);
    }
  }

  // ---------- a file that signing changes ----------

  function DosPart(sections: nat): (s: seq<byte>)
    ensures |s| == 88
  {
    [0x4d, 0x5a] + (Zeros(58) + (Put(64, 4) + ([0x50, 0x45, 0, 0] + (Zeros(2) + (Put(sections, 2) + (Zeros(12)
    + (Put(224, 2) + Put(0, 2))))))))
  }

  function OptionalPart(): (s: seq<byte>)
    ensures |s| == 128
  {
    Put(0x10b, 2) + (Zeros(34) + (Put(0, 4) + (Zeros(16) + (Put(1000, 4) + (Put(580, 4) + (Zeros(28)
    + (Put(16, 4) + Zeros(32))))))))
  }

  /** A 32-bit image with 580 bytes of headers and no section, up to what follows the directory entry. */
  function ExampleFile(sections: nat, address: nat, size: nat, rest: seq<byte>): (f: seq<byte>)
    ensures |f| == 224 + |rest|
  {
    DosPart(sections) + (OptionalPart() + (Put(address, 4) + (Put(size, 4) + rest)))
  }

  lemma DosHolds(f: seq<byte>, sections: nat)
    requires Holds(f, 0, DosPart(sections))
    ensures Holds(f, 0, [0x4d, 0x5a]) && Holds(f, 60, Put(64, 4)) && Holds(f, 64, [0x50, 0x45, 0, 0])
    ensures Holds(f, 70, Put(sections, 2)) && Holds(f, 84, Put(224, 2)) && Holds(f, 86, Put(0, 2))
  {
    hide Put, Holds, Zeros;
    var p7 := Put(224, 2) + Put(0, 2);
    var p6 := Zeros(12) + p7;
    var p5 := Put(sections, 2) + p6;
    var p4 := Zeros(2) + p5;
    var p3 := [0x50, 0x45, 0, 0] + p4;
    var p2 := Put(64, 4) + p3;
    var p1 := Zeros(58) + p2;
    HoldsSplit(f, 0, [0x4d, 0x5a], p1);
    HoldsSplit(f, 2, Zeros(58), p2);
    HoldsSplit(f, 60, Put(64, 4), p3);
    HoldsSplit(f, 64, [0x50, 0x45, 0, 0], p4);
    HoldsSplit(f, 68, Zeros(2), p5);
    HoldsSplit(f, 70, Put(sections, 2), p6);
    HoldsSplit(f, 72, Zeros(12), p7);
    HoldsSplit(f, 84, Put(224, 2), Put(0, 2));
  }

  lemma OptionalHolds(f: seq<byte>)
    requires Holds(f, 88, OptionalPart())
    ensures Holds(f, 88, Put(0x10b, 2)) && Holds(f, 124, Put(0, 4)) && Holds(f, 144, Put(1000, 4))
    ensures Holds(f, 148, Put(580, 4)) && Holds(f, 180, Put(16, 4))
  {
    hide Put, Holds, Zeros;
    var p7 := Put(16, 4) + Zeros(32);
    var p6 := Zeros(28) + p7;
    var p5 := Put(580, 4) + p6;
    var p4 := Put(1000, 4) + p5;
    var p3 := Zeros(16) + p4;
    var p2 := Put(0, 4) + p3;
    var p1 := Zeros(34) + p2;
    HoldsSplit(f, 88, Put(0x10b, 2), p1);
    HoldsSplit(f, 90, Zeros(34), p2);
    HoldsSplit(f, 124, Put(0, 4), p3);
    HoldsSplit(f, 128, Zeros(16), p4);
    HoldsSplit(f, 144, Put(1000, 4), p5);
    HoldsSplit(f, 148, Put(580, 4), p6);
    HoldsSplit(f, 152, Zeros(28), p7);
    HoldsSplit(f, 180, Put(16, 4), Zeros(32));
  }

  lemma ExampleHolds(sections: nat, address: nat, size: nat, rest: seq<byte>)
    ensures var f := ExampleFile(sections, address, size, rest);
      && Holds(f, 0, DosPart(sections)) && Holds(f, 88, OptionalPart())
      && Holds(f, 216, Put(address, 4)) && Holds(f, 220, Put(size, 4)) && Holds(f, 224, rest)
  {
    var f := ExampleFile(sections, address, size, rest);
    var p3 := Put(size, 4) + rest;
    var p2 := Put(address, 4) + p3;
    var p1 := OptionalPart() + p2;
    WholeHolds(f);
    assert f == DosPart(sections) + p1;
    hide ExampleFile, DosPart, OptionalPart, Put, Holds;
    HoldsSplit(f, 0, DosPart(sections), p1);
    HoldsSplit(f, 88, OptionalPart(), p2);
    HoldsSplit(f, 216, Put(address, 4), p3);
    HoldsSplit(f, 220, Put(size, 4), rest);
  }

  function ExampleImage(f: seq<byte>): (img: Image) { Image(f, 152, 216, 580, []) }

  lemma ExampleNumbers(f: seq<byte>, sections: nat)
    requires |f| >= 576 && sections < TWO16 && Holds(f, 0, DosPart(sections)) && Holds(f, 88, OptionalPart())
    ensures f[0] == 0x4d && f[1] == 0x5a && Word(f, 60) == 64 && Holds(f, 64, [0x50, 0x45, 0, 0])
    ensures Short(f, 70) == sections && Short(f, 84) == 224 && Short(f, 86) == 0 && Short(f, 88) == 0x10b
    ensures Word(f, 124) == 0 && Word(f, 144) == 1000 && Word(f, 148) == 580 && Word(f, 180) == 16
  {
    hide DosPart, OptionalPart, Put, Word, Short;
    DosHolds(f, sections);
    OptionalHolds(f);
    assert f[0..2] == [0x4d, 0x5a] && f[0..2][0] == f[0] && f[0..2][1] == f[1];
    hide Holds;
    WordIs(f, 60, 64);
    ShortIs(f, 70, sections);
    ShortIs(f, 84, 224);
    ShortIs(f, 86, 0);
    ShortIs(f, 88, 0x10b);
    WordIs(f, 124, 0);
    WordIs(f, 144, 1000);
    WordIs(f, 148, 580);
    WordIs(f, 180, 16);
  }

  lemma ExampleAccepted(f: seq<byte>)
    requires |f| >= 576 && f[0] == 0x4d && f[1] == 0x5a && Word(f, 60) == 64 && Holds(f, 64, [0x50, 0x45, 0, 0])
    requires Short(f, 70) == 0 && Short(f, 84) == 224 && Short(f, 86) == 0 && Short(f, 88) == 0x10b
    requires Word(f, 124) == 0 && Word(f, 144) == 1000 && Word(f, 148) == 580 && Word(f, 180) == 16
    requires Word(f, 216) < |f| || (Word(f, 216) == |f| && Word(f, 220) == 0)
    ensures Loaded(ExampleImage(f)) && Framed(ExampleImage(f))
  {
    hide Word, Short, Holds, SectionAt;
  }

  lemma ExampleLoaded(address: u32, size: u32, rest: seq<byte>)
    requires |rest| >= 352 && (address < 224 + |rest| || (address == 224 + |rest| && size == 0))
    ensures var img := ExampleImage(ExampleFile(0, address, size, rest));
      Loaded(img) && Framed(img) && DirSize(img) == size
  {
    hide ExampleFile, DosPart, OptionalPart, Word, Short, Holds, SectionAt, Put, HeaderFields, HeaderSizes, Loaded;
    var f := ExampleFile(0, address, size, rest);
    ExampleHolds(0, address, size, rest);
    ExampleNumbers(f, 0);
    WordIs(f, 216, address);
    WordIs(f, 220, size);
    ExampleAccepted(f);
  }

  function Unsigned(): (img: Image) { ExampleImage(ExampleFile(0, 0, 0, Zeros(356))) }

  function Signed(): (img: Image) { ExampleImage(ExampleFile(0, 584, 1, Zeros(360) + [7])) }

  lemma ExamplesLoaded()
    ensures Loaded(Unsigned()) && Framed(Unsigned()) && DirSize(Unsigned()) == 0 && |Unsigned().file| == 580
    ensures Loaded(Signed()) && Framed(Signed()) && DirSize(Signed()) == 1 && |Signed().file| == 585
  {
    ExampleLoaded(0, 0, Zeros(356));
    ExampleLoaded(584, 1, Zeros(360) + [7]);
    hide Loaded, DirSize, Zeros;
  }

  lemma UnsignedTiled()
    ensures Tiled(Unsigned(), [], 580)
  {
    ExamplesLoaded();
    hide Loaded, DirSize, ExampleFile;
  }

  /** The two files agree before the directory entry, and behind it up to the zeros. */
  lemma ExamplesAgree()
    ensures var f, g := Unsigned().file, Signed().file;
      && |f| == 580 && |g| == 585 && f[..216] == g[..216]
      && f[224..] == Zeros(356) && g[224..584] == Zeros(360) && g[584..] == [7]
  {
    hide DosPart, OptionalPart, Put;
    var p := DosPart(0) + OptionalPart();
    var f, g, z, y := Unsigned().file, Signed().file, Zeros(356), Zeros(360) + [7];
    assert f == p + (Put(0, 4) + Put(0, 4)) + z;
    assert g == p + (Put(584, 4) + Put(1, 4)) + y;
    assert f[224..] == z && g[224..] == y;
    assert g[224..584] == y[..360] && g[584..] == y[360..];
  }

  lemma ZerosConcat(n: nat, k: nat)
    ensures Zeros(n) + Zeros(k) == Zeros(n + k)
  {
  }

  lemma PaddedTo(f: seq<byte>)
    requires |f| == 580 && f[224..] == Zeros(356)
    ensures |Aligned(f)| == 584 && Aligned(f)[224..] == Zeros(360)
  {
    ZerosConcat(356, 4);
    hide Zeros;
    assert Padding(580) == 4;
    assert Aligned(f)[224..] == f[224..] + Zeros(4);
  }

  lemma SamePart(f: seq<byte>, g: seq<byte>, i: nat, j: nat, n: nat)
    requires i <= j <= n <= |f| && n <= |g| && f[..n] == g[..n]
    ensures f[i..j] == g[i..j]
  {
    assert f[i..j] == f[..n][i..j] && g[i..j] == g[..n][i..j];
  }

  lemma SignsBy(f: seq<byte>, g: seq<byte>)
    requires |f| == 580 && |g| == 585 && f[..216] == g[..216]
    requires |Aligned(f)| == 584 && Aligned(f)[224..] == g[224..584] && g[584..] == [7]
    requires Loaded(ExampleImage(f)) && Loaded(ExampleImage(g)) && Framed(ExampleImage(f)) && Framed(ExampleImage(g))
    requires DirSize(ExampleImage(g)) == 1
    ensures Signs(ExampleImage(f), ExampleImage(g), [7])
  {
    hide Loaded, Aligned, DirSize;
    SamePart(f, g, 0, 152, 216);
    SamePart(f, g, 156, 216, 216);
    assert f[..152] == f[0..152] && g[..152] == g[0..152];
  }

  lemma ExampleSigns()
    ensures Signs(Unsigned(), Signed(), [7])
  {
    ExamplesLoaded();
    ExamplesAgree();
    hide Loaded, DirSize, ExampleFile, Zeros, Aligned, Signs, ExampleImage;
    PaddedTo(Unsigned().file);
    ExampleFiles();
    SignsBy(Unsigned().file, Signed().file);
  }

  lemma ExampleFiles()
    ensures Unsigned() == ExampleImage(Unsigned().file) && Signed() == ExampleImage(Signed().file)
  {
  }

  /** An image load_pe accepts, of 580 header bytes and no section: signing changes its stream. */
  lemma UnalignedExample()
    ensures Tiled(Unsigned(), [], 580) && Signs(Unsigned(), Signed(), [7])
    ensures Framed(Unsigned()) && Framed(Signed()) && Digest(Signed()) != Digest(Unsigned())
  {
    ExamplesLoaded();
    UnsignedTiled();
    ExampleSigns();
    assert 585 < TWO32;
    hide *;
    SigningKeepsStream(Unsigned(), [], 580, Signed(), [7]);
  }

  lemma HugeTiled(rest: seq<byte>)
    requires |rest| == TWO32 + 356
    ensures var img := ExampleImage(ExampleFile(0, 0, 0, rest));
      Framed(img) && Tiled(img, [], 580) && DirSize(img) == 0 && |img.file| == TWO32 + 580
  {
    ExampleLoaded(0, 0, rest);
    hide Loaded, DirSize, ExampleFile;
  }

  lemma HugeTail(img: Image)
    requires Framed(img) && DirSize(img) == 0 && |img.file| == TWO32 + 580
    ensures Tail(img, 580) == Zeros(4) && !Whole(img, 580)
  {
    hide DirSize, Zeros;
    assert Padding(TWO32 + 580) == 4;
    assert img.file[580..580 + 0] == [] && [] + Zeros(4) == Zeros(4);
  }

  /** An image of 580 header bytes and 4 GiB of data behind them: none of that data is hashed. */
  lemma HugeFile(rest: seq<byte>)
    requires |rest| == TWO32 + 356
    ensures var img := ExampleImage(ExampleFile(0, 0, 0, rest));
      && Framed(img) && Tiled(img, [], 580) && DirSize(img) == 0 && |img.file| == TWO32 + 580
      && Digest(img) == Hashed(HeaderBytes(img) + img.file[img.secDir + 8..580] + Zeros(4))
      && Digest(img) != Hashed(Covered(img) + PadBytes(img, 580))
  {
    hide *;
    var img, end: nat := ExampleImage(ExampleFile(0, 0, 0, rest)), 580;
    HugeTiled(rest);
    HugeTail(img);
    Stream(img, [], end);
    Coverage(img, [], end);
  }

  // ---------- a file with two sections, the later one first in the table ----------

  /** The header of a section of code, `size` bytes long in memory and in the file. */
  function SectionPart(size: nat, address: nat, pointer: nat): (s: seq<byte>)
    ensures |s| == 40
  {
    Zeros(8) + (Put(size, 4) + (Put(address, 4) + (Put(size, 4) + (Put(pointer, 4) + (Zeros(12) + Put(0x6000_0020, 4))))))
  }

  lemma SectionFields(f: seq<byte>, o: nat, size: nat, address: nat, pointer: nat)
    requires Holds(f, o, SectionPart(size, address, pointer))
    ensures o + 40 <= |f| && Holds(f, o + 8, Put(size, 4)) && Holds(f, o + 12, Put(address, 4))
    ensures Holds(f, o + 16, Put(size, 4)) && Holds(f, o + 20, Put(pointer, 4)) && Holds(f, o + 36, Put(0x6000_0020, 4))
  {
    assert o + 40 <= |f|;
    hide Put, Holds, Zeros;
    var p6 := Put(0x6000_0020, 4);
    var p5 := Zeros(12) + p6;
    var p4 := Put(pointer, 4) + p5;
    var p3 := Put(size, 4) + p4;
    var p2 := Put(address, 4) + p3;
    var p1 := Put(size, 4) + p2;
    HoldsSplit(f, o, Zeros(8), p1);
    HoldsSplit(f, o + 8, Put(size, 4), p2);
    HoldsSplit(f, o + 12, Put(address, 4), p3);
    HoldsSplit(f, o + 16, Put(size, 4), p4);
    HoldsSplit(f, o + 20, Put(pointer, 4), p5);
    HoldsSplit(f, o + 24, Zeros(12), p6);
  }

  lemma SectionHolds(f: seq<byte>, o: nat, size: u32, address: u32, pointer: u32)
    requires Holds(f, o, SectionPart(size, address, pointer))
    ensures o + 40 <= |f| && SectionAt(f, o) == Section(address, size, size, pointer, false)
  {
    SectionFields(f, o, size, address, pointer);
    hide Put, Holds, Zeros, Word, SectionPart;
    WordIs(f, o + 8, size);
    WordIs(f, o + 12, address);
    WordIs(f, o + 16, size);
    WordIs(f, o + 20, pointer);
    WordIs(f, o + 36, 0x6000_0020);
  }

  function SectionTable(): (s: seq<byte>)
    ensures |s| == 356
  {
    Zeros(88) + (SectionPart(256, 8192, 836) + (SectionPart(256, 4096, 580) + Zeros(188)))
  }

  function SectionsFile(data: seq<byte>): (f: seq<byte>)
    ensures |f| == 580 + |data|
  {
    ExampleFile(2, 0, 0, SectionTable() + data)
  }

  const FIRST := Section(4096, 256, 256, 580, false)
  const SECOND := Section(8192, 256, 256, 836, false)

  function SectionsImage(data: seq<byte>): (img: Image) { Image(SectionsFile(data), 152, 216, 580, [SECOND, FIRST]) }

  lemma SectionsHold(data: seq<byte>)
    ensures var f := SectionsFile(data);
      && Holds(f, 0, DosPart(2)) && Holds(f, 88, OptionalPart()) && Holds(f, 216, Put(0, 4)) && Holds(f, 220, Put(0, 4))
      && Holds(f, 312, SectionPart(256, 8192, 836)) && Holds(f, 352, SectionPart(256, 4096, 580))
      && Holds(f, 580, data)
  {
    var f, rest := SectionsFile(data), SectionTable() + data;
    ExampleHolds(2, 0, 0, rest);
    var p2 := SectionPart(256, 4096, 580) + Zeros(188);
    var p1 := SectionPart(256, 8192, 836) + p2;
    assert SectionTable() == Zeros(88) + p1;
    hide SectionsFile, SectionTable, SectionPart, ExampleFile, Holds, Put, DosPart, OptionalPart;
    HoldsSplit(f, 224, SectionTable(), data);
    HoldsSplit(f, 224, Zeros(88), p1);
    HoldsSplit(f, 312, SectionPart(256, 8192, 836), p2);
    HoldsSplit(f, 352, SectionPart(256, 4096, 580), Zeros(188));
  }

  lemma SectionsAccepted(f: seq<byte>)
    requires |f| >= 576 && f[0] == 0x4d && f[1] == 0x5a && Word(f, 60) == 64 && Holds(f, 64, [0x50, 0x45, 0, 0])
    requires Short(f, 70) == 2 && Short(f, 84) == 224 && Short(f, 86) == 0 && Short(f, 88) == 0x10b
    requires Word(f, 124) == 0 && Word(f, 144) == 1000 && Word(f, 148) == 580 && Word(f, 180) == 16
    requires Word(f, 216) == 0 && SectionAt(f, 312) == SECOND && SectionAt(f, 352) == FIRST
    ensures Loaded(Image(f, 152, 216, 580, [SECOND, FIRST])) && Framed(Image(f, 152, 216, 580, [SECOND, FIRST]))
  {
    hide Word, Short, Holds, SectionAt;
  }

  lemma SectionsLoaded(data: seq<byte>)
    ensures Loaded(SectionsImage(data)) && Framed(SectionsImage(data)) && DirSize(SectionsImage(data)) == 0
  {
    hide SectionsFile, SectionPart, DosPart, OptionalPart, Word, Short, Holds, SectionAt, Put, Loaded;
    var f := SectionsFile(data);
    SectionsHold(data);
    ExampleNumbers(f, 2);
    SectionHolds(f, 312, 256, 8192, 836);
    SectionHolds(f, 352, 256, 4096, 580);
    WordIs(f, 216, 0);
    WordIs(f, 220, 0);
    SectionsAccepted(f);
  }

  lemma SectionsTiles()
    ensures multiset([FIRST, SECOND]) == multiset(Nonempty([SECOND, FIRST])) && Tiles([FIRST, SECOND], 580, 1092)
  {
    var ss, t := [SECOND, FIRST], [FIRST, SECOND];
    assert ss[..1] == [SECOND] && [SECOND][..0] == [];
    assert Nonempty([SECOND]) == [SECOND] && Nonempty(ss) == [SECOND, FIRST];
    assert t[1..] == [SECOND] && [SECOND][1..] == [];
  }

  /** 580 bytes of headers and two sections of 256 bytes, listed in reverse: all of their data is hashed, in file order. */
  lemma SectionsHashed(data: seq<byte>)
    requires |data| == 512
    ensures var img := SectionsImage(data);
      && Framed(img) && Tiled(img, [FIRST, SECOND], 1092)
      && Digest(img) == Hashed(HeaderBytes(img) + img.file[224..580] + data)
  {
    SectionsLoaded(data);
    SectionsTiles();
    SectionsHold(data);
    var img := SectionsImage(data);
    hide DirSize, Loaded, SectionsFile, Word, Digest, HeaderBytes, Padding, DosPart, OptionalPart, SectionPart, Put;
    Coverage(img, [FIRST, SECOND], 1092);
    assert img.file[580..1092] == data;
    assert img.file[224..1092] == img.file[224..580] + data;
    assert PadBytes(img, 1092) == [];
    assert HeaderBytes(img) + img.file[224..1092] + [] == HeaderBytes(img) + img.file[224..580] + data;
  }

  /** Bit 7 of the characteristics marks uninitialised data. */
  lemma UninitializedBit(f: seq<byte>, o: nat, high: nat, low: nat)
    requires o + 40 <= |f| && low < 128
    ensures Word(f, o + 36) == 256 * high + 128 + low ==> SectionAt(f, o).uninitialized
    ensures Word(f, o + 36) == 256 * high + low ==> !SectionAt(f, o).uninitialized
  {
    assert (256 * high + 128 + low) / 128 == 2 * high + 1 && (256 * high + low) / 128 == 2 * high;
    hide Word;
  }

  // ---------- sections that do not fit ----------

  /** A section larger than what the headers and the sections before it leave of the file is refused. */
  lemma TooLargeRefused(img: Image, i: nat)
    requires Framed(img) && i < |img.sections| && |img.file| < TWO64 && SumRaw(img.sections[..i]) < TWO32
    requires var used := img.headers + SumRaw(img.sections[..i]);
      used <= |img.file| < used + img.sections[i].rawSize
    ensures !Digest(img).Hashed?
  {
    hide Headers, VmaValid, HashSections, Sorted, SumRaw, BeforeTable, Remaining;
    assert !SectionAccepted(img, i);
  }

  /** Of the sections in file order, the first that is not empty is hashed if it ends inside the file and refused if it begins
      inside and ends outside; one that begins behind the file passes the test and is read there. */
  lemma FirstSection(file: seq<byte>, s: Section, rest: seq<Section>, stream: seq<byte>)
    requires s.rawSize > 0 && |file| < TWO64 - 2 * TWO32
    ensures var r, o, e := HashSections(file, [s] + rest, stream), s.rawPointer, s.rawPointer + s.rawSize;
      if e <= |file| then r == HashSections(file, rest, stream + file[o..e])
      else r == if o <= |file| then Rejected else PastEnd
  {
    var ss := [s] + rest;
    assert ss[0] == s && ss[1..] == rest;
    if s.rawPointer > |file| {
      assert (|file| - s.rawPointer) % TWO64 == TWO64 + |file| - s.rawPointer;
    }
  }
}
